/** UTF-8 (RFC 3629, section 3) as TextEncoder writes it and TextDecoder reads
    it, over strings of Unicode scalar values. */
module Utf8 {
  import opened Wrappers
  import opened Bytes

  /** The one-to-four octet form of one scalar value. */
  function EncodeChar(c: char): (b: seq<byte>)
    ensures 1 <= |b| <= 4
    ensures b[0] < 0x80 || 0xC0 <= b[0] < 0xF8
    ensures forall k :: 1 <= k < |b| ==> IsContinuation(b[k])
  {
    var x := c as int;
    if x < 0x80 then [x]
    else if x < 0x800 then [0xC0 + x / 64, 0x80 + x % 64]
    else if x < 0x1_0000 then [0xE0 + x / 4096, 0x80 + (x / 64) % 64, 0x80 + x % 64]
    else [0xF0 + x / 262144, 0x80 + (x / 4096) % 64, 0x80 + (x / 64) % 64, 0x80 + x % 64]
  }

  /** TextEncoder.prototype.encode. */
  function Encode(s: string): (b: seq<byte>)
  {
    if s == [] then [] else EncodeChar(s[0]) + Encode(s[1..])
  }

  predicate IsContinuation(b: byte) { 0x80 <= b < 0xC0 }

  /** Reads one scalar value from the front of b, with the number of octets it
      takes; None for a malformed sequence (a stray continuation octet, a
      truncated sequence, an overlong form, a surrogate, a value above
      U+10FFFF). */
  function DecodeFirst(b: seq<byte>): (r: Option<(char, nat)>)
    requires |b| > 0
    ensures r.Some? ==> 1 <= r.value.1 <= |b|
  {
    var b0 := b[0];
    if b0 < 0x80 then Some((b0 as char, 1))
    else if 0xC0 <= b0 < 0xE0 then
      if |b| < 2 || !IsContinuation(b[1]) then None
      else
        var x := (b0 as int - 0xC0) * 64 + (b[1] as int - 0x80);
        if x < 0x80 then None else Some((x as char, 2))
    else if 0xE0 <= b0 < 0xF0 then
      if |b| < 3 || !IsContinuation(b[1]) || !IsContinuation(b[2]) then None
      else
        var x := (b0 as int - 0xE0) * 4096 + (b[1] as int - 0x80) * 64 + (b[2] as int - 0x80);
        if x < 0x800 || 0xD800 <= x < 0xE000 then None else Some((x as char, 3))
    else if 0xF0 <= b0 < 0xF8 then
      if |b| < 4 || !IsContinuation(b[1]) || !IsContinuation(b[2]) || !IsContinuation(b[3]) then None
      else
        var x := (b0 as int - 0xF0) * 262144 + (b[1] as int - 0x80) * 4096 + (b[2] as int - 0x80) * 64 + (b[3] as int - 0x80);
        if x < 0x1_0000 || x >= 0x11_0000 then None else Some((x as char, 4))
    else None
  }

  /** TextDecoder.prototype.decode on well-formed input; None where the
      decoder would substitute U+FFFD. */
  function Decode(b: seq<byte>): (r: Option<string>)
    decreases |b|
  {
    if b == [] then Some([])
    else match DecodeFirst(b)
      case None => None
      case Some((c, n)) =>
        match Decode(b[n..])
        case None => None
        case Some(s) => Some([c] + s)
  }

  lemma DecodeFirstEncodeChar(c: char, rest: seq<byte>)
    ensures DecodeFirst(EncodeChar(c) + rest) == Some((c, |EncodeChar(c)|))
  {
    var x := c as int;
    var b := EncodeChar(c) + rest;
    if x < 0x80 {
    } else if x < 0x800 {
      assert x == (x / 64) * 64 + x % 64;
    } else if x < 0x1_0000 {
      var q := x / 64;
      assert x == q * 64 + x % 64;
      assert q == (q / 64) * 64 + q % 64;
      assert x / 4096 == q / 64;
      assert (b[0] as int - 0xE0) * 4096 + (b[1] as int - 0x80) * 64 + (b[2] as int - 0x80) == x;
    } else {
      var q := x / 64;
      var p := q / 64;
      assert x == q * 64 + x % 64;
      assert q == p * 64 + q % 64;
      assert p == (p / 64) * 64 + p % 64;
      assert x / 4096 == p;
      assert x / 262144 == p / 64;
      assert (b[0] as int - 0xF0) * 262144 + (b[1] as int - 0x80) * 4096 + (b[2] as int - 0x80) * 64 + (b[3] as int - 0x80) == x;
    }
  }

  /** Decoding the UTF-8 form of a string gives the string back. */
  lemma {:induction false} DecodeEncode(s: string)
    ensures Decode(Encode(s)) == Some(s)
    decreases |s|
  {
    if s != [] {
      var e := EncodeChar(s[0]);
      DecodeFirstEncodeChar(s[0], Encode(s[1..]));
      assert (e + Encode(s[1..]))[|e|..] == Encode(s[1..]);
      DecodeEncode(s[1..]);
      assert [s[0]] + s[1..] == s;
    }
  }

  lemma Split64(h: int, l: int)
    requires 0 <= l < 64
    ensures (h * 64 + l) / 64 == h && (h * 64 + l) % 64 == l
  {
  }

  lemma NestedDivisions(x: nat)
    ensures x / 4096 == x / 64 / 64 && x / 262144 == x / 64 / 64 / 64
  {
    var q := x / 64;
    var p := q / 64;
    Split64(q, x % 64);
    Split64(p, q % 64);
    Split64(p / 64, p % 64);
  }

  /** The octets of a two-octet sequence are those EncodeChar writes for
      the value they carry. */
  lemma TwoOctets(b0: int, b1: int)
    requires 0xC0 <= b0 < 0xE0 && 0x80 <= b1 < 0xC0
    ensures var x := (b0 - 0xC0) * 64 + (b1 - 0x80);
      0xC0 + x / 64 == b0 && 0x80 + x % 64 == b1
  {
    Split64(b0 - 0xC0, b1 - 0x80);
  }

  lemma ThreeOctets(b0: int, b1: int, b2: int)
    requires 0xE0 <= b0 < 0xF0 && 0x80 <= b1 < 0xC0 && 0x80 <= b2 < 0xC0
    ensures var x := (b0 - 0xE0) * 4096 + (b1 - 0x80) * 64 + (b2 - 0x80);
      0xE0 + x / 4096 == b0 && 0x80 + (x / 64) % 64 == b1 && 0x80 + x % 64 == b2
  {
    var x := (b0 - 0xE0) * 4096 + (b1 - 0x80) * 64 + (b2 - 0x80);
    var hi := (b0 - 0xE0) * 64 + (b1 - 0x80);
    assert x == hi * 64 + (b2 - 0x80);
    Split64(hi, b2 - 0x80);
    Split64(b0 - 0xE0, b1 - 0x80);
    NestedDivisions(x);
  }

  lemma FourOctets(b0: int, b1: int, b2: int, b3: int)
    requires 0xF0 <= b0 < 0xF8 && 0x80 <= b1 < 0xC0 && 0x80 <= b2 < 0xC0 && 0x80 <= b3 < 0xC0
    ensures var x := (b0 - 0xF0) * 262144 + (b1 - 0x80) * 4096 + (b2 - 0x80) * 64 + (b3 - 0x80);
      0xF0 + x / 262144 == b0 && 0x80 + (x / 4096) % 64 == b1 && 0x80 + (x / 64) % 64 == b2 && 0x80 + x % 64 == b3
  {
    var x := (b0 - 0xF0) * 262144 + (b1 - 0x80) * 4096 + (b2 - 0x80) * 64 + (b3 - 0x80);
    var mid := (b0 - 0xF0) * 64 + (b1 - 0x80);
    var hi := mid * 64 + (b2 - 0x80);
    assert x == hi * 64 + (b3 - 0x80);
    Split64(hi, b3 - 0x80);
    Split64(mid, b2 - 0x80);
    Split64(b0 - 0xF0, b1 - 0x80);
    NestedDivisions(x);
  }

  lemma EncodeCharDecodeFirst(b: seq<byte>)
    requires |b| > 0 && DecodeFirst(b).Some?
    ensures EncodeChar(DecodeFirst(b).value.0) == b[..DecodeFirst(b).value.1]
  {
    var c := DecodeFirst(b).value.0;
    if b[0] < 0x80 {
      assert b[..1] == [b[0]];
    } else if b[0] < 0xE0 {
      TwoOctets(b[0] as int, b[1] as int);
      assert 0x80 <= c as int < 0x800;
      assert b[..2] == [b[0], b[1]];
    } else if b[0] < 0xF0 {
      ThreeOctets(b[0] as int, b[1] as int, b[2] as int);
      assert 0x800 <= c as int < 0x1_0000;
      assert b[..3] == [b[0], b[1], b[2]];
    } else {
      FourOctets(b[0] as int, b[1] as int, b[2] as int, b[3] as int);
      assert 0x1_0000 <= c as int;
      assert b[..4] == [b[0], b[1], b[2], b[3]];
    }
  }


  /** An accepted sequence is its first scalar value and the rest. */
  lemma DecodeCons(b: seq<byte>)
    requires b != [] && Decode(b).Some?
    ensures DecodeFirst(b).Some?
    ensures Decode(b[DecodeFirst(b).value.1..]).Some?
    ensures Decode(b).value == [DecodeFirst(b).value.0] + Decode(b[DecodeFirst(b).value.1..]).value
  {
  }

  /** Whatever the decoder accepts is exactly the UTF-8 form of what it
      returns: the encoding is one-to-one and every accepted octet sequence is
      in the canonical shortest form. */
  lemma {:induction false} EncodeDecode(b: seq<byte>)
    requires Decode(b).Some?
    ensures Encode(Decode(b).value) == b
    decreases |b|
  {
    if b != [] {
      DecodeCons(b);
      var (c, n) := DecodeFirst(b).value;
      EncodeCharDecodeFirst(b);
      EncodeDecode(b[n..]);
      var rest := Decode(b[n..]).value;
      assert Encode([c] + rest) == EncodeChar(c) + Encode(rest);
      assert b == b[..n] + b[n..];
    }
  }

  // ------------------------------------------------ TextDecoder

  /** U+FEFF, the byte order mark. */
  const Bom: char := '\U{FEFF}'

  /** Its UTF-8 form. */
  const BomOctets: seq<byte> := [0xEF, 0xBB, 0xBF]

  /** The text without one leading byte order mark. */
  function StripBom(s: string): (r: string)
    ensures s != [] && s[0] == Bom ==> [Bom] + r == s
    ensures (s == [] || s[0] != Bom) ==> r == s
  {
    if s != [] && s[0] == Bom then s[1..] else s
  }

  /** new TextDecoder().decode(b): a leading byte order mark is dropped (the
      decoder's default, ignoreBOM false), the rest read as UTF-8. */
  function TextDecode(b: seq<byte>): Option<string>
  {
    if |b| >= 3 && b[..3] == BomOctets then Decode(b[3..]) else Decode(b)
  }

  lemma EncodeBom()
    ensures EncodeChar(Bom) == BomOctets
  {
  }

  lemma DecodeFirstOfBom(b: seq<byte>)
    requires |b| >= 3 && b[..3] == BomOctets
    ensures DecodeFirst(b) == Some((Bom, 3))
  {
    assert b[0] == 0xEF && b[1] == 0xBB && b[2] == 0xBF;
  }

  /** What TextDecoder reads back from the UTF-8 form of a text is the text
      less one leading byte order mark. */
  lemma TextDecodeEncode(s: string)
    ensures TextDecode(Encode(s)) == Some(StripBom(s))
  {
    var b := Encode(s);
    if s != [] && s[0] == Bom {
      EncodeBom();
      assert b == BomOctets + Encode(s[1..]);
      assert b[..3] == BomOctets && b[3..] == Encode(s[1..]);
      DecodeEncode(s[1..]);
    } else {
      DecodeEncode(s);
      if |b| >= 3 && b[..3] == BomOctets {
        DecodeFirstOfBom(b);
        DecodeFirstEncodeChar(s[0], Encode(s[1..]));
        assert false;
      }
    }
  }

  /** Whatever TextDecoder accepts is the UTF-8 form of what it returns,
      with or without a byte order mark in front. */
  lemma TextDecodeInverse(b: seq<byte>)
    requires TextDecode(b).Some?
    ensures b == Encode(TextDecode(b).value) || b == BomOctets + Encode(TextDecode(b).value)
  {
    if |b| >= 3 && b[..3] == BomOctets {
      EncodeDecode(b[3..]);
      assert b == b[..3] + b[3..];
    } else {
      EncodeDecode(b);
    }
  }
}
