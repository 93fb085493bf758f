/** Base64 with the standard alphabet (RFC 4648, section 4) as btoa writes
    it, and the forgiving decoder atob uses (HTML Living Standard,
    "forgiving-base64 decode"): ASCII white space is dropped, the padding is
    optional, and the bits left over after the last whole octet are ignored. */
module Base64 {
  import opened Wrappers
  import opened Bytes

  /** Table 1 of RFC 4648: the character for a 6-bit value. */
  function CharOf(v: nat): (c: char)
    requires v < 64
  {
    if v < 26 then ('A' as int + v) as char
    else if v < 52 then ('a' as int + (v - 26)) as char
    else if v < 62 then ('0' as int + (v - 52)) as char
    else if v == 62 then '+'
    else '/'
  }

  /** The 6-bit value of an alphabet character, None for any other character. */
  function ValueOf(c: char): (r: Option<nat>)
    ensures r.Some? ==> r.value < 64
  {
    if 'A' <= c <= 'Z' then Some(c as int - 'A' as int)
    else if 'a' <= c <= 'z' then Some(c as int - 'a' as int + 26)
    else if '0' <= c <= '9' then Some(c as int - '0' as int + 52)
    else if c == '+' then Some(62)
    else if c == '/' then Some(63)
    else None
  }

  predicate IsAlphabetChar(c: char) { ValueOf(c).Some? }

  predicate AllAlphabet(s: string) { forall i :: 0 <= i < |s| ==> IsAlphabetChar(s[i]) }

  lemma ValueOfCharOf(v: nat)
    requires v < 64
    ensures ValueOf(CharOf(v)) == Some(v)
  {
  }

  // ------------------------------------------------------------- encoding

  /** The characters for the first n of three octets (RFC 4648, section 4):
      four for a full quantum, three for two octets, two for one octet, the
      missing low bits taken as zero. */
  function EncodeQuantum(b0: byte, b1: byte, b2: byte, n: nat): (s: string)
    requires 1 <= n <= 3
    ensures |s| == n + 1 && AllAlphabet(s)
  {
    var c0 := CharOf(b0 / 4);
    if n == 1 then [c0, CharOf(b0 % 4 * 16)]
    else
      var c1 := CharOf(b0 % 4 * 16 + b1 / 16);
      if n == 2 then [c0, c1, CharOf(b1 % 16 * 4)]
      else [c0, c1, CharOf(b1 % 16 * 4 + b2 / 64), CharOf(b2 % 64)]
  }

  /** The characters for b without the trailing '=' padding. */
  function EncodeUnpadded(b: seq<byte>): (s: string)
    ensures AllAlphabet(s)
    decreases |b|
  {
    if |b| == 0 then []
    else if |b| == 1 then EncodeQuantum(b[0], 0, 0, 1)
    else if |b| == 2 then EncodeQuantum(b[0], b[1], 0, 2)
    else EncodeQuantum(b[0], b[1], b[2], 3) + EncodeUnpadded(b[3..])
  }

  function Padding(n: nat): (s: string)
  {
    if n % 3 == 1 then "==" else if n % 3 == 2 then "=" else ""
  }

  /** btoa: the padded encoding of section 4 of RFC 4648. */
  function Encode(b: seq<byte>): (s: string)
  {
    EncodeUnpadded(b) + Padding(|b|)
  }

  /** An encoding is four characters for every three octets or part of
      three, uses only A-Z, a-z, 0-9, '+', '/' and '=', and has '=' only in
      its last two places. */
  lemma EncodeShape(b: seq<byte>)
    ensures |Encode(b)| % 4 == 0
    ensures |Encode(b)| == 4 * ((|b| + 2) / 3)
    ensures forall i :: 0 <= i < |Encode(b)| ==> IsAlphabetChar(Encode(b)[i]) || Encode(b)[i] == '='
    ensures forall i :: 0 <= i < |Encode(b)| && Encode(b)[i] == '=' ==> i >= |Encode(b)| - 2
    ensures '=' in Encode(b) ==> |b| % 3 != 0
  {
    var u := EncodeUnpadded(b);
    EncodeUnpaddedLength(b);
    PaddedLength(|b|);
    assert !IsAlphabetChar('=');
    forall i | 0 <= i < |Encode(b)|
      ensures IsAlphabetChar(Encode(b)[i]) || Encode(b)[i] == '='
      ensures Encode(b)[i] == '=' ==> i >= |Encode(b)| - 2
    {
      if i < |u| { assert Encode(b)[i] == u[i]; }
    }
    if |b| % 3 == 0 {
      assert Encode(b) == u && !IsAlphabetChar('=');
    }
  }

  // ------------------------------------------------------------- decoding

  /** ASCII white space as the HTML standard defines it. */
  predicate IsAsciiWhitespace(c: char) {
    c == '\t' || c == '\n' || c == '\U{000C}' || c == '\r' || c == ' '
  }

  function RemoveAsciiWhitespace(s: string): (r: string)
    ensures forall i :: 0 <= i < |r| ==> !IsAsciiWhitespace(r[i])
    ensures (forall i :: 0 <= i < |s| ==> !IsAsciiWhitespace(s[i])) ==> r == s
  {
    if s == [] then []
    else (if IsAsciiWhitespace(s[0]) then [] else [s[0]]) + RemoveAsciiWhitespace(s[1..])
  }

  /** Step 2 of forgiving-base64 decode: when the length is a multiple of four,
      drop one or two trailing '='. */
  function StripPadding(t: string): (r: string)
  {
    if |t| % 4 == 0 && |t| >= 2 && t[|t| - 2..] == "==" then t[..|t| - 2]
    else if |t| % 4 == 0 && |t| >= 1 && t[|t| - 1] == '=' then t[..|t| - 1]
    else t
  }

  /** The octets of two to four alphabet characters; the bits that do not
      fill a whole octet are discarded. */
  function DecodeQuantum(g: string): (b: seq<byte>)
    requires 2 <= |g| <= 4 && AllAlphabet(g)
    ensures |b| == |g| - 1
  {
    var v0, v1 := ValueOf(g[0]).value, ValueOf(g[1]).value;
    if |g| == 2 then [v0 * 4 + v1 / 16]
    else
      var v2 := ValueOf(g[2]).value;
      if |g| == 3 then [v0 * 4 + v1 / 16, v1 % 16 * 16 + v2 / 4]
      else [v0 * 4 + v1 / 16, v1 % 16 * 16 + v2 / 4, v2 % 4 * 64 + ValueOf(g[3]).value]
  }

  /** The octets of an unpadded run of alphabet characters. */
  function DecodeUnpadded(t: string): (b: seq<byte>)
    requires AllAlphabet(t) && |t| % 4 != 1
    decreases |t|
  {
    if |t| == 0 then []
    else if |t| < 4 then DecodeQuantum(t)
    else DecodeQuantum(t[..4]) + DecodeUnpadded(t[4..])
  }

  /** atob: None where atob throws InvalidCharacterError. */
  function Decode(s: string): (r: Option<seq<byte>>)
  {
    var t := StripPadding(RemoveAsciiWhitespace(s));
    if |t| % 4 == 1 || !AllAlphabet(t) then None else Some(DecodeUnpadded(t))
  }

  // ---------------------------------------------------------- round trips

  lemma {:induction false} EncodeUnpaddedLength(b: seq<byte>)
    ensures |EncodeUnpadded(b)| == 4 * (|b| / 3) + (if |b| % 3 == 0 then 0 else |b| % 3 + 1)
    ensures |EncodeUnpadded(b)| % 4 == (if |b| % 3 == 0 then 0 else |b| % 3 + 1)
    ensures |b| % 3 != 0 ==> |EncodeUnpadded(b)| > 0
    ensures (|EncodeUnpadded(b)| + |Padding(|b|)|) % 4 == 0
    decreases |b|
  {
    if |b| >= 3 {
      EncodeUnpaddedLength(b[3..]);
      assert |EncodeUnpadded(b)| == 4 + |EncodeUnpadded(b[3..])|;
      LengthStep(|b|, |EncodeUnpadded(b[3..])|);
    }
  }

  /** One quantum more: three octets more give four characters more. */
  lemma LengthStep(n: nat, l: nat)
    requires n >= 3
    requires l == 4 * ((n - 3) / 3) + (if (n - 3) % 3 == 0 then 0 else (n - 3) % 3 + 1)
    requires l % 4 == (if (n - 3) % 3 == 0 then 0 else (n - 3) % 3 + 1)
    requires (l + |Padding(n - 3)|) % 4 == 0
    ensures (4 + l) % 4 == (if n % 3 == 0 then 0 else n % 3 + 1)
    ensures (4 + l + |Padding(n)|) % 4 == 0
    ensures 4 + l == 4 * (n / 3) + (if n % 3 == 0 then 0 else n % 3 + 1)
  {
    assert (n - 3) % 3 == n % 3;
    assert (n - 3) / 3 + 1 == n / 3;
  }

  /** The padded length: the unpadded characters and the '=' signs fill
      (n + 2) / 3 quanta. */
  lemma PaddedLength(n: nat)
    ensures 4 * (n / 3) + (if n % 3 == 0 then 0 else n % 3 + 1) + |Padding(n)| == 4 * ((n + 2) / 3)
    ensures |Padding(n)| <= 2
  {
    if n % 3 == 0 {
      assert (n + 2) / 3 == n / 3;
    } else {
      assert (n + 2) / 3 == n / 3 + 1;
    }
  }

  /** The arithmetic of one quantum: the 6-bit values of three octets give the
      octets back. */
  lemma QuantumArithmetic(b0: byte, b1: byte, b2: byte)
    ensures b0 / 4 * 4 + (b0 % 4 * 16 + b1 / 16) / 16 == b0
    ensures (b0 % 4 * 16 + b1 / 16) % 16 * 16 + (b1 % 16 * 4 + b2 / 64) / 4 == b1
    ensures (b1 % 16 * 4 + b2 / 64) % 4 * 64 + b2 % 64 == b2
  {
  }

  lemma DecodeEncodeQuantum(b0: byte, b1: byte, b2: byte, n: nat)
    requires 1 <= n <= 3
    ensures DecodeQuantum(EncodeQuantum(b0, b1, b2, n)) == [b0, b1, b2][..n]
  {
    ValueOfCharOf(b0 / 4);
    if n == 1 {
      QuantumArithmetic(b0, 0, 0);
      ValueOfCharOf(b0 % 4 * 16);
    } else if n == 2 {
      QuantumArithmetic(b0, b1, 0);
      ValueOfCharOf(b0 % 4 * 16 + b1 / 16);
      ValueOfCharOf(b1 % 16 * 4);
    } else {
      QuantumArithmetic(b0, b1, b2);
      ValueOfCharOf(b0 % 4 * 16 + b1 / 16);
      ValueOfCharOf(b1 % 16 * 4 + b2 / 64);
      ValueOfCharOf(b2 % 64);
    }
  }

  lemma {:induction false} DecodeEncodeUnpadded(b: seq<byte>)
    ensures |EncodeUnpadded(b)| % 4 != 1
    ensures DecodeUnpadded(EncodeUnpadded(b)) == b
    decreases |b|
  {
    EncodeUnpaddedLength(b);
    var t := EncodeUnpadded(b);
    if |b| == 1 {
      DecodeEncodeQuantum(b[0], 0, 0, 1);
    } else if |b| == 2 {
      DecodeEncodeQuantum(b[0], b[1], 0, 2);
    } else if |b| >= 3 {
      var g := EncodeQuantum(b[0], b[1], b[2], 3);
      DecodeEncodeQuantum(b[0], b[1], b[2], 3);
      DecodeEncodeUnpadded(b[3..]);
      assert t[..4] == g && t[4..] == EncodeUnpadded(b[3..]);
      assert b == b[..3] + b[3..];
    }
  }

  lemma StripPaddingOfPadded(u: string, p: string)
    requires AllAlphabet(u) && (p == "" || p == "=" || p == "==")
    requires (|u| + |p|) % 4 == 0 && (p != "" ==> |u| > 0)
    ensures StripPadding(u + p) == u
  {
    var e := u + p;
    assert !IsAlphabetChar('=');
    if p == "==" {
      assert e[|e| - 2..] == p;
      assert e[..|e| - 2] == u;
    } else if p == "=" {
      assert e[|e| - 2] == u[|u| - 1];
      assert e[..|e| - 1] == u;
    } else if |u| > 0 {
      assert e == u && IsAlphabetChar(e[|e| - 1]);
    }
  }

  lemma StripPaddingOfEncode(b: seq<byte>)
    ensures StripPadding(Encode(b)) == EncodeUnpadded(b)
  {
    EncodeUnpaddedLength(b);
    StripPaddingOfPadded(EncodeUnpadded(b), Padding(|b|));
  }

  /** atob(btoa(x)) == x: decoding an encoding gives back the octets. */
  lemma DecodeEncode(b: seq<byte>)
    ensures Decode(Encode(b)) == Some(b)
  {
    EncodeShape(b);
    var e := Encode(b);
    assert RemoveAsciiWhitespace(e) == e;
    StripPaddingOfEncode(b);
    DecodeEncodeUnpadded(b);
  }

  /** atob also accepts an encoding whose padding has been left off. */
  lemma RemoveAsciiWhitespaceOfAlphabet(u: string)
    requires AllAlphabet(u)
    ensures RemoveAsciiWhitespace(u) == u
  {
    forall i | 0 <= i < |u|
      ensures !IsAsciiWhitespace(u[i])
    {
      assert IsAlphabetChar(u[i]);
    }
  }

  lemma DecodeEncodeWithoutPadding(b: seq<byte>)
    ensures Decode(EncodeUnpadded(b)) == Some(b)
  {
    var u := EncodeUnpadded(b);
    RemoveAsciiWhitespaceOfAlphabet(u);
    DecodeEncodeUnpadded(b);
    if |u| % 4 == 0 {
      StripPaddingOfPadded(u, "");
      assert u + "" == u;
    }
    assert StripPadding(u) == u;
  }
}
