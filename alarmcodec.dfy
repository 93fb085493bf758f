/** Alarm names `notify-<token>-<hours>`: the token is the Base64 form of the
    UTF-8 octets of the task's key (background.js encodeBase64 and
    decodeBase64), and the onAlarm listener takes a name apart with
    /^notify-(.*)-(\d+)$/. */
module AlarmCodec {
  import opened Wrappers
  import opened Bytes
  import opened JsString
  import Utf8
  import Base64

  // ------------------------------------------------ binary strings

  /** A "binary string": one character per octet, all below U+0100. */
  predicate IsBinaryString(s: string) { forall i :: 0 <= i < |s| ==> s[i] as int < 256 }

  function BytesToBinary(b: seq<byte>): (s: string)
    ensures |s| == |b| && IsBinaryString(s)
    ensures forall i :: 0 <= i < |b| ==> s[i] as int == b[i]
  {
    seq(|b|, i requires 0 <= i < |b| => b[i] as char)
  }

  function BinaryToBytes(s: string): (b: seq<byte>)
    requires IsBinaryString(s)
    ensures |b| == |s| && BytesToBinary(b) == s
    ensures forall i :: 0 <= i < |s| ==> b[i] == s[i] as int
  {
    seq(|s|, i requires 0 <= i < |s| => s[i] as int)
  }

  /** btoa: None where it throws InvalidCharacterError. */
  function Btoa(s: string): (r: Option<string>)
    ensures r.Some? <==> IsBinaryString(s)
  {
    if IsBinaryString(s) then Some(Base64.Encode(BinaryToBytes(s))) else None
  }

  /** atob: None where it throws InvalidCharacterError. */
  function Atob(s: string): (r: Option<string>)
    ensures r.Some? ==> IsBinaryString(r.value)
  {
    match Base64.Decode(s)
    case None => None
    case Some(b) => Some(BytesToBinary(b))
  }

  // ------------------------------------------------ the key codec

  /** The token for a key. */
  function Token(key: string): string
  {
    Base64.Encode(Utf8.Encode(key))
  }

  /** The key for a token: None where atob throws or the octets are not
      well-formed UTF-8; a leading byte order mark is dropped, as TextDecoder
      does. */
  function KeyOf(token: string): Option<string>
  {
    match Atob(token)
    case None => None
    case Some(binary) => Utf8.TextDecode(BinaryToBytes(binary))
  }

  lemma BinaryRoundTrip(b: seq<byte>)
    ensures BinaryToBytes(BytesToBinary(b)) == b
  {
  }

  /** encodeBase64: the UTF-8 octets copied one by one into a binary string,
      which btoa then encodes. */
  method EncodeBase64(str: string) returns (token: string)
    ensures token == Token(str)
  {
    var bytes := Utf8.Encode(str);
    var binary := "";
    for i := 0 to |bytes|
      invariant binary == BytesToBinary(bytes[..i])
    {
      binary := binary + [bytes[i] as char];
    }
    assert bytes[..|bytes|] == bytes;
    BinaryRoundTrip(bytes);
    var encoded := Btoa(binary);
    token := encoded.value;
  }

  /** decodeBase64: atob, the characters copied into a Uint8Array, then
      TextDecoder. None where atob throws or the octets are malformed. */
  method DecodeBase64(token: string) returns (key: Option<string>)
    ensures key == KeyOf(token)
  {
    var binary := Atob(token);
    if binary.None? {
      return None;
    }
    var s := binary.value;
    var bytes := new byte[|s|];
    for i := 0 to |s|
      invariant forall k :: 0 <= k < i ==> bytes[k] == s[k] as int
    {
      bytes[i] := s[i] as int;
    }
    assert bytes[..] == BinaryToBytes(s);
    key := Utf8.TextDecode(bytes[..]);
  }

  /** Every key, Unicode text included, survives the trip through a token,
      except for one leading byte order mark, which TextDecoder drops. */
  lemma KeyOfToken(key: string)
    ensures KeyOf(Token(key)) == Some(Utf8.StripBom(key))
    ensures key == [] || key[0] != Utf8.Bom ==> KeyOf(Token(key)) == Some(key)
  {
    Base64.DecodeEncode(Utf8.Encode(key));
    BinaryRoundTrip(Utf8.Encode(key));
    Utf8.TextDecodeEncode(key);
  }

  /** The loss: a key and the same key behind a byte order mark have
      different tokens but read back as the same key. */
  lemma KeyOfTokenDropsBom(key: string)
    ensures Token([Utf8.Bom] + key) != Token(key)
    ensures KeyOf(Token([Utf8.Bom] + key)) == Some(key)
  {
    KeyOfToken([Utf8.Bom] + key);
    assert ([Utf8.Bom] + key)[1..] == key;
    if Token([Utf8.Bom] + key) == Token(key) {
      TokenInjective([Utf8.Bom] + key, key);
      assert false;
    }
  }

  /** A token is made of A-Z, a-z, 0-9, '+', '/' and '=' only: no '-' and no
      line terminator. */
  lemma TokenAlphabet(key: string)
    ensures forall i :: 0 <= i < |Token(key)| ==> Base64.IsAlphabetChar(Token(key)[i]) || Token(key)[i] == '='
    ensures '-' !in Token(key)
    ensures forall i :: 0 <= i < |Token(key)| ==> !IsLineTerminator(Token(key)[i])
  {
    Base64.EncodeShape(Utf8.Encode(key));
  }

  /** Two keys with the same token are the same key. */
  lemma TokenInjective(k1: string, k2: string)
    requires Token(k1) == Token(k2)
    ensures k1 == k2
  {
    // The octets, not the TextDecoder result, determine the key.
    var b1, b2 := Utf8.Encode(k1), Utf8.Encode(k2);
    Base64.DecodeEncode(b1);
    Base64.DecodeEncode(b2);
    assert b1 == b2;
    Utf8.DecodeEncode(k1);
    Utf8.DecodeEncode(k2);
  }

  // ------------------------------------------------ alarm names

  const NotifyPrefix: string := "notify-"

  /** `notify-${encodeBase64(alarmKey)}-${hours}` */
  function AlarmName(key: string, hours: nat): string
  {
    NotifyPrefix + Token(key) + "-" + NatToString(hours)
  }

  /** What /^notify-(.*)-(\d+)$/ demands of its two groups: `.` matches no
      line terminator and `\d+` is one or more decimal digits. */
  predicate GroupsOk(token: string, digits: string)
  {
    && (forall i :: 0 <= i < |token| ==> !IsLineTerminator(token[i]))
    && |digits| >= 1 && AllDigits(digits)
  }

  /** The regular expression accepts name with these two groups. */
  predicate NameMatch(name: string, token: string, digits: string)
  {
    name == NotifyPrefix + token + "-" + digits && GroupsOk(token, digits)
  }

  /** The parts of s before and after its last '-'. */
  function SplitAtLastDash(s: string): (r: Option<(string, string)>)
    ensures r.Some? ==> s == r.value.0 + "-" + r.value.1 && '-' !in r.value.1
  {
    match LastIndex(s, '-')
    case None => None
    case Some(k) =>
      assert s == s[..k] + "-" + s[k + 1..];
      Some((s[..k], s[k + 1..]))
  }

  /** name.match(/^notify-(.*)-(\d+)$/): the two groups, or None for null.
      The digits follow the last '-', so the groups are unique. */
  function MatchAlarmName(name: string): (r: Option<(string, string)>)
    ensures r.Some? ==> NameMatch(name, r.value.0, r.value.1)
  {
    if !(NotifyPrefix <= name) then None
    else
      assert name == NotifyPrefix + name[|NotifyPrefix|..];
      match SplitAtLastDash(name[|NotifyPrefix|..])
      case None => None
      case Some((token, digits)) => if GroupsOk(token, digits) then Some((token, digits)) else None
  }

  lemma SplitAtLastDashOf(token: string, digits: string)
    requires '-' !in digits
    ensures SplitAtLastDash(token + "-" + digits) == Some((token, digits))
  {
    var rest := token + "-" + digits;
    assert rest[|token|] == '-';
    assert rest[|token| + 1..] == digits;
    assert rest[..|token|] == token;
  }

  /** A name the regular expression accepts with groups token and digits is
      taken apart into exactly those groups: with the ensures of
      MatchAlarmName, the match succeeds if and only if such groups exist. */
  lemma MatchAlarmNameComplete(name: string, token: string, digits: string)
    requires NameMatch(name, token, digits)
    ensures MatchAlarmName(name) == Some((token, digits))
  {
    assert name == NotifyPrefix + (token + "-" + digits);
    assert name[|NotifyPrefix|..] == token + "-" + digits;
    assert forall i :: 0 <= i < |digits| ==> digits[i] != '-';
    SplitAtLastDashOf(token, digits);
  }

  /** The name built for a key and an offset is taken apart into exactly the
      key's token and the offset's digits. */
  lemma MatchAlarmNameOfAlarmName(key: string, hours: nat)
    ensures MatchAlarmName(AlarmName(key, hours)) == Some((Token(key), NatToString(hours)))
  {
    TokenAlphabet(key);
    NatToStringIsDigits(hours);
    MatchAlarmNameComplete(AlarmName(key, hours), Token(key), NatToString(hours));
  }
}
