/** Reading the text of a Gmail message (background.js findBody and
    getMailBody): the first non-empty body in the MIME part tree, in
    base64url, turned back into the standard alphabet, decoded by atob and
    read as UTF-8. The HTTP request is left out: its outcome is a parameter. */
module Mime {
  import opened Wrappers
  import opened Bytes
  import Base64
  import Utf8
  import AlarmCodec

  /** A MIME part of the Gmail API: body.data ("" when absent or empty) and
      its sub-parts. */
  datatype Part = Part(data: string, parts: seq<Part>)

  // ---------------------------------------------------------------- findBody

  /** findBody(part): the data of the first part, the part itself before its
      sub-parts and those left to right, whose data is non-empty. */
  function FindBody(part: Part): (r: Option<string>)
    ensures r.Some? ==> r.value != ""
    decreases part, 1
  {
    if part.data != "" then Some(part.data) else FindIn(part.parts)
  }

  /** for (const p of part.parts) { ... if (found) return found; } */
  function FindIn(parts: seq<Part>): (r: Option<string>)
    ensures r.Some? ==> r.value != ""
    decreases parts, 0
  {
    if parts == [] then None
    else
      match FindBody(parts[0])
      case Some(d) => Some(d)
      case None => FindIn(parts[1..])
  }

  /** The data of every part, in pre-order. */
  function PreOrder(part: Part): seq<string>
    decreases part, 1
  {
    [part.data] + PreOrderAll(part.parts)
  }

  function PreOrderAll(parts: seq<Part>): seq<string>
    decreases parts, 0
  {
    if parts == [] then [] else PreOrder(parts[0]) + PreOrderAll(parts[1..])
  }

  /** The first non-empty string of a list. */
  function FirstNonEmpty(ss: seq<string>): (r: Option<string>)
    ensures r.Some? ==> r.value in ss && r.value != ""
    ensures r.None? <==> forall k :: 0 <= k < |ss| ==> ss[k] == ""
  {
    if ss == [] then None else if ss[0] != "" then Some(ss[0]) else FirstNonEmpty(ss[1..])
  }

  lemma {:induction false} FirstNonEmptyAppend(a: seq<string>, b: seq<string>)
    ensures FirstNonEmpty(a + b) == if FirstNonEmpty(a).Some? then FirstNonEmpty(a) else FirstNonEmpty(b)
    decreases |a|
  {
    if a == [] {
      assert a + b == b;
    } else {
      FirstNonEmptyAppend(a[1..], b);
      assert (a + b)[0] == a[0] && (a + b)[1..] == a[1..] + b;
    }
  }

  /** findBody is the first non-empty body in pre-order, and None when no
      part of the tree has one. */
  lemma {:induction false} FindBodyPreOrder(part: Part)
    ensures FindBody(part) == FirstNonEmpty(PreOrder(part))
    decreases part, 1
  {
    FindInPreOrder(part.parts);
    assert PreOrder(part)[1..] == PreOrderAll(part.parts);
  }

  lemma {:induction false} FindInPreOrder(parts: seq<Part>)
    ensures FindIn(parts) == FirstNonEmpty(PreOrderAll(parts))
    decreases parts, 0
  {
    if parts != [] {
      FindBodyPreOrder(parts[0]);
      FindInPreOrder(parts[1..]);
      FirstNonEmptyAppend(PreOrder(parts[0]), PreOrderAll(parts[1..]));
    }
  }

  // ---------------------------------------------------------------- base64url

  /** The "URL and filename safe" alphabet of section 5 of RFC 4648 replaces
      '+' and '/' by '-' and '_'. */
  function StandardToUrl(s: string): (r: string)
    ensures |r| == |s|
    ensures forall i :: 0 <= i < |s| ==> r[i] == if s[i] == '+' then '-' else if s[i] == '/' then '_' else s[i]
  {
    if s == [] then [] else [if s[0] == '+' then '-' else if s[0] == '/' then '_' else s[0]] + StandardToUrl(s[1..])
  }

  /** encoded.replace(/-/g, "+").replace(/_/g, "/") */
  function UrlToStandard(s: string): (r: string)
    ensures |r| == |s|
    ensures forall i :: 0 <= i < |s| ==> r[i] == if s[i] == '-' then '+' else if s[i] == '_' then '/' else s[i]
  {
    if s == [] then [] else [if s[0] == '-' then '+' else if s[0] == '_' then '/' else s[0]] + UrlToStandard(s[1..])
  }

  /** Mapping the URL-safe alphabet back undoes the mapping on any string
      that has neither '-' nor '_', which covers every standard encoding. */
  lemma UrlToStandardOfStandardToUrl(s: string)
    requires '-' !in s && '_' !in s
    ensures UrlToStandard(StandardToUrl(s)) == s
  {
    var r := UrlToStandard(StandardToUrl(s));
    forall i | 0 <= i < |s|
      ensures r[i] == s[i]
    {
      assert s[i] != '-' && s[i] != '_';
    }
  }

  /** The base64url body Gmail sends for some octets, with or without '='. */
  function EncodeUrl(b: seq<byte>, padded: bool): string
  {
    StandardToUrl(if padded then Base64.Encode(b) else Base64.EncodeUnpadded(b))
  }

  // ---------------------------------------------------------------- getMailBody

  /** How reading a message body fails: the HTTP status of a failed request,
      atob throwing, or octets that are not UTF-8. */
  datatype MailError = HttpError(status: int) | InvalidBase64 | InvalidUtf8

  /** The decoding tail of getMailBody for the body data of a message. */
  function DecodeBody(encoded: string): (r: Result<string, MailError>)
    ensures r.Err? ==> !r.error.HttpError?
  {
    match AlarmCodec.Atob(UrlToStandard(encoded))
    case None => Err(InvalidBase64)
    case Some(binary) =>
      match Utf8.TextDecode(AlarmCodec.BinaryToBytes(binary))
      case None => Err(InvalidUtf8)
      case Some(text) => Ok(text)
  }

  /** getMailBody: `response` is the outcome of the request, the payload of a
      message or the status of a failure. A message with no body gives "". */
  function GetMailBody(response: Result<Option<Part>, int>): (r: Result<string, MailError>)
    ensures response.Err? ==> r == Err(HttpError(response.error))
    ensures r.Err? && r.error.HttpError? ==> response.Err?
    ensures response.Ok? && (response.value.None? || FindBody(response.value.value).None?) ==> r == Ok("")
  {
    match response
    case Err(status) => Err(HttpError(status))
    case Ok(payload) =>
      match payload
      case None => Ok("")
      case Some(p) =>
        match FindBody(p)
        case None => Ok("")
        case Some(encoded) => DecodeBody(encoded)
  }

  /** The base64url form of some octets, padded or not, reads back as the
      standard form they were encoded to, which atob decodes to the octets. */
  lemma {:induction false} AtobOfEncodeUrl(b: seq<byte>, padded: bool)
    ensures AlarmCodec.Atob(UrlToStandard(EncodeUrl(b, padded))) == Some(AlarmCodec.BytesToBinary(b))
  {
    var e := if padded then Base64.Encode(b) else Base64.EncodeUnpadded(b);
    Base64.EncodeShape(b);
    assert '-' !in e && '_' !in e by {
      forall i | 0 <= i < |e| ensures e[i] != '-' && e[i] != '_' {
        assert Base64.IsAlphabetChar(e[i]) || e[i] == '=';
      }
    }
    UrlToStandardOfStandardToUrl(e);
    if padded {
      Base64.DecodeEncode(b);
    } else {
      Base64.DecodeEncodeWithoutPadding(b);
    }
  }

  /** A text sent as base64url of its UTF-8 octets, padded or not, is read
      back exactly, less a leading byte order mark, which TextDecoder drops. */
  lemma DecodeBodyOfEncodeUrl(text: string, padded: bool)
    ensures DecodeBody(EncodeUrl(Utf8.Encode(text), padded)) == Ok(Utf8.StripBom(text))
    ensures text == [] || text[0] != Utf8.Bom ==> DecodeBody(EncodeUrl(Utf8.Encode(text), padded)) == Ok(text)
  {
    var b := Utf8.Encode(text);
    AtobOfEncodeUrl(b, padded);
    AlarmCodec.BinaryRoundTrip(b);
    Utf8.TextDecodeEncode(text);
  }

  /** A message whose first non-empty body in pre-order is such an encoding
      is read as that text, less a leading byte order mark. */
  lemma GetMailBodyOfMessage(payload: Part, text: string, padded: bool)
    requires FirstNonEmpty(PreOrder(payload)) == Some(EncodeUrl(Utf8.Encode(text), padded))
    ensures GetMailBody(Ok(Some(payload))) == Ok(Utf8.StripBom(text))
    ensures text == [] || text[0] != Utf8.Bom ==> GetMailBody(Ok(Some(payload))) == Ok(text)
  {
    FindBodyPreOrder(payload);
    DecodeBodyOfEncodeUrl(text, padded);
  }
}
