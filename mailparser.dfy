/** The notification-mail parser (background.js parseBeefMail). Its regular
    expressions all have the shape P(.+)S for literal text P and S, which is
    modelled once as Capture. */
module MailParser {
  import opened Wrappers
  import opened JsString
  import opened Model

  // ------------------------------------------------------ P(.+)S matching

  /** P(.+)S matches s at i with the group s[i + |P|..e]: P at i, at least
      one character none of which is a line terminator, then S at e. */
  predicate CaptureAt(s: string, p: string, q: string, i: int, e: int)
  {
    && 0 <= i && i + |p| < e && e + |q| <= |s|
    && p <= s[i..] && q <= s[e..]
    && (forall k :: i + |p| <= k < e ==> !IsLineTerminator(s[k]))
  }

  /** The match String.prototype.match reports: the leftmost start i, and
      for it the longest group, since `.+` is greedy. */
  ghost predicate LeftmostLongest(s: string, p: string, q: string, i: int, e: int)
  {
    && CaptureAt(s, p, q, i, e)
    && (forall i', e' :: 0 <= i' < i ==> !CaptureAt(s, p, q, i', e'))
    && (forall e' :: CaptureAt(s, p, q, i, e') ==> e' <= e)
  }

  /** The first line terminator at or after k, or |s|. */
  function LineEnd(s: string, k: nat): (r: nat)
    requires k <= |s|
    ensures k <= r <= |s|
    ensures forall j :: k <= j < r ==> !IsLineTerminator(s[j])
    ensures r < |s| ==> IsLineTerminator(s[r])
    decreases |s| - k
  {
    if k == |s| || IsLineTerminator(s[k]) then k else LineEnd(s, k + 1)
  }

  /** The largest e with lo < e <= hi where q occurs. */
  function LastOccurrence(s: string, q: string, lo: nat, hi: nat): (r: Option<nat>)
    requires hi <= |s|
    ensures r.Some? ==> lo < r.value <= hi && q <= s[r.value..]
    ensures r.Some? ==> forall e :: r.value < e <= hi ==> !(q <= s[e..])
    ensures r.None? ==> forall e :: lo < e <= hi ==> !(q <= s[e..])
    decreases hi
  {
    if hi <= lo then None
    else if q <= s[hi..] then Some(hi)
    else LastOccurrence(s, q, lo, hi - 1)
  }

  /** The end of the longest group of a match starting at i, if any. */
  function LongestAt(s: string, p: string, q: string, i: nat): (r: Option<nat>)
    requires i <= |s|
    ensures r.Some? ==> CaptureAt(s, p, q, i, r.value)
    ensures r.Some? ==> forall e :: CaptureAt(s, p, q, i, e) ==> e <= r.value
    ensures r.None? ==> forall e :: !CaptureAt(s, p, q, i, e)
  {
    if !(p <= s[i..]) then None
    else
      var start := i + |p|;
      var stop := LineEnd(s, start);
      match LastOccurrence(s, q, start, stop)
      case None => None
      case Some(e) =>
        if e + |q| <= |s| then Some(e) else None
  }

  /** The leftmost match starting at or after i. */
  function SearchFrom(s: string, p: string, q: string, i: nat): (r: Option<(nat, nat)>)
    requires i <= |s|
    ensures r.Some? ==> i <= r.value.0 && CaptureAt(s, p, q, r.value.0, r.value.1)
    ensures r.Some? ==> forall e :: CaptureAt(s, p, q, r.value.0, e) ==> e <= r.value.1
    ensures r.Some? ==> forall i', e' :: i <= i' < r.value.0 ==> !CaptureAt(s, p, q, i', e')
    ensures r.None? ==> forall i', e' :: i <= i' ==> !CaptureAt(s, p, q, i', e')
    decreases |s| - i
  {
    match LongestAt(s, p, q, i)
    case Some(e) => Some((i, e))
    case None =>
      if i == |s| then None
      else
        var r := SearchFrom(s, p, q, i + 1);
        assert forall e' :: !CaptureAt(s, p, q, i, e');
        r
  }

  /** s.match(/P(.+)S/): the group of the reported match, None for null. */
  function Capture(s: string, p: string, q: string): (r: Option<string>)
  {
    match SearchFrom(s, p, q, 0)
    case None => None
    case Some((i, e)) => Some(s[i + |p|..e])
  }

  /** The group Capture reports is that of the leftmost-longest match, and
      there is one whenever P(.+)S matches anywhere. */
  lemma {:induction false} CaptureCorrect(s: string, p: string, q: string)
    ensures Capture(s, p, q).Some? ==> exists i, e :: LeftmostLongest(s, p, q, i, e) && Capture(s, p, q).value == s[i + |p|..e]
    ensures Capture(s, p, q).None? <==> forall i, e :: !CaptureAt(s, p, q, i, e)
  {
    match SearchFrom(s, p, q, 0)
    case None =>
    case Some((i, e)) =>
      assert LeftmostLongest(s, p, q, i, e);
  }

  /** A group never holds a line terminator. */
  lemma CaptureOnOneLine(s: string, p: string, q: string)
    ensures Capture(s, p, q).Some? ==>
      |Capture(s, p, q).value| >= 1 && forall k :: 0 <= k < |Capture(s, p, q).value| ==> !IsLineTerminator(Capture(s, p, q).value[k])
  {
    match SearchFrom(s, p, q, 0)
    case None =>
    case Some((i, e)) =>
      var c := s[i + |p|..e];
      forall k | 0 <= k < |c|
        ensures !IsLineTerminator(c[k])
      {
        assert c[k] == s[i + |p| + k];
      }
  }

  // ------------------------------------------------------ parseBeefMail

  const CourseLabel: string := "授業名："
  const UnknownCourse: string := "情報なし"
  const UpdatesMarker: string := "更新内容："
  const Bullet: char := '・'

  /** One of the four line patterns: the text around the group, the event
      kind and the category of a notification. */
  datatype LinePattern = LinePattern(before: string, after: string, kind: EventKind, category: Option<string>)

  /** The patterns in the order the source tries them. */
  const Patterns: seq<LinePattern> := [
    LinePattern("課題(", ")が追加されました", TaskAdded, None),
    LinePattern("課題(", ")を提出しました", TaskSubmitted, None),
    LinePattern("アンケート(", ")が追加されました", Notification, Some("アンケート")),
    LinePattern("資料(", ")が追加されました", Notification, Some("資料"))
  ]

  /** The course: the trimmed group of /授業名：(.+)\n/, or 情報なし. */
  function CourseOf(text: string): string
  {
    match Capture(text, CourseLabel, "\n")
    case None => UnknownCourse
    case Some(c) => Trim(c)
  }

  /** The lines from the marker onward that contain '・'; None when the
      marker is missing. */
  function UpdateLines(text: string): (r: Option<seq<string>>)
    ensures r.Some? ==> forall k :: 0 <= k < |r.value| ==> Bullet in r.value[k] && '\n' !in r.value[k]
  {
    match IndexOf(text, UpdatesMarker)
    case None => None
    case Some(k) => Some(WithBullet(Split(text[k..], '\n')))
  }

  /** lines.filter(v => v.includes("・")) */
  function WithBullet(lines: seq<string>): (r: seq<string>)
    requires forall k :: 0 <= k < |lines| ==> '\n' !in lines[k]
    ensures forall k :: 0 <= k < |r| ==> Bullet in r[k] && '\n' !in r[k]
    ensures forall l :: l in r <==> l in lines && Bullet in l
  {
    if lines == [] then []
    else (if Bullet in lines[0] then [lines[0]] else []) + WithBullet(lines[1..])
  }

  /** The events of the patterns in `patterns` that match the line, in order. */
  function PatternEvents(line: string, course: string, patterns: seq<LinePattern>): (r: seq<MailEvent>)
    ensures |r| <= |patterns|
    ensures forall k :: 0 <= k < |r| ==> r[k].course == course
  {
    if patterns == [] then []
    else
      var pat := patterns[0];
      (match Capture(line, pat.before, pat.after)
       case None => []
       case Some(title) => [MailEvent(pat.kind, title, course, pat.category)])
      + PatternEvents(line, course, patterns[1..])
  }

  /** The events of one line: every pattern is tried, none stops the others. */
  function LineEvents(line: string, course: string): (r: seq<MailEvent>)
  {
    PatternEvents(line, course, Patterns)
  }

  function AllLineEvents(lines: seq<string>, course: string): seq<MailEvent>
  {
    if lines == [] then [] else LineEvents(lines[0], course) + AllLineEvents(lines[1..], course)
  }

  /** parseBeefMail(text). */
  function ParseBeefMail(text: string): (r: seq<MailEvent>)
  {
    match UpdateLines(text)
    case None => []
    case Some(lines) => AllLineEvents(lines, CourseOf(text))
  }

  // ------------------------------------------------------ properties

  lemma {:induction false} PatternEventsMember(line: string, course: string, patterns: seq<LinePattern>, ev: MailEvent)
    ensures ev in PatternEvents(line, course, patterns) <==>
      exists pat :: pat in patterns && Capture(line, pat.before, pat.after) == Some(ev.title)
        && ev == MailEvent(pat.kind, ev.title, course, pat.category)
    decreases |patterns|
  {
    if patterns != [] {
      PatternEventsMember(line, course, patterns[1..], ev);
      assert patterns == [patterns[0]] + patterns[1..];
    }
  }

  /** An event comes from a line exactly when one of the four patterns
      matches the line with the event's title as its group; its kind and
      category are that pattern's, and its course is the mail's. */
  lemma LineEventsMember(line: string, course: string, ev: MailEvent)
    ensures ev in LineEvents(line, course) <==>
      exists pat :: pat in Patterns && Capture(line, pat.before, pat.after) == Some(ev.title)
        && ev == MailEvent(pat.kind, ev.title, course, pat.category)
    ensures |LineEvents(line, course)| <= 4
  {
    PatternEventsMember(line, course, Patterns, ev);
  }

  lemma {:induction false} AllLineEventsMember(lines: seq<string>, course: string, ev: MailEvent)
    ensures ev in AllLineEvents(lines, course) <==> exists l :: l in lines && ev in LineEvents(l, course)
    decreases |lines|
  {
    if lines != [] {
      AllLineEventsMember(lines[1..], course, ev);
      assert lines == [lines[0]] + lines[1..];
    }
  }

  /** A mail without 更新内容： gives no event. */
  lemma ParseWithoutMarker(text: string)
    requires forall k :: 0 <= k <= |text| ==> !(UpdatesMarker <= text[k..])
    ensures ParseBeefMail(text) == []
  {
  }

  /** Every event of a mail comes from a line after the marker that carries
      '・', through one of the four patterns, and carries the mail's course:
      the trimmed 授業名： group or 情報なし. */
  lemma ParseEventsOrigin(text: string, ev: MailEvent)
    requires ev in ParseBeefMail(text)
    ensures UpdateLines(text).Some?
    ensures exists l :: l in UpdateLines(text).value && Bullet in l && ev in LineEvents(l, CourseOf(text))
    ensures ev.course == CourseOf(text)
    ensures Capture(text, CourseLabel, "\n").None? ==> ev.course == UnknownCourse
    ensures Capture(text, CourseLabel, "\n").Some? ==> ev.course == Trim(Capture(text, CourseLabel, "\n").value)
  {
    var lines := UpdateLines(text).value;
    AllLineEventsMember(lines, CourseOf(text), ev);
    var l :| l in lines && ev in LineEvents(l, CourseOf(text));
    var k :| 0 <= k < |LineEvents(l, CourseOf(text))| && LineEvents(l, CourseOf(text))[k] == ev;
  }

  /** Conversely every match of a pattern on such a line gives an event. */
  lemma ParseEventsComplete(text: string, l: string, pat: LinePattern)
    requires UpdateLines(text).Some? && l in UpdateLines(text).value
    requires pat in Patterns && Capture(l, pat.before, pat.after).Some?
    ensures MailEvent(pat.kind, Capture(l, pat.before, pat.after).value, CourseOf(text), pat.category) in ParseBeefMail(text)
  {
    var ev := MailEvent(pat.kind, Capture(l, pat.before, pat.after).value, CourseOf(text), pat.category);
    LineEventsMember(l, CourseOf(text), ev);
    AllLineEventsMember(UpdateLines(text).value, CourseOf(text), ev);
  }
}
