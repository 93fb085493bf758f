/** The popup's pure parts (popup.js): the remaining-time label, the link a
    card opens, and the order of the cards. The clock is the parameter `now`;
    the URL constructor is a parameter `parse`. */
module Popup {
  import opened Wrappers
  import opened JsString
  import opened Model
  import MailStore

  // ------------------------------------------------ formatRemainingTime

  const UnknownDeadline: string := "締切不明"
  const PastDeadline: string := "締切済み"

  /** formatRemainingTime(task.due): None stands for an absent or unparsable
      deadline. Math.floor on a positive difference is integer division. */
  function FormatRemainingTime(due: Option<int>, now: int): string
  {
    match due
    case None => UnknownDeadline
    case Some(dueMs) =>
      var diffMs := dueMs - now;
      if diffMs <= 0 then PastDeadline
      else
        var diffMinutes := diffMs / (1000 * 60);
        var diffHours := diffMs / (1000 * 60 * 60);
        var diffDays := diffHours / 24;
        if diffMinutes < 60 then "あと" + NatToString(if diffMinutes < 1 then 1 else diffMinutes) + "分"
        else if diffHours < 24 then "あと" + NatToString(diffHours) + "時間"
        else "あと" + NatToString(diffDays) + "日"
  }

  lemma FloorOfFloor(diff: nat)
    ensures diff / HourMs / 24 == diff / DayMs
  {
    var h := diff / HourMs;
    assert diff == h * HourMs + diff % HourMs;
    assert h == (h / 24) * 24 + h % 24;
    assert diff == (h / 24) * DayMs + ((h % 24) * HourMs + diff % HourMs);
    assert 0 <= (h % 24) * HourMs + diff % HourMs < DayMs;
  }

  /** The label by range of the time left: unknown, past, 1 to 59 minutes
      (a part minute counted as one), 1 to 23 whole hours, or one or more
      whole days. */
  lemma FormatRemainingTimeCases(due: Option<int>, now: int)
    ensures due.None? ==> FormatRemainingTime(due, now) == UnknownDeadline
    ensures due.Some? && due.value - now <= 0 ==> FormatRemainingTime(due, now) == PastDeadline
    ensures due.Some? && 0 < due.value - now < HourMs ==>
      exists m :: 1 <= m <= 59 && FormatRemainingTime(due, now) == "あと" + NatToString(m) + "分"
        && m == (if due.value - now < MinuteMs then 1 else (due.value - now) / MinuteMs)
    ensures due.Some? && HourMs <= due.value - now < DayMs ==>
      exists h :: 1 <= h <= 23 && FormatRemainingTime(due, now) == "あと" + NatToString(h) + "時間"
        && h * HourMs <= due.value - now < (h + 1) * HourMs
    ensures due.Some? && DayMs <= due.value - now ==>
      exists d :: d >= 1 && FormatRemainingTime(due, now) == "あと" + NatToString(d) + "日"
        && d * DayMs <= due.value - now < (d + 1) * DayMs
  {
    if due.Some? && due.value - now > 0 {
      var diff := due.value - now;
      FloorOfFloor(diff);
      if diff < HourMs {
        var m := if diff < MinuteMs then 1 else diff / MinuteMs;
        assert FormatRemainingTime(due, now) == "あと" + NatToString(m) + "分";
      } else if diff < DayMs {
        var h := diff / HourMs;
        assert FormatRemainingTime(due, now) == "あと" + NatToString(h) + "時間";
      } else {
        var d := diff / DayMs;
        assert FormatRemainingTime(due, now) == "あと" + NatToString(d) + "日";
      }
    }
  }

  // ------------------------------------------------ buildTargetUrl

  const FallbackUrl: string := "https://beefplus.center.kobe-u.ac.jp/lms/task"

  /** What new URL(text) yields: its protocol (scheme and ':') and href. */
  datatype ParsedUrl = ParsedUrl(protocol: string, href: string)

  predicate IsWebProtocol(protocol: string) { protocol == "http:" || protocol == "https:" }

  /** buildTargetUrl(task): `parse` is the URL constructor, None where it
      throws. */
  function BuildTargetUrl(url: string, parse: string -> Option<ParsedUrl>): (r: string)
    ensures r == FallbackUrl || (parse(url).Some? && IsWebProtocol(parse(url).value.protocol) && r == parse(url).value.href)
    ensures url == "" ==> r == FallbackUrl
    ensures url != "" && parse(url).Some? && IsWebProtocol(parse(url).value.protocol) ==> r == parse(url).value.href
    ensures url == "" || parse(url).None? || !IsWebProtocol(parse(url).value.protocol) ==> r == FallbackUrl
  {
    if url == "" then FallbackUrl
    else
      match parse(url)
      case None => FallbackUrl
      case Some(parsed) => if IsWebProtocol(parsed.protocol) then parsed.href else FallbackUrl
  }

  /** Text the URL parser reads as it stands: it starts with an ASCII letter
      (no leading C0 control or space to strip) and holds no tab, line feed
      or carriage return (none to remove). */
  predicate IsPlainUrlText(u: string)
  {
    && |u| > 0 && ('a' <= u[0] <= 'z' || 'A' <= u[0] <= 'Z')
    && forall k :: 0 <= k < |u| ==> u[k] != '\t' && u[k] != '\n' && u[k] != '\r'
  }

  /** On such text the URL parser reports as protocol the scheme the text
      starts with, lower-cased. */
  ghost predicate ParsesScheme(parse: string -> Option<ParsedUrl>)
  {
    forall u :: IsPlainUrlText(u) && parse(u).Some? ==> parse(u).value.protocol <= LowerAscii(u)
  }

  /** The url of a task found in a mail is read by the URL parser as it
      stands, and starts with 'm'. */
  lemma MailTaskUrlPlain(ev: MailEvent, now: int)
    ensures IsPlainUrlText(MailStore.MailTask(ev, now).url)
    ensures MailStore.MailTask(ev, now).url[0] == 'm'
  {
    var tail := MailStore.EncodeUriComponent(MailStore.MailTaskId(ev));
    var u := MailStore.MailTaskScheme + tail;
    assert u == MailStore.MailTask(ev, now).url;
    forall k | 0 <= k < |u| ensures u[k] != '\t' && u[k] != '\n' && u[k] != '\r' {
      if k >= |MailStore.MailTaskScheme| {
        assert u[k] == tail[k - |MailStore.MailTaskScheme|];
      }
    }
  }

  /** A task found in a mail (url mailto-task://...) always opens the
      fallback page. */
  lemma BuildTargetUrlOfMailTask(ev: MailEvent, now: int, parse: string -> Option<ParsedUrl>)
    requires ParsesScheme(parse)
    ensures BuildTargetUrl(MailStore.MailTask(ev, now).url, parse) == FallbackUrl
  {
    var u := MailStore.MailTask(ev, now).url;
    MailTaskUrlPlain(ev, now);
    var l := LowerAscii(u);
    assert l[0] == 'm';
    if parse(u).Some? {
      var protocol := parse(u).value.protocol;
      assert protocol <= l;
      if |protocol| > 0 {
        assert protocol[0] == 'm';
      }
      assert !IsWebProtocol(protocol);
    }
  }

  // ------------------------------------------------ ordering of the cards

  /** The comparator's order: a task without deadline (-Infinity) comes
      before any dated one, dated ones by deadline; equal keys compare 0. */
  predicate Before(a: Task, b: Task)
  {
    match (a.due, b.due)
    case (None, Some(_)) => true
    case (Some(x), Some(y)) => x < y
    case _ => false
  }

  predicate SortedByDue(s: seq<Task>)
  {
    forall i, j :: 0 <= i < j < |s| ==> !Before(s[j], s[i])
  }

  /** Inserts t after every element that does not come after it. */
  function Insert(t: Task, s: seq<Task>): (r: seq<Task>)
    ensures multiset(r) == multiset(s) + multiset{t}
  {
    if s == [] || Before(t, s[0]) then [t] + s
    else
      assert s == [s[0]] + s[1..];
      [s[0]] + Insert(t, s[1..])
  }

  /** Inserting into a sorted list keeps it sorted. */
  lemma {:induction false} InsertSorted(t: Task, s: seq<Task>)
    requires SortedByDue(s)
    ensures SortedByDue(Insert(t, s))
    decreases |s|
  {
    if s != [] && !Before(t, s[0]) {
      SortedTail(s);
      InsertSorted(t, s[1..]);
      var rest := Insert(t, s[1..]);
      assert Insert(t, s) == [s[0]] + rest;
      forall x | x in rest
        ensures !Before(x, s[0])
      {
        assert x in multiset(rest);
        if x != t {
          assert x in multiset(s[1..]);
          var j :| 0 <= j < |s[1..]| && s[1..][j] == x;
          assert s[j + 1] == x;
        }
      }
    }
  }

  /** tasks.slice().sort(comparator), a stable sort. */
  function SortByDue(tasks: seq<Task>): (r: seq<Task>)
    ensures multiset(r) == multiset(tasks)
    ensures SortedByDue(r)
  {
    if tasks == [] then []
    else
      var init := tasks[..|tasks| - 1];
      assert tasks == init + [tasks[|tasks| - 1]];
      InsertSorted(tasks[|tasks| - 1], SortByDue(init));
      Insert(tasks[|tasks| - 1], SortByDue(init))
  }

  /** The tasks whose deadline is `due`, in order. */
  function WithDue(s: seq<Task>, due: Option<int>): seq<Task>
  {
    if s == [] then [] else (if s[0].due == due then [s[0]] else []) + WithDue(s[1..], due)
  }

  lemma {:induction false} WithDueAppend(a: seq<Task>, b: seq<Task>, due: Option<int>)
    ensures WithDue(a + b, due) == WithDue(a, due) + WithDue(b, due)
    decreases |a|
  {
    if a == [] {
      assert a + b == b;
    } else {
      WithDueAppend(a[1..], b, due);
      assert (a + b)[0] == a[0] && (a + b)[1..] == a[1..] + b;
      var head := if a[0].due == due then [a[0]] else [];
      assert WithDue(a + b, due) == head + WithDue(a[1..] + b, due);
      assert WithDue(a, due) == head + WithDue(a[1..], due);
    }
  }

  lemma {:induction false} WithDueNone(s: seq<Task>, t: Task)
    requires SortedByDue(s) && s != [] && Before(t, s[0])
    ensures WithDue(s, t.due) == []
    decreases |s|
  {
    if |s| > 1 {
      assert Before(t, s[1]) by {
        assert !Before(s[1], s[0]);
      }
      WithDueNone(s[1..], t);
    }
  }

  lemma WithDueSingle(t: Task, due: Option<int>)
    ensures WithDue([t], due) == if t.due == due then [t] else []
  {
    assert [t][1..] == [];
  }

  lemma InsertStableFront(t: Task, s: seq<Task>, due: Option<int>)
    requires SortedByDue(s) && (s == [] || Before(t, s[0]))
    ensures WithDue([t] + s, due) == WithDue(s, due) + (if t.due == due then [t] else [])
  {
    WithDueAppend([t], s, due);
    WithDueSingle(t, due);
    if t.due == due && s != [] {
      WithDueNone(s, t);
    }
  }

  lemma SortedTail(s: seq<Task>)
    requires SortedByDue(s) && s != []
    ensures SortedByDue(s[1..])
  {
    forall i, j | 0 <= i < j < |s| - 1
      ensures !Before(s[1..][j], s[1..][i])
    {
      assert s[1..][j] == s[j + 1] && s[1..][i] == s[i + 1];
    }
  }

  lemma InsertUnfold(t: Task, s: seq<Task>)
    requires s != [] && !Before(t, s[0])
    ensures Insert(t, s) == [s[0]] + Insert(t, s[1..])
  {
  }

  lemma ConsWithDue(a: Task, rest: seq<Task>, tail: seq<Task>, due: Option<int>, x: seq<Task>)
    requires WithDue(rest, due) == WithDue(tail, due) + x
    ensures WithDue([a] + rest, due) == WithDue([a] + tail, due) + x
  {
    var head := if a.due == due then [a] else [];
    assert ([a] + rest)[0] == a && ([a] + rest)[1..] == rest;
    assert ([a] + tail)[0] == a && ([a] + tail)[1..] == tail;
    assert WithDue([a] + rest, due) == head + WithDue(rest, due);
    assert WithDue([a] + tail, due) == head + WithDue(tail, due);
    assert head + (WithDue(tail, due) + x) == (head + WithDue(tail, due)) + x;
  }

  lemma InsertStableCons(t: Task, s: seq<Task>, due: Option<int>, x: seq<Task>)
    requires s != [] && !Before(t, s[0])
    requires WithDue(Insert(t, s[1..]), due) == WithDue(s[1..], due) + x
    ensures WithDue(Insert(t, s), due) == WithDue(s, due) + x
  {
    InsertUnfold(t, s);
    ConsWithDue(s[0], Insert(t, s[1..]), s[1..], due, x);
    assert s == [s[0]] + s[1..];
  }

  lemma {:induction false} InsertStable(t: Task, s: seq<Task>, due: Option<int>)
    requires SortedByDue(s)
    ensures WithDue(Insert(t, s), due) == WithDue(s, due) + (if t.due == due then [t] else [])
    decreases |s|
  {
    if s == [] || Before(t, s[0]) {
      InsertStableFront(t, s, due);
    } else {
      SortedTail(s);
      InsertStable(t, s[1..], due);
      InsertStableCons(t, s, due, if t.due == due then [t] else []);
    }
  }

  /** One insertion step of the sort keeps the tasks of a deadline in order. */
  lemma StableStep(init: seq<Task>, t: Task, sorted: seq<Task>, due: Option<int>)
    requires SortedByDue(sorted) && WithDue(sorted, due) == WithDue(init, due)
    ensures WithDue(Insert(t, sorted), due) == WithDue(init + [t], due)
  {
    InsertStable(t, sorted, due);
    WithDueAppend(init, [t], due);
    WithDueSingle(t, due);
  }

  /** The sort is stable: the tasks of any one deadline (or of none) keep
      their stored order. */
  lemma {:induction false} SortByDueStable(tasks: seq<Task>, due: Option<int>)
    ensures WithDue(SortByDue(tasks), due) == WithDue(tasks, due)
    decreases |tasks|
  {
    if tasks != [] {
      var init := tasks[..|tasks| - 1];
      var t := tasks[|tasks| - 1];
      assert tasks == init + [t];
      assert SortByDue(tasks) == Insert(t, SortByDue(init));
      SortByDueStable(init, due);
      StableStep(init, t, SortByDue(init), due);
    }
  }

  /** The cards: a permutation of the stored tasks, those without deadline
      first, then by non-decreasing deadline. */
  lemma SortByDueOrder(tasks: seq<Task>)
    ensures multiset(SortByDue(tasks)) == multiset(tasks)
    ensures forall i, j :: 0 <= i < j < |SortByDue(tasks)| && SortByDue(tasks)[j].due.None? ==> SortByDue(tasks)[i].due.None?
    ensures forall i, j :: (0 <= i < j < |SortByDue(tasks)| && SortByDue(tasks)[i].due.Some? && SortByDue(tasks)[j].due.Some?
      ==> SortByDue(tasks)[i].due.value <= SortByDue(tasks)[j].due.value)
  {
    var r := SortByDue(tasks);
    forall i, j | 0 <= i < j < |r| && r[j].due.None?
      ensures r[i].due.None?
    {
      assert !Before(r[j], r[i]);
    }
  }
}
