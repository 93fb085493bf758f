/** The content script on the portal's task list (content.js): the
    deadline normalisation of parseDeadline, the merge of a scrape into the
    stored tasks (updateStoredTasks) and the guard that runs it. The page
    itself (parseTasks) is not modelled: a scrape is a list of tasks. The date
    parser is the parameter `parseDate`, None for an Invalid Date. */
module Content {
  import opened Wrappers
  import opened JsString
  import opened Model
  import MailStore

  // ------------------------------------------------------ parseDeadline

  /** The first five replacements, character by character: 年 and 月 to '/',
      日 dropped, the full-width hyphen －, the long vowel mark ー and '-' all
      to '/'. */
  predicate IsReplacedMark(c: char)
  {
    c == '年' || c == '月' || c == '日' || c == '－' || c == 'ー' || c == '-'
  }

  function MapDateChar(c: char): (r: string)
    ensures |r| <= 1 && forall k :: 0 <= k < |r| ==> !IsReplacedMark(r[k])
  {
    if c == '年' || c == '月' then "/"
    else if c == '日' then ""
    else if c == '－' || c == 'ー' || c == '-' then "/"
    else [c]
  }

  function MapDateChars(s: string): (r: string)
    ensures forall k :: 0 <= k < |r| ==> !IsReplacedMark(r[k])
  {
    if s == [] then [] else MapDateChar(s[0]) + MapDateChars(s[1..])
  }

  /** .replace(/\s+/g, " "): each run of white space becomes one space;
      `inRun` says the character before s was white space already replaced. */
  function CollapseSpaces(s: string, inRun: bool): (r: string)
    ensures inRun ==> r == [] || !IsJsSpace(r[0])
    ensures forall k :: 0 <= k < |r| && IsJsSpace(r[k]) ==> r[k] == ' '
    ensures forall k :: 0 <= k < |r| - 1 ==> !(IsJsSpace(r[k]) && IsJsSpace(r[k + 1]))
    ensures forall k :: 0 <= k < |r| ==> r[k] == ' ' || r[k] in s
    ensures (forall k :: 0 <= k < |s| ==> !IsReplacedMark(s[k])) ==> forall k :: 0 <= k < |r| ==> !IsReplacedMark(r[k])
  {
    if s == [] then []
    else if IsJsSpace(s[0]) then
      if inRun then CollapseSpaces(s[1..], true) else [' '] + CollapseSpaces(s[1..], true)
    else [s[0]] + CollapseSpaces(s[1..], false)
  }

  /** The text new Date() is first tried on. */
  function NormalizeDeadline(dueText: string): string
  {
    Trim(CollapseSpaces(MapDateChars(dueText), false))
  }

  /** The non-space characters of s, in order. */
  function Skeleton(s: string): string
  {
    if s == [] then [] else (if IsJsSpace(s[0]) then [] else [s[0]]) + Skeleton(s[1..])
  }

  lemma {:induction false} SkeletonAppend(a: string, b: string)
    ensures Skeleton(a + b) == Skeleton(a) + Skeleton(b)
    decreases |a|
  {
    if a == [] {
      assert a + b == b;
    } else {
      SkeletonAppend(a[1..], b);
      assert (a + b)[0] == a[0] && (a + b)[1..] == a[1..] + b;
      var head := if IsJsSpace(a[0]) then [] else [a[0]];
      assert Skeleton(a + b) == head + Skeleton(a[1..] + b);
      assert Skeleton(a) == head + Skeleton(a[1..]);
    }
  }

  lemma {:induction false} SkeletonAllSpace(s: string)
    requires forall k :: 0 <= k < |s| ==> IsJsSpace(s[k])
    ensures Skeleton(s) == []
    decreases |s|
  {
    if s != [] {
      SkeletonAllSpace(s[1..]);
    }
  }

  lemma {:induction false} SkeletonCollapse(s: string, inRun: bool)
    ensures Skeleton(CollapseSpaces(s, inRun)) == Skeleton(s)
    decreases |s|
  {
    if s != [] {
      SkeletonCollapse(s[1..], true);
      SkeletonCollapse(s[1..], false);
      if IsJsSpace(s[0]) && !inRun {
        SkeletonAppend([' '], CollapseSpaces(s[1..], true));
        assert Skeleton([' ']) == [];
      }
    }
  }

  /** Cutting white space off both ends keeps the skeleton. */
  lemma {:induction false} SkeletonTrimmed(s: string, r: string, i: int)
    requires TrimmedAt(s, r, i)
    ensures Skeleton(r) == Skeleton(s)
  {
    var pre, post := s[..i], s[i + |r|..];
    assert s == pre + r + post;
    forall k | 0 <= k < |pre| ensures IsJsSpace(pre[k]) {
      assert pre[k] == s[k];
    }
    forall k | 0 <= k < |post| ensures IsJsSpace(post[k]) {
      assert post[k] == s[i + |r| + k];
    }
    SkeletonAllSpace(pre);
    SkeletonAllSpace(post);
    SkeletonAppend(pre, r);
    SkeletonAppend(pre + r, post);
  }

  lemma {:induction false} SkeletonTrim(s: string)
    ensures Skeleton(Trim(s)) == Skeleton(s)
  {
    var i :| TrimmedAt(s, Trim(s), i);
    SkeletonTrimmed(s, Trim(s), i);
  }

  lemma {:induction false} TrimmedKeeps(c: string, r: string, i: int)
    requires TrimmedAt(c, r, i)
    requires forall k :: 0 <= k < |c| ==> !IsReplacedMark(c[k]) && (IsJsSpace(c[k]) ==> c[k] == ' ')
    requires forall k :: 0 <= k < |c| - 1 ==> !(IsJsSpace(c[k]) && IsJsSpace(c[k + 1]))
    ensures forall k :: 0 <= k < |r| ==> !IsReplacedMark(r[k]) && (IsJsSpace(r[k]) ==> r[k] == ' ')
    ensures forall k :: 0 <= k < |r| - 1 ==> !(IsJsSpace(r[k]) && IsJsSpace(r[k + 1]))
  {
    forall k | 0 <= k < |r|
      ensures r[k] == c[i + k]
    {
    }
  }

  lemma {:induction false} TrimKeeps(c: string)
    requires forall k :: 0 <= k < |c| ==> !IsReplacedMark(c[k]) && (IsJsSpace(c[k]) ==> c[k] == ' ')
    requires forall k :: 0 <= k < |c| - 1 ==> !(IsJsSpace(c[k]) && IsJsSpace(c[k + 1]))
    ensures forall k :: 0 <= k < |Trim(c)| ==> !IsReplacedMark(Trim(c)[k]) && (IsJsSpace(Trim(c)[k]) ==> Trim(c)[k] == ' ')
    ensures forall k :: 0 <= k < |Trim(c)| - 1 ==> !(IsJsSpace(Trim(c)[k]) && IsJsSpace(Trim(c)[k + 1]))
  {
    var i :| TrimmedAt(c, Trim(c), i);
    TrimmedKeeps(c, Trim(c), i);
  }

  /** The normalised text has no 年, 月, 日, －, ー or '-', no white space at
      either end, no two white-space characters in a row (the only white
      space left is ' '), and apart from white space it is exactly the text
      with the five replacements made. */
  lemma NormalizeDeadlineProperties(dueText: string)
    ensures forall k :: 0 <= k < |NormalizeDeadline(dueText)| ==> !IsReplacedMark(NormalizeDeadline(dueText)[k])
    ensures NormalizeDeadline(dueText) == [] ||
      (!IsJsSpace(NormalizeDeadline(dueText)[0]) && !IsJsSpace(NormalizeDeadline(dueText)[|NormalizeDeadline(dueText)| - 1]))
    ensures forall k :: 0 <= k < |NormalizeDeadline(dueText)| - 1 ==>
      !(IsJsSpace(NormalizeDeadline(dueText)[k]) && IsJsSpace(NormalizeDeadline(dueText)[k + 1]))
    ensures forall k :: 0 <= k < |NormalizeDeadline(dueText)| && IsJsSpace(NormalizeDeadline(dueText)[k]) ==> NormalizeDeadline(dueText)[k] == ' '
    ensures Skeleton(NormalizeDeadline(dueText)) == Skeleton(MapDateChars(dueText))
  {
    var m := MapDateChars(dueText);
    var c := CollapseSpaces(m, false);
    TrimKeeps(c);
    SkeletonCollapse(m, false);
    SkeletonTrim(c);
  }

  /** parseDeadline(dueText): nothing for an empty text; otherwise the date of
      the normalised text, or failing that of the text as it is. */
  function ParseDeadline(dueText: string, parseDate: string -> Option<int>): (r: Option<int>)
    ensures dueText == "" ==> r.None?
    ensures r.Some? ==> r == parseDate(NormalizeDeadline(dueText)) || r == parseDate(dueText)
    ensures parseDate(NormalizeDeadline(dueText)).Some? && dueText != "" ==> r == parseDate(NormalizeDeadline(dueText))
    ensures parseDate(NormalizeDeadline(dueText)).None? && dueText != "" ==> r == parseDate(dueText)
  {
    if dueText == "" then None
    else
      match parseDate(NormalizeDeadline(dueText))
      case Some(t) => Some(t)
      case None => parseDate(dueText)
  }

  // ------------------------------------------------------ updateStoredTasks

  /** tasks.map(t => t.url) */
  function Urls(tasks: seq<Task>): (r: seq<string>)
    ensures |r| == |tasks| && forall k :: 0 <= k < |tasks| ==> r[k] == tasks[k].url
  {
    if tasks == [] then [] else [tasks[0].url] + Urls(tasks[1..])
  }

  /** oldTasks.filter(t => newUrls.includes(t.url)) */
  function Kept(oldTasks: seq<Task>, newUrls: seq<string>): (r: seq<Task>)
    ensures forall t :: t in r <==> t in oldTasks && t.url in newUrls
  {
    if oldTasks == [] then []
    else (if oldTasks[0].url in newUrls then [oldTasks[0]] else []) + Kept(oldTasks[1..], newUrls)
  }

  /** newTasks.filter(t => !oldTasks.some(o => o.url === t.url)) */
  function Added(newTasks: seq<Task>, oldUrls: seq<string>): (r: seq<Task>)
    ensures forall t :: t in r <==> t in newTasks && t.url !in oldUrls
  {
    if newTasks == [] then []
    else (if newTasks[0].url in oldUrls then [] else [newTasks[0]]) + Added(newTasks[1..], oldUrls)
  }

  /** [...kept, ...added] */
  function Merge(oldTasks: seq<Task>, newTasks: seq<Task>): seq<Task>
  {
    Kept(oldTasks, Urls(newTasks)) + Added(newTasks, Urls(oldTasks))
  }

  lemma UrlIn(tasks: seq<Task>, t: Task)
    requires t in tasks
    ensures t.url in Urls(tasks)
  {
    var k :| 0 <= k < |tasks| && tasks[k] == t;
    assert Urls(tasks)[k] == t.url;
  }

  lemma UrlWitness(tasks: seq<Task>, u: string) returns (t: Task)
    requires u in Urls(tasks)
    ensures t in tasks && t.url == u
  {
    var k :| 0 <= k < |Urls(tasks)| && Urls(tasks)[k] == u;
    t := tasks[k];
  }

  /** After a merge the stored urls are exactly the scraped ones: every
      stored task's url was scraped and every scraped url is stored. */
  lemma MergeUrls(oldTasks: seq<Task>, newTasks: seq<Task>)
    ensures forall m :: m in Merge(oldTasks, newTasks) ==> m.url in Urls(newTasks)
    ensures forall t :: t in newTasks ==> t.url in Urls(Merge(oldTasks, newTasks))
  {
    var merged := Merge(oldTasks, newTasks);
    forall m | m in merged
      ensures m.url in Urls(newTasks)
    {
      if m !in Kept(oldTasks, Urls(newTasks)) {
        UrlIn(newTasks, m);
      }
    }
    forall t | t in newTasks
      ensures t.url in Urls(merged)
    {
      if t.url in Urls(oldTasks) {
        var o := UrlWitness(oldTasks, t.url);
        UrlIn(newTasks, t);
        UrlIn(merged, o);
      } else {
        UrlIn(merged, t);
      }
    }
  }

  /** A stored task whose url is scraped again is kept as it was, title and
      deadline included; a scraped task enters only when its url is new. */
  lemma MergeRecords(oldTasks: seq<Task>, newTasks: seq<Task>)
    ensures forall o :: o in oldTasks && o.url in Urls(newTasks) ==> o in Merge(oldTasks, newTasks)
    ensures forall m :: m in Merge(oldTasks, newTasks) ==>
      (m in oldTasks && m.url in Urls(newTasks)) || (m in newTasks && m.url !in Urls(oldTasks))
    ensures |Merge(oldTasks, newTasks)| >= |Kept(oldTasks, Urls(newTasks))|
    ensures Merge(oldTasks, newTasks)[..|Kept(oldTasks, Urls(newTasks))|] == Kept(oldTasks, Urls(newTasks))
  {
  }

  /** A task found in a mail is dropped by the next merge of a portal scrape,
      whose urls are web addresses. */
  lemma MergeDropsMailTasks(oldTasks: seq<Task>, newTasks: seq<Task>, o: Task)
    requires o in oldTasks && MailStore.MailTaskScheme <= o.url
    requires forall t :: t in newTasks ==> !(MailStore.MailTaskScheme <= t.url)
    ensures o !in Merge(oldTasks, newTasks)
  {
    if o.url in Urls(newTasks) {
      var t := UrlWitness(newTasks, o.url);
    }
  }

  lemma {:induction false} KeptAll(tasks: seq<Task>, urls: seq<string>)
    requires forall t :: t in tasks ==> t.url in urls
    ensures Kept(tasks, urls) == tasks
    decreases |tasks|
  {
    if tasks != [] {
      KeptAll(tasks[1..], urls);
      assert tasks == [tasks[0]] + tasks[1..];
    }
  }

  lemma {:induction false} AddedNone(tasks: seq<Task>, urls: seq<string>)
    requires forall t :: t in tasks ==> t.url in urls
    ensures Added(tasks, urls) == []
    decreases |tasks|
  {
    if tasks != [] {
      AddedNone(tasks[1..], urls);
    }
  }

  /** Merging the same scrape again adds nothing and changes nothing. */
  lemma MergeIdempotent(oldTasks: seq<Task>, newTasks: seq<Task>)
    ensures Added(newTasks, Urls(Merge(oldTasks, newTasks))) == []
    ensures Merge(Merge(oldTasks, newTasks), newTasks) == Merge(oldTasks, newTasks)
  {
    var merged := Merge(oldTasks, newTasks);
    MergeUrls(oldTasks, newTasks);
    KeptAll(merged, Urls(newTasks));
    AddedNone(newTasks, Urls(merged));
    assert merged + [] == merged;
  }

  /** What chrome.storage.local holds for the popup. */
  datatype Stored = Stored(tasks: seq<Task>, lastUpdated: Option<int>)

  /** The script's run on a page: the scrape is merged, with the time of the
      merge, only when it found at least one task. */
  function OnPageScraped(stored: Stored, scraped: seq<Task>, now: int): (r: Stored)
    ensures scraped == [] ==> r == stored
    ensures scraped != [] ==> r.lastUpdated == Some(now) && r.tasks == Merge(stored.tasks, scraped)
  {
    if |scraped| > 0 then Stored(Merge(stored.tasks, scraped), Some(now)) else stored
  }

  /** An empty page never clears the stored tasks; a non-empty one leaves
      exactly its urls. */
  lemma OnPageScrapedUrls(stored: Stored, scraped: seq<Task>, now: int)
    ensures scraped == [] ==> OnPageScraped(stored, scraped, now).tasks == stored.tasks
    ensures scraped != [] ==> forall t :: t in OnPageScraped(stored, scraped, now).tasks ==> t.url in Urls(scraped)
    ensures scraped != [] ==> forall t :: t in scraped ==> t.url in Urls(OnPageScraped(stored, scraped, now).tasks)
  {
    MergeUrls(stored.tasks, scraped);
  }
}
