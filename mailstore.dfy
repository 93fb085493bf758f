/** What the mail sync does to the stored data (background.js
    applyMailUpdates, loadProcessedIds / saveProcessedIds and the gmailSync
    alarm listener). chrome.storage.local is a Storage object; the Gmail
    requests are parameters: the outcome of getting the token and listing the
    message ids, and the response for each message id. */
module MailStore {
  import opened Wrappers
  import opened Bytes
  import opened Model
  import Utf8
  import Mime
  import MailParser

  // ------------------------------------------------------ encodeURIComponent

  /** The characters encodeURIComponent leaves alone. */
  predicate IsUnreserved(c: char)
  {
    || 'A' <= c <= 'Z' || 'a' <= c <= 'z' || '0' <= c <= '9'
    || c == '-' || c == '_' || c == '.' || c == '!' || c == '~' || c == '*' || c == '\'' || c == '(' || c == ')'
  }

  predicate IsUpperHex(c: char) { '0' <= c <= '9' || 'A' <= c <= 'F' }

  function HexDigit(d: nat): (c: char)
    requires d < 16
    ensures IsUpperHex(c)
  {
    if d < 10 then ('0' as int + d) as char else ('A' as int + d - 10) as char
  }

  /** %XX for each octet, upper-case hexadecimal. */
  function PercentEncode(b: seq<byte>): (r: string)
    ensures |r| == 3 * |b|
    ensures forall k :: 0 <= k < |r| ==> r[k] == '%' || IsUpperHex(r[k])
  {
    if b == [] then [] else ['%', HexDigit(b[0] / 16), HexDigit(b[0] % 16)] + PercentEncode(b[1..])
  }

  /** encodeURIComponent over a string of scalar values: every character but
      the unreserved ones becomes the %XX escapes of its UTF-8 octets. */
  function EncodeUriComponent(s: string): (r: string)
    ensures forall k :: 0 <= k < |r| ==> IsUnreserved(r[k]) || r[k] == '%' || IsUpperHex(r[k])
    ensures |r| >= |s|
  {
    if s == [] then []
    else
      (if IsUnreserved(s[0]) then [s[0]] else PercentEncode(Utf8.EncodeChar(s[0])))
      + EncodeUriComponent(s[1..])
  }

  // ------------------------------------------------------ applyMailUpdates

  const MailTaskScheme: string := "mailto-task://"
  const MailContentType: string := "メール検知"

  /** item.course + "::" + item.title */
  function MailTaskId(ev: MailEvent): string
  {
    ev.course + "::" + ev.title
  }

  /** The task a task_added event creates; its deadline, unknown from the
      mail, is set seven days ahead. */
  function MailTask(ev: MailEvent, now: int): (t: Task)
    ensures t.id == Some(MailTaskId(ev)) && t.title == ev.title && t.course == ev.course
    ensures MailTaskScheme <= t.url && t.contentType == MailContentType
    ensures t.due == Some(now + 7 * DayMs)
  {
    var id := MailTaskId(ev);
    Task(Some(id), ev.title, ev.course, MailContentType, MailTaskScheme + EncodeUriComponent(id), Some(now + 7 * DayMs))
  }

  /** tasks.findIndex(t => t.id === id): portal tasks, without id, never match. */
  function IndexOfId(tasks: seq<Task>, id: string): (r: Option<nat>)
    ensures r.Some? ==> r.value < |tasks| && tasks[r.value].id == Some(id)
    ensures r.Some? ==> forall k :: 0 <= k < r.value ==> tasks[k].id != Some(id)
    ensures r.None? <==> forall k :: 0 <= k < |tasks| ==> tasks[k].id != Some(id)
  {
    if tasks == [] then None
    else if tasks[0].id == Some(id) then Some(0)
    else match IndexOfId(tasks[1..], id)
      case None => None
      case Some(k) => Some(k + 1)
  }

  /** The task list after one event. */
  function ApplyEvent(tasks: seq<Task>, ev: MailEvent, now: int): seq<Task>
  {
    var id := MailTaskId(ev);
    match ev.kind
    case TaskAdded => if IndexOfId(tasks, id).Some? then tasks else tasks + [MailTask(ev, now)]
    case TaskSubmitted =>
      (match IndexOfId(tasks, id)
       case None => tasks
       case Some(k) => tasks[..k] + tasks[k + 1..])
    case Notification => tasks
  }

  /** The task list after the events, in order. */
  function ApplyEvents(tasks: seq<Task>, events: seq<MailEvent>, now: int): seq<Task>
  {
    if events == [] then tasks
    else ApplyEvent(ApplyEvents(tasks, events[..|events| - 1], now), events[|events| - 1], now)
  }

  /** The stored data the sync reads and writes. */
  class Storage {
    var tasks: seq<Task>
    var processedMailIds: set<string>

    constructor (tasks: seq<Task>, processedMailIds: set<string>)
      ensures this.tasks == tasks && this.processedMailIds == processedMailIds
    {
      this.tasks := tasks;
      this.processedMailIds := processedMailIds;
    }

    /** saveProcessedIds(set) */
    method SaveProcessedIds(ids: set<string>)
      modifies this
      ensures processedMailIds == ids && tasks == old(tasks)
    {
      processedMailIds := ids;
    }

    /** applyMailUpdates(newItems): reads the tasks, appends and splices in
        place, writes them back. */
    method ApplyMailUpdates(newItems: seq<MailEvent>, now: int)
      modifies this
      ensures tasks == ApplyEvents(old(tasks), newItems, now)
      ensures processedMailIds == old(processedMailIds)
    {
      var list := tasks;
      for i := 0 to |newItems|
        invariant list == ApplyEvents(old(tasks), newItems[..i], now)
      {
        assert newItems[..i + 1][..i] == newItems[..i];
        var item := newItems[i];
        var id := item.course + "::" + item.title;
        if item.kind == TaskAdded {
          var existing := IndexOfId(list, id);
          if existing.None? {
            list := list + [MailTask(item, now)];
          }
        }
        if item.kind == TaskSubmitted {
          var idx := IndexOfId(list, id);
          if idx.Some? {
            list := list[..idx.value] + list[idx.value + 1..];
          }
        }
      }
      assert newItems[..|newItems|] == newItems;
      tasks := list;
    }
  }

  // ------------------------------------------------------ properties

  /** No two tasks carry the same id (tasks without id are not compared). */
  predicate IdsUnique(tasks: seq<Task>)
  {
    forall i, j :: 0 <= i < j < |tasks| && tasks[i].id.Some? ==> tasks[i].id != tasks[j].id
  }

  /** The tasks without id, in order. */
  function PortalTasks(tasks: seq<Task>): seq<Task>
  {
    if tasks == [] then []
    else (if tasks[0].id.None? then [tasks[0]] else []) + PortalTasks(tasks[1..])
  }

  lemma {:induction false} PortalTasksAppend(a: seq<Task>, b: seq<Task>)
    ensures PortalTasks(a + b) == PortalTasks(a) + PortalTasks(b)
    decreases |a|
  {
    if a == [] {
      assert a + b == b;
    } else {
      PortalTasksAppend(a[1..], b);
      assert (a + b)[0] == a[0] && (a + b)[1..] == a[1..] + b;
      var head := if a[0].id.None? then [a[0]] else [];
      assert PortalTasks(a + b) == head + PortalTasks(a[1..] + b);
      assert PortalTasks(a) == head + PortalTasks(a[1..]);
    }
  }

  lemma AddedEventProperties(tasks: seq<Task>, ev: MailEvent, now: int)
    requires ev.kind == TaskAdded
    ensures IdsUnique(tasks) ==> IdsUnique(ApplyEvent(tasks, ev, now))
    ensures PortalTasks(ApplyEvent(tasks, ev, now)) == PortalTasks(tasks)
    ensures exists k :: 0 <= k < |ApplyEvent(tasks, ev, now)| && ApplyEvent(tasks, ev, now)[k].id == Some(MailTaskId(ev))
  {
    var id := MailTaskId(ev);
    var r := ApplyEvent(tasks, ev, now);
    if IndexOfId(tasks, id).None? {
      PortalTasksAppend(tasks, [MailTask(ev, now)]);
      assert r[|tasks|].id == Some(id);
    } else {
      assert r[IndexOfId(tasks, id).value].id == Some(id);
    }
  }

  lemma {:induction false} RemovedAt(tasks: seq<Task>, k: nat)
    requires k < |tasks|
    ensures |tasks[..k] + tasks[k + 1..]| == |tasks| - 1
    ensures forall j :: 0 <= j < |tasks| - 1 ==> (tasks[..k] + tasks[k + 1..])[j] == if j < k then tasks[j] else tasks[j + 1]
    ensures PortalTasks(tasks[..k] + tasks[k + 1..]) == PortalTasks(tasks) || tasks[k].id.None?
  {
    var pre, mid, post := tasks[..k], [tasks[k]], tasks[k + 1..];
    assert tasks == pre + (mid + post);
    PortalTasksAppend(pre, mid + post);
    PortalTasksAppend(mid, post);
    PortalTasksAppend(pre, post);
    assert mid[1..] == [];
    assert PortalTasks(mid) == (if tasks[k].id.None? then mid else []) + PortalTasks([]);
  }

  lemma {:induction false} SubmittedEventProperties(tasks: seq<Task>, ev: MailEvent, now: int)
    requires ev.kind == TaskSubmitted
    ensures IdsUnique(tasks) ==> IdsUnique(ApplyEvent(tasks, ev, now))
    ensures PortalTasks(ApplyEvent(tasks, ev, now)) == PortalTasks(tasks)
    ensures IdsUnique(tasks) ==>
      forall k :: 0 <= k < |ApplyEvent(tasks, ev, now)| ==> ApplyEvent(tasks, ev, now)[k].id != Some(MailTaskId(ev))
  {
    var id := MailTaskId(ev);
    var r := ApplyEvent(tasks, ev, now);
    if IndexOfId(tasks, id).Some? {
      var k := IndexOfId(tasks, id).value;
      RemovedAt(tasks, k);
      if IdsUnique(tasks) {
        forall j | 0 <= j < |r|
          ensures r[j].id != Some(id)
        {
          if j >= k {
            assert r[j] == tasks[j + 1];
          }
        }
        forall i, j | 0 <= i < j < |r| && r[i].id.Some?
          ensures r[i].id != r[j].id
        {
          var i' := if i < k then i else i + 1;
          var j' := if j < k then j else j + 1;
          assert r[i] == tasks[i'] && r[j] == tasks[j'];
        }
      }
    }
  }

  /** One event keeps ids unique and the portal tasks as they were; task_added
      leaves a task with its id, task_submitted leaves none when ids are
      unique, a notification changes nothing. */
  lemma ApplyEventProperties(tasks: seq<Task>, ev: MailEvent, now: int)
    ensures IdsUnique(tasks) ==> IdsUnique(ApplyEvent(tasks, ev, now))
    ensures PortalTasks(ApplyEvent(tasks, ev, now)) == PortalTasks(tasks)
    ensures ev.kind == TaskAdded ==> exists k :: 0 <= k < |ApplyEvent(tasks, ev, now)| && ApplyEvent(tasks, ev, now)[k].id == Some(MailTaskId(ev))
    ensures ev.kind == TaskSubmitted && IdsUnique(tasks) ==>
      forall k :: 0 <= k < |ApplyEvent(tasks, ev, now)| ==> ApplyEvent(tasks, ev, now)[k].id != Some(MailTaskId(ev))
    ensures ev.kind == Notification ==> ApplyEvent(tasks, ev, now) == tasks
  {
    if ev.kind == TaskAdded {
      AddedEventProperties(tasks, ev, now);
    } else if ev.kind == TaskSubmitted {
      SubmittedEventProperties(tasks, ev, now);
    }
  }

  /** Over a whole batch: ids stay unique, and the portal tasks (no id) are
      never touched: the same tasks in the same order. */
  lemma {:induction false} ApplyEventsPreserves(tasks: seq<Task>, events: seq<MailEvent>, now: int)
    ensures IdsUnique(tasks) ==> IdsUnique(ApplyEvents(tasks, events, now))
    ensures PortalTasks(ApplyEvents(tasks, events, now)) == PortalTasks(tasks)
    decreases |events|
  {
    if events != [] {
      ApplyEventsPreserves(tasks, events[..|events| - 1], now);
      ApplyEventProperties(ApplyEvents(tasks, events[..|events| - 1], now), events[|events| - 1], now);
    }
  }

  /** Adding a task whose id is already stored, or submitting one that is
      not, changes nothing. */
  lemma ApplyEventNoOps(tasks: seq<Task>, ev: MailEvent, now: int)
    ensures ev.kind == TaskAdded && (exists k :: 0 <= k < |tasks| && tasks[k].id == Some(MailTaskId(ev)))
      ==> ApplyEvent(tasks, ev, now) == tasks
    ensures ev.kind == TaskSubmitted && (forall k :: 0 <= k < |tasks| ==> tasks[k].id != Some(MailTaskId(ev)))
      ==> ApplyEvent(tasks, ev, now) == tasks
  {
  }

  // ------------------------------------------------------ the sync loop

  /** The ids of `msgs` that are not in `processed`, each once, in the order
      they are first listed: the ids the loop fetches. */
  function NewIds(processed: set<string>, msgs: seq<string>): seq<string>
  {
    if msgs == [] then []
    else
      var init := msgs[..|msgs| - 1];
      var m := msgs[|msgs| - 1];
      NewIds(processed, init) + (if m in processed || m in init then [] else [m])
  }

  /** What one message contributes to results: its events, or nothing when
      reading its body throws (the error is logged and the loop goes on). */
  function MessageEvents(response: Result<Option<Mime.Part>, int>): seq<MailEvent>
  {
    match Mime.GetMailBody(response)
    case Err(_) => []
    case Ok(body) => MailParser.ParseBeefMail(body)
  }

  /** results: the events of the fetched messages, concatenated in order. */
  function EventsOf(ids: seq<string>, respond: string -> Result<Option<Mime.Part>, int>): seq<MailEvent>
  {
    if ids == [] then [] else EventsOf(ids[..|ids| - 1], respond) + MessageEvents(respond(ids[|ids| - 1]))
  }

  /** The loop over the listed messages: skips an id already processed, adds
      it to processed before fetching, collects the parsed events. */
  method SyncMessages(processed: set<string>, msgs: seq<string>, respond: string -> Result<Option<Mime.Part>, int>)
      returns (processedAfter: set<string>, results: seq<MailEvent>, fetched: seq<string>)
    ensures processedAfter == processed + set m | m in msgs
    ensures fetched == NewIds(processed, msgs)
    ensures results == EventsOf(fetched, respond)
  {
    processedAfter, results, fetched := processed, [], [];
    for i := 0 to |msgs|
      invariant processedAfter == processed + Listed(msgs[..i])
      invariant fetched == NewIds(processed, msgs[..i])
      invariant results == EventsOf(fetched, respond)
    {
      var id := msgs[i];
      SyncStep(processed, msgs, i);
      if id in processedAfter {
        continue;
      }
      processedAfter := processedAfter + {id};
      var body := Mime.GetMailBody(respond(id));
      ghost var before := results;
      if body.Ok? {
        var parsed := MailParser.ParseBeefMail(body.value);
        results := results + parsed;
      }
      assert results == before + MessageEvents(respond(id));
      EventsOfAppend(fetched, id, respond);
      fetched := fetched + [id];
    }
    assert msgs[..|msgs|] == msgs;
  }

  /** The ids of a listing, as a set. */
  function Listed(msgs: seq<string>): (r: set<string>)
    ensures forall m :: m in r <==> m in msgs
  {
    set m | m in msgs
  }

  /** One more listed message: it is new exactly when it was neither
      processed before nor listed earlier. */
  lemma SyncStep(processed: set<string>, msgs: seq<string>, i: nat)
    requires i < |msgs|
    ensures Listed(msgs[..i + 1]) == Listed(msgs[..i]) + {msgs[i]}
    ensures msgs[i] in (processed + Listed(msgs[..i])) <==> msgs[i] in processed || msgs[i] in msgs[..i]
    ensures NewIds(processed, msgs[..i + 1])
      == NewIds(processed, msgs[..i]) + (if msgs[i] in processed || msgs[i] in msgs[..i] then [] else [msgs[i]])
  {
    assert msgs[..i + 1][..i] == msgs[..i] && msgs[..i + 1] == msgs[..i] + [msgs[i]];
  }

  lemma EventsOfAppend(ids: seq<string>, id: string, respond: string -> Result<Option<Mime.Part>, int>)
    ensures EventsOf(ids + [id], respond) == EventsOf(ids, respond) + MessageEvents(respond(id))
  {
    assert (ids + [id])[..|ids|] == ids;
  }


  /** The fetched ids are new: none was processed before, none twice, and
      together with the old ones they are every listed id. */
  lemma {:induction false} NewIdsProperties(processed: set<string>, msgs: seq<string>)
    ensures forall m :: m in NewIds(processed, msgs) <==> m in msgs && m !in processed
    ensures forall i, j :: 0 <= i < j < |NewIds(processed, msgs)| ==> NewIds(processed, msgs)[i] != NewIds(processed, msgs)[j]
    decreases |msgs|
  {
    if msgs != [] {
      var init := msgs[..|msgs| - 1];
      NewIdsProperties(processed, init);
      assert msgs == init + [msgs[|msgs| - 1]];
    }
  }

  /** The gmailSync listener: on its own alarm only; when the token or the
      listing fails nothing is stored; otherwise the processed set is saved
      and the collected events applied. Returns the ids it fetched. */
  method OnGmailSync(store: Storage, alarmName: string, listing: Result<seq<string>, string>,
                     respond: string -> Result<Option<Mime.Part>, int>, now: int)
      returns (fetched: seq<string>)
    modifies store
    ensures alarmName != "gmailSync" || listing.Err? ==>
      fetched == [] && store.tasks == old(store.tasks) && store.processedMailIds == old(store.processedMailIds)
    ensures alarmName == "gmailSync" && listing.Ok? ==>
      && fetched == NewIds(old(store.processedMailIds), listing.value)
      && store.processedMailIds == old(store.processedMailIds) + set m | m in listing.value
      && store.tasks == ApplyEvents(old(store.tasks), EventsOf(fetched, respond), now)
  {
    fetched := [];
    if alarmName != "gmailSync" {
      return;
    }
    if listing.Err? {
      return;
    }
    var processed := store.processedMailIds;
    var processedAfter, results;
    processedAfter, results, fetched := SyncMessages(processed, listing.value, respond);
    store.SaveProcessedIds(processedAfter);
    store.ApplyMailUpdates(results, now);
  }
}
