/** Deadline reminders (background.js scheduleNotifications, the onAlarm
    listener for `notify-` names, the storage.onChanged re-registration and
    the start-up registration). chrome.alarms is an AlarmRegistry object
    holding a map from alarm name to fire time; chrome.notifications.create is
    a returned list of Notice values; Date.now() is the parameter `now`. */
module Scheduler {
  import opened Wrappers
  import opened JsString
  import opened Model
  import opened AlarmCodec
  import Utf8

  /** The lead offsets, in hours, in the order the source tries them. */
  const Offsets: seq<nat> := [24, 12, 3, 1]

  const ImmediateThresholdMs: int := 60 * 1000

  /** String(task.url || task.title || dueTime). */
  function AlarmKey(t: Task, dueTime: int): string
  {
    if t.url != "" then t.url else if t.title != "" then t.title else IntToString(dueTime)
  }

  /** What scheduleNotifications does for one task: nothing, an immediate
      notification, or a list of alarms (name, fire time) to create. */
  datatype Plan = Skip | Immediate | Alarms(alarms: seq<(string, int)>)

  /** The alarm for the offset of h hours, if its fire time is still ahead. */
  function Lead(key: string, due: int, now: int, h: nat): seq<(string, int)>
  {
    if due - h * HourMs > now then [(AlarmName(key, h), due - h * HourMs)] else []
  }

  /** The alarms for the offsets in `offsets` whose fire time is still ahead. */
  function OffsetAlarms(key: string, due: int, now: int, offsets: seq<nat>): seq<(string, int)>
  {
    if offsets == [] then [] else Lead(key, due, now, offsets[0]) + OffsetAlarms(key, due, now, offsets[1..])
  }

  lemma OffsetAlarmsOfOffsets(key: string, due: int, now: int)
    ensures OffsetAlarms(key, due, now, Offsets)
      == Lead(key, due, now, 24) + Lead(key, due, now, 12) + Lead(key, due, now, 3) + Lead(key, due, now, 1)
  {
    assert Offsets[1..] == [12, 3, 1] && [12, 3, 1][1..] == [3, 1] && [3, 1][1..] == [1] && [1][1..] == [];
    assert OffsetAlarms(key, due, now, [1]) == Lead(key, due, now, 1);
    assert OffsetAlarms(key, due, now, [3, 1]) == Lead(key, due, now, 3) + Lead(key, due, now, 1);
    assert OffsetAlarms(key, due, now, [12, 3, 1]) == Lead(key, due, now, 12) + Lead(key, due, now, 3) + Lead(key, due, now, 1);
  }

  lemma {:induction false} OffsetAlarmsAppend(key: string, due: int, now: int, a: seq<nat>, b: seq<nat>)
    ensures OffsetAlarms(key, due, now, a + b) == OffsetAlarms(key, due, now, a) + OffsetAlarms(key, due, now, b)
    decreases |a|
  {
    if a == [] {
      assert a + b == b;
    } else {
      OffsetAlarmsAppend(key, due, now, a[1..], b);
      assert (a + b)[0] == a[0] && (a + b)[1..] == a[1..] + b;
    }
  }

  function PlanFor(t: Task, now: int): Plan
  {
    match t.due
    case None => Skip
    case Some(due) =>
      if due <= now then Skip
      else if due - now <= ImmediateThresholdMs then Immediate
      else Alarms(OffsetAlarms(AlarmKey(t, due), due, now, Offsets))
  }

  // -------------------------------------------------- properties of a plan

  /** No deadline, or a deadline already past: no alarm and no notification. */
  lemma PlanSkip(t: Task, now: int)
    ensures PlanFor(t, now) == Skip <==> (t.due.None? || t.due.value <= now)
  {
  }

  /** A deadline at most a minute away: one notification with zero hours
      left, and no alarm. */
  lemma PlanImmediate(t: Task, now: int)
    ensures PlanFor(t, now) == Immediate <==> (t.due.Some? && 0 < t.due.value - now <= 60_000)
  {
  }

  lemma {:induction false} OffsetAlarmsMember(key: string, due: int, now: int, offsets: seq<nat>, a: (string, int))
    ensures a in OffsetAlarms(key, due, now, offsets)
      <==> exists h :: h in offsets && due - h * HourMs > now && a == (AlarmName(key, h), due - h * HourMs)
    decreases |offsets|
  {
    if offsets != [] {
      OffsetAlarmsMember(key, due, now, offsets[1..], a);
      assert offsets == [offsets[0]] + offsets[1..];
    }
  }

  /** Otherwise an offset h gets an alarm exactly when due - h hours is still
      ahead, firing at that instant, under the name built from the task's key
      and h; there are no other alarms. */
  lemma PlanAlarms(t: Task, now: int, a: (string, int))
    requires t.due.Some? && t.due.value - now > 60_000
    ensures PlanFor(t, now).Alarms?
    ensures a in PlanFor(t, now).alarms
      <==> exists h :: h in Offsets && t.due.value - h * HourMs > now
             && a == (AlarmName(AlarmKey(t, t.due.value), h), t.due.value - h * HourMs)
  {
    OffsetAlarmsMember(AlarmKey(t, t.due.value), t.due.value, now, Offsets, a);
  }

  /** The alarms of t are those of Offsets[i..], every offset from i on is
      still ahead and every offset before i is due already. */
  predicate SuffixFrom(t: Task, now: int, i: nat)
    requires t.due.Some? && t.due.value - now > 60_000
  {
    && i <= |Offsets|
    && PlanFor(t, now).alarms == OffsetAlarms(AlarmKey(t, t.due.value), t.due.value, now, Offsets[i..])
    && (forall j :: 0 <= j < i ==> t.due.value - Offsets[j] * HourMs <= now)
    && (forall j :: i <= j < |Offsets| ==> t.due.value - Offsets[j] * HourMs > now)
  }

  /** The offsets that get an alarm are a suffix of 24, 12, 3, 1. With one
      hour or less to go there is no alarm at all. */
  lemma {:induction false} PlanSuffix(t: Task, now: int)
    requires t.due.Some? && t.due.value - now > 60_000
    ensures exists i :: SuffixFrom(t, now, i)
    ensures t.due.value - now <= HourMs ==> PlanFor(t, now).alarms == []
  {
    var due := t.due.value;
    var key := AlarmKey(t, due);
    OffsetAlarmsOfOffsets(key, due, now);
    assert Offsets[1..] == [12, 3, 1] && Offsets[2..] == [3, 1] && Offsets[3..] == [1] && Offsets[4..] == [];
    assert [12, 3, 1][1..] == [3, 1] && [3, 1][1..] == [1] && [1][1..] == [];
    assert OffsetAlarms(key, due, now, [1]) == Lead(key, due, now, 1);
    assert OffsetAlarms(key, due, now, [3, 1]) == Lead(key, due, now, 3) + Lead(key, due, now, 1);
    assert OffsetAlarms(key, due, now, [12, 3, 1]) == Lead(key, due, now, 12) + Lead(key, due, now, 3) + Lead(key, due, now, 1);
    if due - 24 * HourMs > now {
      assert SuffixFrom(t, now, 0);
    } else if due - 12 * HourMs > now {
      assert SuffixFrom(t, now, 1);
    } else if due - 3 * HourMs > now {
      assert SuffixFrom(t, now, 2);
    } else if due - HourMs > now {
      assert SuffixFrom(t, now, 3);
    } else {
      assert SuffixFrom(t, now, 4);
    }
  }

  /** The examples of a deadline 30 hours, 2 hours, 30 minutes and minus one
      minute away. */
  lemma PlanExamples(t: Task, now: int)
    ensures t.due == Some(now + 30 * HourMs) ==>
      var key := AlarmKey(t, now + 30 * HourMs);
      PlanFor(t, now) == Alarms([
        (AlarmName(key, 24), now + 6 * HourMs), (AlarmName(key, 12), now + 18 * HourMs),
        (AlarmName(key, 3), now + 27 * HourMs), (AlarmName(key, 1), now + 29 * HourMs)])
    ensures t.due == Some(now + 2 * HourMs) ==>
      PlanFor(t, now) == Alarms([(AlarmName(AlarmKey(t, now + 2 * HourMs), 1), now + HourMs)])
    ensures t.due == Some(now + 30 * MinuteMs) ==> PlanFor(t, now) == Alarms([])
    ensures t.due == Some(now - MinuteMs) ==> PlanFor(t, now) == Skip
  {
    if t.due.Some? {
      OffsetAlarmsOfOffsets(AlarmKey(t, t.due.value), t.due.value, now);
    }
  }

  /** All of a task's alarms carry its key: the name decodes back to the key
      (less a leading byte order mark, which TextDecoder drops) and ends in
      the offset. */
  lemma PlanNamesCarryKey(t: Task, now: int, a: (string, int))
    requires PlanFor(t, now).Alarms? && a in PlanFor(t, now).alarms
    ensures exists h :: h in Offsets && MatchAlarmName(a.0) == Some((Token(AlarmKey(t, t.due.value)), NatToString(h)))
    ensures KeyOf(MatchAlarmName(a.0).value.0) == Some(Utf8.StripBom(AlarmKey(t, t.due.value)))
    ensures a.1 > now
  {
    PlanAlarms(t, now, a);
    var key := AlarmKey(t, t.due.value);
    var h :| h in Offsets && t.due.value - h * HourMs > now && a == (AlarmName(key, h), t.due.value - h * HourMs);
    MatchAlarmNameOfAlarmName(key, h);
    KeyOfToken(key);
  }

  // -------------------------------------------------- the alarm registry

  /** The alarms in `alarms` created one after another into m. */
  function Register(m: map<string, int>, alarms: seq<(string, int)>): map<string, int>
  {
    if alarms == [] then m
    else
      var last := alarms[|alarms| - 1];
      Register(m, alarms[..|alarms| - 1])[last.0 := last.1]
  }

  lemma {:induction false} RegisterKeys(m: map<string, int>, alarms: seq<(string, int)>, n: string)
    ensures n in Register(m, alarms) <==> n in m || exists a :: a in alarms && a.0 == n
    ensures (forall a :: a in alarms ==> a.0 != n) && n in m ==> Register(m, alarms)[n] == m[n]
    decreases |alarms|
  {
    if alarms != [] {
      var init := alarms[..|alarms| - 1];
      RegisterKeys(m, init, n);
      assert alarms == init + [alarms[|alarms| - 1]];
    }
  }

  /** What chrome.alarms holds: alarm name to fire time. */
  class AlarmRegistry {
    var alarms: map<string, int>

    constructor (initial: map<string, int>)
      ensures alarms == initial
    {
      alarms := initial;
    }

    /** chrome.alarms.create: a new alarm of an existing name replaces it. */
    method Create(name: string, when: int)
      modifies this
      ensures alarms == old(alarms)[name := when]
    {
      alarms := alarms[name := when];
    }

    /** chrome.alarms.clear, reporting whether there was such an alarm. */
    method Clear(name: string) returns (wasCleared: bool)
      modifies this
      ensures wasCleared == (name in old(alarms))
      ensures alarms == old(alarms) - {name}
    {
      wasCleared := name in alarms;
      alarms := alarms - {name};
    }
  }

  lemma {:induction false} RegisterAppend(m: map<string, int>, a: seq<(string, int)>, b: seq<(string, int)>)
    ensures Register(m, a + b) == Register(Register(m, a), b)
    decreases |b|
  {
    if b == [] {
      assert a + b == a;
    } else {
      var init := b[..|b| - 1];
      RegisterAppend(m, a, init);
      assert (a + b)[..|a + b| - 1] == a + init;
    }
  }

  /** One pass of the offsets loop: the alarm for `hours` ahead of the
      deadline, created when its fire time is still ahead. */
  method CreateLeadAlarm(registry: AlarmRegistry, task: Task, dueTime: int, hours: nat, now: int)
      returns (created: bool)
    modifies registry
    ensures registry.alarms == Register(old(registry.alarms), Lead(AlarmKey(task, dueTime), dueTime, now, hours))
    ensures created <==> Lead(AlarmKey(task, dueTime), dueTime, now, hours) != []
  {
    var when := dueTime - hours * HourMs;
    created := false;
    if when > now {
      var alarmKey := if task.url != "" then task.url
        else if task.title != "" then task.title
        else IntToString(dueTime);
      var token := EncodeBase64(alarmKey);
      var alarmName := NotifyPrefix + token + "-" + NatToString(hours);
      registry.Create(alarmName, when);
      created := true;
    }
  }

  /** scheduleNotifications(task): the immediate notification it requests,
      if any, and whether it created any alarm. */
  method ScheduleNotifications(registry: AlarmRegistry, task: Task, now: int)
      returns (notices: seq<Notice>, scheduled: bool)
    modifies registry
    ensures registry.alarms == (match PlanFor(task, now)
      case Alarms(alarms) => Register(old(registry.alarms), alarms)
      case _ => old(registry.alarms))
    ensures notices == if PlanFor(task, now) == Immediate then [Notice(task, 0)] else []
    ensures scheduled <==> PlanFor(task, now).Alarms? && PlanFor(task, now).alarms != []
  {
    notices, scheduled := [], false;
    if task.due.None? {
      return;
    }
    var dueTime := task.due.value;
    if dueTime <= now {
      return;
    }
    if dueTime - now <= ImmediateThresholdMs {
      notices := [Notice(task, 0)];
      return;
    }
    ghost var key := AlarmKey(task, dueTime);
    for i := 0 to |Offsets|
      invariant registry.alarms == Register(old(registry.alarms), OffsetAlarms(key, dueTime, now, Offsets[..i]))
      invariant scheduled <==> OffsetAlarms(key, dueTime, now, Offsets[..i]) != []
    {
      var hours := Offsets[i];
      ghost var prev := OffsetAlarms(key, dueTime, now, Offsets[..i]);
      OffsetAlarmsAppend(key, dueTime, now, Offsets[..i], [hours]);
      assert Offsets[..i + 1] == Offsets[..i] + [hours];
      assert OffsetAlarms(key, dueTime, now, [hours]) == Lead(key, dueTime, now, hours) + [];
      RegisterAppend(old(registry.alarms), prev, Lead(key, dueTime, now, hours));
      var created := CreateLeadAlarm(registry, task, dueTime, hours, now);
      scheduled := scheduled || created;
    }
    assert Offsets[..|Offsets|] == Offsets;
  }

  /** The alarms scheduleNotifications creates for each task in turn. */
  function RegisterAll(m: map<string, int>, tasks: seq<Task>, now: int): map<string, int>
  {
    if tasks == [] then m
    else
      var last := tasks[|tasks| - 1];
      var m' := RegisterAll(m, tasks[..|tasks| - 1], now);
      match PlanFor(last, now)
      case Alarms(alarms) => Register(m', alarms)
      case _ => m'
  }

  /** Every alarm the tasks plan, task after task in list order. */
  function PlannedAlarms(tasks: seq<Task>, now: int): seq<(string, int)>
  {
    if tasks == [] then []
    else
      var last := tasks[|tasks| - 1];
      PlannedAlarms(tasks[..|tasks| - 1], now)
      + (match PlanFor(last, now) case Alarms(alarms) => alarms case _ => [])
  }

  /** The fire time of the last alarm named n in the list, None when no
      alarm has that name. */
  function LastWhen(alarms: seq<(string, int)>, n: string): (r: Option<int>)
    ensures r.None? <==> forall i :: 0 <= i < |alarms| ==> alarms[i].0 != n
    ensures r.Some? ==> exists i :: (0 <= i < |alarms| && alarms[i] == (n, r.value)
      && forall j :: i < j < |alarms| ==> alarms[j].0 != n)
  {
    if alarms == [] then None
    else if alarms[|alarms| - 1].0 == n then Some(alarms[|alarms| - 1].1)
    else
      var init := alarms[..|alarms| - 1];
      var r := LastWhen(init, n);
      assert r.Some? ==> exists i :: (0 <= i < |alarms| && alarms[i] == (n, r.value)
        && forall j :: i < j < |alarms| ==> alarms[j].0 != n)
        by {
          if r.Some? {
            var i :| 0 <= i < |init| && init[i] == (n, r.value)
              && forall j :: i < j < |init| ==> init[j].0 != n;
            assert alarms[i] == init[i];
            assert forall j :: i < j < |init| ==> alarms[j] == init[j];
          }
        }
      assert r.None? ==> forall i :: 0 <= i < |alarms| ==> alarms[i].0 != n
        by {
          if r.None? {
            assert forall i :: 0 <= i < |init| ==> alarms[i] == init[i];
          }
        }
      r
  }

  /** Creating alarms one after another leaves each name at the time of its
      last creation; names never created keep what they had. */
  lemma {:induction false} RegisterLast(m: map<string, int>, alarms: seq<(string, int)>, n: string)
    ensures LastWhen(alarms, n).Some? ==> n in Register(m, alarms) && Register(m, alarms)[n] == LastWhen(alarms, n).value
    ensures LastWhen(alarms, n).None? ==> (n in Register(m, alarms) <==> n in m)
    ensures LastWhen(alarms, n).None? && n in m ==> Register(m, alarms)[n] == m[n]
    decreases |alarms|
  {
    if alarms != [] {
      RegisterLast(m, alarms[..|alarms| - 1], n);
    }
  }

  /** Scheduling the tasks one after another creates their planned alarms in
      order. */
  lemma {:induction false} RegisterAllPlanned(m: map<string, int>, tasks: seq<Task>, now: int)
    ensures RegisterAll(m, tasks, now) == Register(m, PlannedAlarms(tasks, now))
    decreases |tasks|
  {
    if tasks != [] {
      var init := tasks[..|tasks| - 1];
      var last := tasks[|tasks| - 1];
      RegisterAllPlanned(m, init, now);
      var plan := PlanFor(last, now);
      if plan.Alarms? {
        assert PlannedAlarms(tasks, now) == PlannedAlarms(init, now) + plan.alarms;
        assert RegisterAll(m, tasks, now) == Register(RegisterAll(m, init, now), plan.alarms);
        RegisterAppend(m, PlannedAlarms(init, now), plan.alarms);
      } else {
        assert PlannedAlarms(tasks, now) == PlannedAlarms(init, now) + [];
        assert PlannedAlarms(init, now) + [] == PlannedAlarms(init, now);
      }
    }
  }

  /** The immediate notifications requested for a list of tasks. */
  function ImmediateNotices(tasks: seq<Task>, now: int): seq<Notice>
  {
    if tasks == [] then []
    else
      var last := tasks[|tasks| - 1];
      ImmediateNotices(tasks[..|tasks| - 1], now)
      + (if PlanFor(last, now) == Immediate then [Notice(last, 0)] else [])
  }

  /** tasks.forEach(scheduleNotifications): also what runs at start-up and
      install, over the stored tasks, without clearing anything first. */
  method ScheduleAll(registry: AlarmRegistry, tasks: seq<Task>, now: int) returns (notices: seq<Notice>)
    modifies registry
    ensures registry.alarms == RegisterAll(old(registry.alarms), tasks, now)
    ensures notices == ImmediateNotices(tasks, now)
  {
    notices := [];
    for i := 0 to |tasks|
      invariant registry.alarms == RegisterAll(old(registry.alarms), tasks[..i], now)
      invariant notices == ImmediateNotices(tasks[..i], now)
    {
      assert tasks[..i + 1][..i] == tasks[..i];
      var more, _ := ScheduleNotifications(registry, tasks[i], now);
      notices := notices + more;
    }
    assert tasks[..|tasks|] == tasks;
  }

  /** The alarms whose names do not start with `notify-`, such as gmailSync. */
  function WithoutNotifyAlarms(m: map<string, int>): map<string, int>
  {
    map n | n in m && !(NotifyPrefix <= n) :: m[n]
  }

  /** Removing every `notify-` name leaves WithoutNotifyAlarms. */
  lemma WithoutNotifyAlarmsRemoves(m: map<string, int>, names: set<string>)
    requires names == set n | n in m && NotifyPrefix <= n
    ensures m - names == WithoutNotifyAlarms(m)
  {
    var r := m - names;
    forall n | n in r ensures n in WithoutNotifyAlarms(m) && r[n] == WithoutNotifyAlarms(m)[n] { }
    forall n | n in WithoutNotifyAlarms(m) ensures n in r { }
  }

  /** The registry after the storage.onChanged handler: every `notify-` alarm
      cleared, then every task scheduled again. */
  function Rescheduled(m: map<string, int>, tasks: seq<Task>, now: int): map<string, int>
  {
    RegisterAll(WithoutNotifyAlarms(m), tasks, now)
  }

  /** The storage.onChanged handler for a new task list: phase one clears all
      `notify-` alarms and counts the clears, phase two schedules every task
      once the count is complete. */
  method OnTasksChanged(registry: AlarmRegistry, newTasks: seq<Task>, now: int) returns (notices: seq<Notice>)
    modifies registry
    ensures registry.alarms == Rescheduled(old(registry.alarms), newTasks, now)
    ensures notices == ImmediateNotices(newTasks, now)
  {
    var notifyAlarms := set n | n in registry.alarms && NotifyPrefix <= n;
    var pending := notifyAlarms;
    var cleared := 0;
    while pending != {}
      invariant pending <= notifyAlarms
      invariant registry.alarms == old(registry.alarms) - (notifyAlarms - pending)
      invariant cleared + |pending| == |notifyAlarms|
      decreases |pending|
    {
      var name :| name in pending;
      var _ := registry.Clear(name);
      pending := pending - {name};
      cleared := cleared + 1;
    }
    assert cleared == |notifyAlarms|;
    assert notifyAlarms - pending == notifyAlarms;
    WithoutNotifyAlarmsRemoves(old(registry.alarms), notifyAlarms);
    assert registry.alarms == WithoutNotifyAlarms(old(registry.alarms));
    notices := ScheduleAll(registry, newTasks, now);
  }

  // -------------------------------------------------- re-registration

  lemma {:induction false} RegisterAllKeys(m: map<string, int>, tasks: seq<Task>, now: int, n: string)
    ensures n in RegisterAll(m, tasks, now) <==>
      n in m || exists t, a :: t in tasks && PlanFor(t, now).Alarms? && a in PlanFor(t, now).alarms && a.0 == n
    ensures !(NotifyPrefix <= n) && n in m ==> RegisterAll(m, tasks, now)[n] == m[n]
    decreases |tasks|
  {
    if tasks != [] {
      var init := tasks[..|tasks| - 1];
      var last := tasks[|tasks| - 1];
      RegisterAllKeys(m, init, now, n);
      assert tasks == init + [last];
      if PlanFor(last, now).Alarms? {
        RegisterKeys(RegisterAll(m, init, now), PlanFor(last, now).alarms, n);
        if !(NotifyPrefix <= n) {
          forall a | a in PlanFor(last, now).alarms
            ensures a.0 != n
          {
            PlanAlarms(last, now, a);
          }
        }
      }
    }
  }

  /** Re-registration keeps every alarm that is not a reminder (gmailSync)
      with its fire time, and the reminders it leaves are exactly those
      planned for the new task list: none refers to a task that is gone.
      A reminder fires at the time planned last for its name, that is, by the
      last task in list order whose plan has that name. */
  lemma RescheduledAlarms(m: map<string, int>, tasks: seq<Task>, now: int, n: string)
    ensures !(NotifyPrefix <= n) ==>
      (n in Rescheduled(m, tasks, now) <==> n in m)
      && (n in m ==> Rescheduled(m, tasks, now)[n] == m[n])
    ensures NotifyPrefix <= n ==>
      (n in Rescheduled(m, tasks, now) <==>
        exists t, a :: t in tasks && PlanFor(t, now).Alarms? && a in PlanFor(t, now).alarms && a.0 == n)
    ensures NotifyPrefix <= n ==>
      (n in Rescheduled(m, tasks, now) <==> LastWhen(PlannedAlarms(tasks, now), n).Some?)
    ensures NotifyPrefix <= n && n in Rescheduled(m, tasks, now) ==>
      Rescheduled(m, tasks, now)[n] == LastWhen(PlannedAlarms(tasks, now), n).value
  {
    RegisterAllKeys(WithoutNotifyAlarms(m), tasks, now, n);
    RegisterAllPlanned(WithoutNotifyAlarms(m), tasks, now);
    RegisterLast(WithoutNotifyAlarms(m), PlannedAlarms(tasks, now), n);
    if !(NotifyPrefix <= n) {
      forall t, a | t in tasks && PlanFor(t, now).Alarms? && a in PlanFor(t, now).alarms
        ensures a.0 != n
      {
        PlanAlarms(t, now, a);
      }
    }
  }

  /** Running the re-registration twice gives what running it once gives. */
  lemma RescheduledIdempotent(m: map<string, int>, tasks: seq<Task>, now: int)
    ensures Rescheduled(Rescheduled(m, tasks, now), tasks, now) == Rescheduled(m, tasks, now)
  {
    var once := Rescheduled(m, tasks, now);
    forall n | n in WithoutNotifyAlarms(once) || n in WithoutNotifyAlarms(m)
      ensures n in WithoutNotifyAlarms(once) && n in WithoutNotifyAlarms(m)
      ensures WithoutNotifyAlarms(once)[n] == WithoutNotifyAlarms(m)[n]
    {
      RescheduledAlarms(m, tasks, now, n);
    }
    assert WithoutNotifyAlarms(once) == WithoutNotifyAlarms(m);
  }

  // -------------------------------------------------- dispatch

  /** (data.tasks || []).find(t => t.url === url) */
  function FindByUrl(tasks: seq<Task>, url: string): (r: Option<Task>)
    ensures r.Some? ==> r.value in tasks && r.value.url == url
    ensures r.Some? ==> exists i :: (0 <= i < |tasks| && tasks[i] == r.value
      && forall j :: 0 <= j < i ==> tasks[j].url != url)
    ensures r.None? <==> forall t :: t in tasks ==> t.url != url
  {
    if tasks == [] then None
    else if tasks[0].url == url then Some(tasks[0])
    else
      var r := FindByUrl(tasks[1..], url);
      assert r.Some? ==> exists i :: (1 <= i < |tasks| && tasks[i] == r.value
        && forall j :: 0 <= j < i ==> tasks[j].url != url)
        by {
          if r.Some? {
            var i :| 0 <= i < |tasks[1..]| && tasks[1..][i] == r.value
              && forall j :: 0 <= j < i ==> tasks[1..][j].url != url;
            assert tasks[i + 1] == r.value;
          }
        }
      assert forall t :: t in tasks[1..] ==> t in tasks;
      r
  }

  /** The onAlarm listener for a fired alarm: the notification it requests
      for the stored tasks, or None when the name is not a reminder, does not
      match, its token does not decode, or no stored task has the decoded url. */
  function OnAlarm(name: string, tasks: seq<Task>): Option<Notice>
  {
    if !(NotifyPrefix <= name) then None
    else
      match MatchAlarmName(name)
      case None => None
      case Some((token, digits)) =>
        match KeyOf(token)
        case None => None
        case Some(url) =>
          match FindByUrl(tasks, url)
          case None => None
          case Some(t) => Some(Notice(t, DigitsValue(digits)))
  }

  /** A reminder fires for a key exactly when some stored task has that key
      (less a leading byte order mark) as its url; it is then the first such
      task, announced with the alarm's offset. A task scheduled under its
      title or deadline (no url) is never found. */
  lemma OnAlarmOfAlarmName(key: string, hours: nat, tasks: seq<Task>)
    ensures OnAlarm(AlarmName(key, hours), tasks).Some? <==> exists t :: t in tasks && t.url == Utf8.StripBom(key)
    ensures OnAlarm(AlarmName(key, hours), tasks).Some? ==>
      OnAlarm(AlarmName(key, hours), tasks).value == Notice(FindByUrl(tasks, Utf8.StripBom(key)).value, hours)
  {
    MatchAlarmNameOfAlarmName(key, hours);
    KeyOfToken(key);
    NatToStringRoundTrip(hours);
  }

  /** The loss: a task whose url starts with a byte order mark is scheduled
      under that url but never found when its reminder fires, unless another
      task has the url without the mark. */
  lemma OnAlarmMissesBomUrl(t: Task, hours: nat, tasks: seq<Task>)
    requires t in tasks && t.url != [] && t.url[0] == Utf8.Bom
    requires forall u :: u in tasks ==> u.url != t.url[1..]
    ensures OnAlarm(AlarmName(t.url, hours), tasks) == None
  {
    OnAlarmOfAlarmName(t.url, hours, tasks);
  }

  /** The periodic mail-sync alarm never produces a reminder. */
  lemma OnAlarmIgnoresGmailSync(tasks: seq<Task>)
    ensures OnAlarm("gmailSync", tasks) == None
  {
  }
}
