/**
 The hub's three reports, returned as the lines the hub prints. The task and
 trigger reports open a builder with "[", append every record followed by
 ", ", cut the last two characters when at least one record was appended,
 and close with "]". The status report appends every device's status and
 ". " and trims the result; devices are visited in the map's iteration order,
 which is supplied by the caller.
 */
module Reports {
  import opened Strings
  import opened Devices
  import opened SmartHomeHub

  /* ---------------- bracketed lists ---------------- */

  /** The builder's contents once every record and its trailing ", " has been appended. */
  function Builder(records: seq<string>): (r: string)
    ensures |r| > 0 && r[0] == '['
    ensures |records| > 0 ==> |r| >= 3 && r[|r| - 2..] == ", "
    ensures |records| == 0 ==> r == "["
  {
    "[" + Terminated(", ", records)
  }

  /** The bracketed list as the hub renders it: the dangling ", " is cut only
      when there is one, and the list is closed with "]". */
  function Bracketed(records: seq<string>): (r: string)
    ensures |r| >= 2 && r[0] == '[' && r[|r| - 1] == ']'
  {
    var b := Builder(records);
    (if |records| > 0 then b[..|b| - 2] else b) + "]"
  }

  /** Cutting the dangling ", " yields the clean comma-join between brackets:
      "[]" for no records, and never a trailing ", ". */
  lemma {:induction false} BracketedIsJoin(records: seq<string>)
    ensures Bracketed(records) == "[" + Join(", ", records) + "]"
  {
    if |records| > 0 {
      var b := Builder(records);
      TerminatedIsJoin(", ", records);
      assert b[..|b| - 2] == "[" + Join(", ", records);
    }
  }

  /** One more record at the end of a bracketed list: the closing "]" gives way
      to ", ", the record and a new "]"; everything before stays in place. */
  lemma BracketedSnoc(records: seq<string>, last: string)
    ensures var before := Bracketed(records);
            Bracketed(records + [last])
            == if |records| == 0 then "[" + last + "]" else before[..|before| - 1] + ", " + last + "]"
  {
    BracketedIsJoin(records);
    BracketedIsJoin(records + [last]);
    if |records| == 0 {
      assert records + [last] == [last];
    } else {
      JoinSnoc(", ", records, last);
      ReopenClosed(Join(", ", records), last);
    }
  }

  /** Reopening "[" + j + "]" to append `last` is the same as closing j + ", " + last. */
  lemma ReopenClosed(j: string, last: string)
    ensures var o := "[" + j + "]";
            "[" + (j + ", " + last) + "]" == o[..|o| - 1] + ", " + last + "]"
  {
    var o := "[" + j + "]";
    assert o[..|o| - 1] == "[" + j;
  }

  /* ---------------- scheduled tasks ---------------- */

  /** One task as the task report writes it. */
  function TaskRecord(t: ScheduledTask): string
  {
    "{device: " + t.deviceId + ", time: \"" + t.time + "\", command: \"" + t.command + "\"}"
  }

  function TaskRecords(tasks: seq<ScheduledTask>): seq<string>
  {
    seq(|tasks|, i requires 0 <= i < |tasks| => TaskRecord(tasks[i]))
  }

  /** The scheduled-task list as printed: the records of all tasks, in the order
      they were scheduled, comma-separated between brackets. */
  function ShowScheduledTasks(h: Hub): (r: string)
    ensures r == "Scheduled Tasks: \"[" + Join(", ", TaskRecords(h.tasks)) + "]\""
    ensures |h.tasks| == 0 ==> r == "Scheduled Tasks: \"[]\""
  {
    BracketedIsJoin(TaskRecords(h.tasks));
    "Scheduled Tasks: \"" + Bracketed(TaskRecords(h.tasks)) + "\""
  }

  /* ---------------- triggers ---------------- */

  /** One trigger as the trigger report writes it. */
  function TriggerRecord(t: Trigger): string
  {
    "{condition: \"" + t.condition + "\", action: \"" + t.action + "\"}"
  }

  function TriggerRecords(triggers: seq<Trigger>): seq<string>
  {
    seq(|triggers|, i requires 0 <= i < |triggers| => TriggerRecord(triggers[i]))
  }

  /** The trigger list as printed: the records of all triggers, in insertion
      order, comma-separated between brackets. */
  function ShowTriggers(h: Hub): (r: string)
    ensures r == "Automated Triggers: \"[" + Join(", ", TriggerRecords(h.Triggers())) + "]\""
    ensures |h.Triggers()| == 0 ==> r == "Automated Triggers: \"[]\""
  {
    BracketedIsJoin(TriggerRecords(h.Triggers()));
    "Automated Triggers: \"" + Bracketed(TriggerRecords(h.Triggers())) + "\""
  }

  /* ---------------- reports across operations ---------------- */

  /** A printed line `prefix + list + "\""` whose list grows by one record. */
  lemma PrintedSnoc(prefix: string, list: string, list': string, rec: string)
    requires |list| > 0
    requires list' == list[..|list| - 1] + ", " + rec + "]"
    ensures var line := prefix + list + "\"";
            prefix + list' + "\"" == line[..|line| - 2] + ", " + rec + "]\""
  {
    var line := prefix + list + "\"";
    assert line[..|line| - 2] == prefix + list[..|list| - 1];
  }

  /** A new trigger shows up last in the trigger report, after every earlier one. */
  lemma ShowTriggersAfterAddTrigger(h: Hub, condition: string, action: string)
    ensures var before := ShowTriggers(h);
            var rec := TriggerRecord(Trigger(condition, action));
            ShowTriggers(AddTrigger(h, condition, action))
            == if |h.Triggers()| == 0 then "Automated Triggers: \"[" + rec + "]\""
               else before[..|before| - 2] + ", " + rec + "]\""
  {
    var g := AddTrigger(h, condition, action);
    var rec := TriggerRecord(Trigger(condition, action));
    var recs := TriggerRecords(h.Triggers());
    assert TriggerRecords(g.Triggers()) == recs + [rec] by {
      assert g.Triggers() == h.Triggers() + [Trigger(condition, action)];
    }
    BracketedSnoc(recs, rec);
    if |recs| > 0 {
      PrintedSnoc("Automated Triggers: \"", Bracketed(recs), Bracketed(recs + [rec]), rec);
    }
  }

  /** A schedule accepted for a registered id shows up last in the task report;
      one for an unknown id leaves the report as it was. */
  lemma ShowScheduledTasksAfterSetSchedule(h: Hub, id: string, time: string, command: string)
    requires Valid(h)
    ensures var before := ShowScheduledTasks(h);
            var rec := TaskRecord(ScheduledTask(id, time, command));
            ShowScheduledTasks(SetSchedule(h, id, time, command))
            == if id !in h.devices then before
               else if |h.tasks| == 0 then "Scheduled Tasks: \"[" + rec + "]\""
               else before[..|before| - 2] + ", " + rec + "]\""
  {
    if id in h.devices {
      var g := SetSchedule(h, id, time, command);
      var rec := TaskRecord(ScheduledTask(id, time, command));
      var recs := TaskRecords(h.tasks);
      assert TaskRecords(g.tasks) == recs + [rec] by {
        ScheduleNamesRequestedId(h, id, time, command);
      }
      BracketedSnoc(recs, rec);
      if |recs| > 0 {
        PrintedSnoc("Scheduled Tasks: \"", Bracketed(recs), Bracketed(recs + [rec]), rec);
      }
    }
  }

  /** Removing a device does not touch the task report: tasks scheduled for it are still listed. */
  lemma RemoveDeviceKeepsTaskReport(h: Hub, id: string)
    ensures ShowScheduledTasks(RemoveDevice(h, id)) == ShowScheduledTasks(h)
    ensures ShowTriggers(RemoveDevice(h, id)) == ShowTriggers(h)
  {
  }

  /** Triggers added one after another from a fresh hub are reported in that order. */
  lemma ShowTriggersInInsertionOrder(rules: seq<Trigger>)
    ensures ShowTriggers(AddTriggers(NewHub(), rules))
            == "Automated Triggers: \"[" + Join(", ", TriggerRecords(rules)) + "]\""
  {
    AddTriggersInOrder(NewHub(), rules);
    assert NewHub().Triggers() + rules == rules;
  }

  /* ---------------- records read back unambiguously ---------------- */

  /** The last field of a record, `key` then the value then a closing quote and brace, determines the value. */
  lemma LastFieldInjective(key: string, v1: string, v2: string)
    requires key + v1 + "\"}" == key + v2 + "\"}"
    ensures v1 == v2
  {
    assert key + v1 + "\"}" == key + (v1 + "\"}");
    assert key + v2 + "\"}" == key + (v2 + "\"}");
    CancelPrefix(key, v1 + "\"}", v2 + "\"}");
    CancelSuffix(v1, v2, "\"}");
  }

  /** Two triggers whose conditions hold no quote are written alike only if they are the same trigger. */
  lemma TriggerRecordInjective(t1: Trigger, t2: Trigger)
    requires '"' !in t1.condition && '"' !in t2.condition
    requires TriggerRecord(t1) == TriggerRecord(t2)
    ensures t1 == t2
  {
    var tail1 := ", action: \"" + t1.action + "\"}";
    var tail2 := ", action: \"" + t2.action + "\"}";
    assert TriggerRecord(t1) == "{condition: \"" + (t1.condition + "\"" + tail1);
    assert TriggerRecord(t2) == "{condition: \"" + (t2.condition + "\"" + tail2);
    CancelPrefix("{condition: \"", t1.condition + "\"" + tail1, t2.condition + "\"" + tail2);
    SplitAtFirstQuote(t1.condition, tail1, t2.condition, tail2);
    LastFieldInjective(", action: \"", t1.action, t2.action);
  }

  /** After the device id, a task record's quote-free time and its command are read back uniquely. */
  lemma TaskTailInjective(time1: string, command1: string, time2: string, command2: string)
    requires '"' !in time1 && '"' !in time2
    requires time1 + "\"" + (", command: \"" + command1 + "\"}") == time2 + "\"" + (", command: \"" + command2 + "\"}")
    ensures time1 == time2 && command1 == command2
  {
    SplitAtFirstQuote(time1, ", command: \"" + command1 + "\"}", time2, ", command: \"" + command2 + "\"}");
    LastFieldInjective(", command: \"", command1, command2);
  }

  /** A task record regrouped around the quote that opens its time. */
  lemma TaskRecordShape(t: ScheduledTask)
    ensures TaskRecord(t)
            == "{device: " + ((t.deviceId + ", time: ") + "\"" + (t.time + "\"" + (", command: \"" + t.command + "\"}")))
  {
  }

  /** Two tasks whose device ids and times hold no quote are written alike only if they are the same task. */
  lemma TaskRecordInjective(t1: ScheduledTask, t2: ScheduledTask)
    requires '"' !in t1.deviceId && '"' !in t2.deviceId
    requires '"' !in t1.time && '"' !in t2.time
    requires TaskRecord(t1) == TaskRecord(t2)
    ensures t1 == t2
  {
    var rest1 := t1.time + "\"" + (", command: \"" + t1.command + "\"}");
    var rest2 := t2.time + "\"" + (", command: \"" + t2.command + "\"}");
    var id1 := t1.deviceId + ", time: ";
    var id2 := t2.deviceId + ", time: ";
    TaskRecordShape(t1);
    TaskRecordShape(t2);
    CancelPrefix("{device: ", id1 + "\"" + rest1, id2 + "\"" + rest2);
    assert '"' !in id1 && '"' !in id2;
    SplitAtFirstQuote(id1, rest1, id2, rest2);
    CancelSuffix(t1.deviceId, t2.deviceId, ", time: ");
    TaskTailInjective(t1.time, t1.command, t2.time, t2.command);
  }

  /* ---------------- status ---------------- */

  /** `order` lists every registered id exactly once: what iterating the device map yields. */
  predicate Enumerates(devices: map<string, Device>, order: seq<string>)
  {
    && (forall i, j :: 0 <= i < j < |order| ==> order[i] != order[j])
    && (forall i :: 0 <= i < |order| ==> order[i] in devices)
    && (forall k :: k in devices ==> k in order)
  }

  /** The statuses of the devices listed in `order`, in that order. */
  function Statuses(devices: map<string, Device>, order: seq<string>, status: Device -> string): seq<string>
    requires forall i :: 0 <= i < |order| ==> order[i] in devices
  {
    seq(|order|, i requires 0 <= i < |order| => status(devices[order[i]]))
  }

  /** The trimmed status text: each device's status followed by ". ", trimmed. */
  function StatusText(h: Hub, order: seq<string>, status: Device -> string): (r: string)
    requires Enumerates(h.devices, order)
    ensures |h.devices| == 0 ==> r == ""
    ensures |h.devices| > 0 ==> |r| > 0 && r[|r| - 1] == '.'
    ensures |h.devices| > 0 ==> r == TrimStart(Join(". ", Statuses(h.devices, order, status)) + ".")
  {
    var statuses := Statuses(h.devices, order, status);
    EnumerationLength(h.devices, order);
    var r := Trim(Terminated(". ", statuses));
    assert |statuses| > 0 ==> |r| > 0 && r[|r| - 1] == '.' && r == TrimStart(Join(". ", statuses) + ".") by {
      if |statuses| > 0 { TrimmedStatuses(statuses); }
    }
    r
  }

  /** Trimming statuses that each end in ". " drops the final space and nothing
      else at the back, so the text ends in the last status's ".". */
  lemma TrimmedStatuses(statuses: seq<string>)
    requires |statuses| > 0
    ensures var r := Trim(Terminated(". ", statuses));
            |r| > 0 && r[|r| - 1] == '.' && r == TrimStart(Join(". ", statuses) + ".")
  {
    TerminatedIsJoin(". ", statuses);
    var j := Join(". ", statuses);
    assert j + ". " == (j + ".") + [' '];
    TrimEndDropsTrimmable(j + ".", ' ');
    assert TrimEnd(j + ".") == j + ".";
  }

  /** The status line as printed. */
  function ShowStatus(h: Hub, order: seq<string>, status: Device -> string): (r: string)
    requires Enumerates(h.devices, order)
    ensures |h.devices| == 0 ==> r == "Status Report: \"\""
    ensures |h.devices| > 0 ==> r == "Status Report: \"" + TrimStart(Join(". ", Statuses(h.devices, order, status)) + ".") + "\""
  {
    var t := StatusText(h, order, status);
    "Status Report: \"" + t + "\""
  }

  /** A sequence without repeats has as many distinct elements as it has entries. */
  lemma {:induction false} DistinctCardinality(s: seq<string>)
    requires forall i, j :: 0 <= i < j < |s| ==> s[i] != s[j]
    ensures |set x | x in s| == |s|
  {
    if |s| > 0 {
      DistinctCardinality(s[1..]);
      assert (set x | x in s) == (set x | x in s[1..]) + {s[0]};
      assert s[0] !in (set x | x in s[1..]);
    }
  }

  /** An enumeration of the device map has one entry per registered device. */
  lemma EnumerationLength(devices: map<string, Device>, order: seq<string>)
    requires Enumerates(devices, order)
    ensures |order| == |devices|
  {
    DistinctCardinality(order);
    assert (set x | x in order) == devices.Keys;
  }

  /** In a sequence without repeats every element occurs once and everything else not at all. */
  lemma {:induction false} DistinctMultiplicity(s: seq<string>, x: string)
    requires forall i, j :: 0 <= i < j < |s| ==> s[i] != s[j]
    ensures multiset(s)[x] == if x in s then 1 else 0
  {
    if |s| > 0 {
      DistinctMultiplicity(s[1..], x);
      assert s == [s[0]] + s[1..];
      assert s[0] !in s[1..];
    }
  }

  /** Any two enumerations of the same device map are permutations of each other. */
  lemma EnumerationsArePermutations(devices: map<string, Device>, o1: seq<string>, o2: seq<string>)
    requires Enumerates(devices, o1) && Enumerates(devices, o2)
    ensures multiset(o1) == multiset(o2)
  {
    forall x
      ensures multiset(o1)[x] == multiset(o2)[x]
    {
      DistinctMultiplicity(o1, x);
      DistinctMultiplicity(o2, x);
    }
  }

  /** Cutting out the entry at `j` removes one occurrence of it. */
  lemma MultisetRemoveAt(s: seq<string>, j: int)
    requires 0 <= j < |s|
    ensures multiset(s[..j] + s[j + 1..]) == multiset(s) - multiset{s[j]}
  {
    assert s == s[..j] + [s[j]] + s[j + 1..];
  }

  /** The first id's status comes first, followed by the statuses of the rest. */
  lemma StatusesCons(devices: map<string, Device>, order: seq<string>, status: Device -> string)
    requires forall i :: 0 <= i < |order| ==> order[i] in devices
    requires |order| > 0
    ensures Statuses(devices, order, status)
            == [status(devices[order[0]])] + Statuses(devices, order[1..], status)
  {
    var r := [status(devices[order[0]])] + Statuses(devices, order[1..], status);
    forall i | 0 <= i < |order|
      ensures Statuses(devices, order, status)[i] == r[i]
    {
      if i > 0 { assert order[1..][i - 1] == order[i]; }
    }
  }

  /** Cutting an id out of the enumeration cuts its status out of the statuses. */
  lemma StatusesRemoveAt(devices: map<string, Device>, b: seq<string>, j: int, status: Device -> string)
    requires forall i :: 0 <= i < |b| ==> b[i] in devices
    requires 0 <= j < |b|
    ensures Statuses(devices, b[..j] + b[j + 1..], status)
            == Statuses(devices, b, status)[..j] + Statuses(devices, b, status)[j + 1..]
  {
    var b' := b[..j] + b[j + 1..];
    var l := Statuses(devices, b', status);
    var r := Statuses(devices, b, status)[..j] + Statuses(devices, b, status)[j + 1..];
    forall i | 0 <= i < |l|
      ensures l[i] == r[i]
    {
      if i < j { assert b'[i] == b[i]; } else { assert b'[i] == b[i + 1]; }
    }
  }

  /** Permuting the enumeration permutes the statuses. */
  lemma {:induction false} StatusesPermute(devices: map<string, Device>, a: seq<string>, b: seq<string>, status: Device -> string)
    requires forall i :: 0 <= i < |a| ==> a[i] in devices
    requires forall i :: 0 <= i < |b| ==> b[i] in devices
    requires multiset(a) == multiset(b)
    ensures multiset(Statuses(devices, a, status)) == multiset(Statuses(devices, b, status))
    decreases |a|
  {
    if |a| == 0 {
      assert |b| == |multiset(b)| == 0;
    } else {
      var x := a[0];
      assert x in multiset(b);
      var j :| 0 <= j < |b| && b[j] == x;
      var b' := b[..j] + b[j + 1..];
      RemoveAtStaysIn(devices, b, j, b');
      assert multiset(a[1..]) == multiset(b') by {
        MultisetRemoveAt(b, j);
        assert a == [x] + a[1..];
      }
      StatusesPermute(devices, a[1..], b', status);
      var y := status(devices[x]);
      StatusesCons(devices, a, status);
      StatusesRemoveAt(devices, b, j, status);
      MultisetRemoveAt(Statuses(devices, b, status), j);
      CancelOne(Statuses(devices, a, status), Statuses(devices, a[1..], status),
                Statuses(devices, b, status), Statuses(devices, b', status), j, y);
    }
  }

  /** Cutting out one entry keeps every remaining id registered. */
  lemma RemoveAtStaysIn(devices: map<string, Device>, b: seq<string>, j: int, b': seq<string>)
    requires forall i :: 0 <= i < |b| ==> b[i] in devices
    requires 0 <= j < |b| && b' == b[..j] + b[j + 1..]
    ensures forall i :: 0 <= i < |b'| ==> b'[i] in devices
  {
    forall i | 0 <= i < |b'|
      ensures b'[i] in devices
    {
      if i < j { assert b'[i] == b[i]; } else { assert b'[i] == b[i + 1]; }
    }
  }

  /** `y` followed by `a'` and `b` with one `y` removed: when the rests agree as
      multisets and `b` holds `y`, so do the wholes. */
  lemma CancelOne(a: seq<string>, a': seq<string>, b: seq<string>, b': seq<string>, j: int, y: string)
    requires a == [y] + a'
    requires multiset(b') == multiset(b) - multiset{y}
    requires 0 <= j < |b| && b[j] == y
    requires multiset(a') == multiset(b')
    ensures multiset(a) == multiset(b)
  {
    assert y in multiset(b);
  }

  /** The status text holds one segment per registered device, and which segments
      occur, with how many repetitions, does not depend on the iteration order. */
  lemma StatusSegmentsPerDevice(h: Hub, o1: seq<string>, o2: seq<string>, status: Device -> string)
    requires Enumerates(h.devices, o1) && Enumerates(h.devices, o2)
    ensures |Statuses(h.devices, o1, status)| == |h.devices|
    ensures forall k :: k in h.devices ==> status(h.devices[k]) in Statuses(h.devices, o1, status)
    ensures multiset(Statuses(h.devices, o1, status)) == multiset(Statuses(h.devices, o2, status))
  {
    EnumerationLength(h.devices, o1);
    EnumerationsArePermutations(h.devices, o1, o2);
    StatusesPermute(h.devices, o1, o2, status);
    var s := Statuses(h.devices, o1, status);
    forall k | k in h.devices
      ensures status(h.devices[k]) in s
    {
      var i :| 0 <= i < |o1| && o1[i] == k;
      assert s[i] == status(h.devices[k]);
    }
  }
}
