/**
 Concrete operator sessions: sequences of hub operations on a fresh hub and
 the exact lines the reports print afterwards.
 */
module Scenarios {
  import opened Strings
  import opened Devices
  import opened SmartHomeHub
  import opened Reports

  /** A fresh hub prints an empty status text and two empty lists. */
  lemma FreshHubReports(order: seq<string>, status: Device -> string)
    requires Enumerates(NewHub().devices, order)
    ensures ShowStatus(NewHub(), order, status) == "Status Report: \"\""
    ensures ShowScheduledTasks(NewHub()) == "Scheduled Tasks: \"[]\""
    ensures ShowTriggers(NewHub()) == "Automated Triggers: \"[]\""
  {
  }

  /** add L1, schedule L1 at 08:00 to "Turn On", then tasks: one record, no trailing comma. */
  lemma ScheduleOneTask()
    ensures var h := SetSchedule(AddDevice(NewHub(), Device("L1", false)), "L1", "08:00", "Turn On");
            ShowScheduledTasks(h) == "Scheduled Tasks: \"[" + "{device: L1, time: \"08:00\", command: \"Turn On\"}" + "]\""
  {
    var h := SetSchedule(AddDevice(NewHub(), Device("L1", false)), "L1", "08:00", "Turn On");
    var t := ScheduledTask("L1", "08:00", "Turn On");
    assert h.tasks == [t];
    assert TaskRecords(h.tasks) == [TaskRecord(t)];
    MorningTaskRecord();
    var rec := "{device: L1, time: \"08:00\", command: \"Turn On\"}";
    assert Join(", ", [rec]) == rec;
  }

  lemma MorningTaskRecord()
    ensures TaskRecord(ScheduledTask("L1", "08:00", "Turn On")) == "{device: L1, time: \"08:00\", command: \"Turn On\"}"
  {
  }

  /** Scheduling for an id that was never added leaves the task list empty. */
  lemma ScheduleUnknownDevice()
    ensures var h := SetSchedule(AddDevice(NewHub(), Device("L1", false)), "L2", "08:00", "Turn On");
            h.tasks == [] && ShowScheduledTasks(h) == "Scheduled Tasks: \"[]\""
  {
  }

  /** Two triggers are reported in the order they were added, comma-separated. */
  lemma TwoTriggersInOrder()
    ensures var h := AddTrigger(AddTrigger(NewHub(), "temp > 75", "turnOff(T1)"), "motion", "turnOn(L1)");
            ShowTriggers(h)
            == "Automated Triggers: \"["
               + "{condition: \"temp > 75\", action: \"turnOff(T1)\"}" + ", "
               + "{condition: \"motion\", action: \"turnOn(L1)\"}" + "]\""
  {
    var h := AddTrigger(AddTrigger(NewHub(), "temp > 75", "turnOff(T1)"), "motion", "turnOn(L1)");
    var r1 := "{condition: \"temp > 75\", action: \"turnOff(T1)\"}";
    var r2 := "{condition: \"motion\", action: \"turnOn(L1)\"}";
    TwoTriggerRecords(h, r1, r2);
    assert Join(", ", [r1, r2]) == r1 + ", " + r2;
  }

  lemma TwoTriggerRecords(h: Hub, r1: string, r2: string)
    requires h == AddTrigger(AddTrigger(NewHub(), "temp > 75", "turnOff(T1)"), "motion", "turnOn(L1)")
    requires r1 == "{condition: \"temp > 75\", action: \"turnOff(T1)\"}"
    requires r2 == "{condition: \"motion\", action: \"turnOn(L1)\"}"
    ensures TriggerRecords(h.Triggers()) == [r1, r2]
  {
    var t1 := Trigger("temp > 75", "turnOff(T1)");
    var t2 := Trigger("motion", "turnOn(L1)");
    assert h.Triggers() == [t1, t2];
    assert TriggerRecords([t1, t2]) == [TriggerRecord(t1), TriggerRecord(t2)];
    HeatRuleRecord();
    MotionRuleRecord();
  }

  lemma HeatRuleRecord()
    ensures TriggerRecord(Trigger("temp > 75", "turnOff(T1)"))
            == "{condition: \"temp > 75\", action: \"turnOff(T1)\"}"
  {
  }

  lemma MotionRuleRecord()
    ensures TriggerRecord(Trigger("motion", "turnOn(L1)")) == "{condition: \"motion\", action: \"turnOn(L1)\"}"
  {
  }

  /** add L1, turnOn L1, then status: the only enumeration is L1 itself, and the
      text is the status of the switched-on L1 followed by ". ", trimmed. */
  lemma TurnOnThenStatus(order: seq<string>, status: Device -> string)
    requires Enumerates(TurnOnDevice(AddDevice(NewHub(), Device("L1", false)), "L1").devices, order)
    ensures order == ["L1"]
    ensures StatusText(TurnOnDevice(AddDevice(NewHub(), Device("L1", false)), "L1"), order, status)
            == Trim(status(Device("L1", true)) + ". ")
  {
    var h := TurnOnDevice(AddDevice(NewHub(), Device("L1", false)), "L1");
    assert h.devices == map["L1" := Device("L1", true)];
    EnumerationLength(h.devices, order);
    assert order[0] in h.devices;
    assert order == ["L1"];
    var st := status(Device("L1", true));
    assert Statuses(h.devices, order, status) == [st];
    assert Terminated(". ", [st]) == st + ". ";
  }

  /** A device added and then removed is gone: switching it on changes nothing and
      no enumeration of the registry lists it, so the status text leaves it out. */
  lemma AddRemoveThenTurnOn(h: Hub, d: Device, order: seq<string>)
    requires Enumerates(RemoveDevice(AddDevice(h, d), d.id).devices, order)
    ensures var g := RemoveDevice(AddDevice(h, d), d.id);
            TurnOnDevice(g, d.id) == g && d.id !in order
  {
  }
}
