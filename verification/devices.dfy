/**
 The hub's collaborators, kept to what the hub itself uses. A device is an
 identity and a power flag; a scheduled task is the id of the device it was
 scheduled for, a time and a command; a trigger is a condition and an action;
 the trigger manager is the ordered list of triggers added so far.
 */
module Devices {

  /** A registered device: its identity and whether it is powered on. */
  datatype Device = Device(id: string, powered: bool)

  /** The device's power transition to on; its identity is kept. */
  function TurnOn(d: Device): (r: Device)
    ensures r.id == d.id && r.powered
  {
    d.(powered := true)
  }

  /** The device's power transition to off; its identity is kept. */
  function TurnOff(d: Device): (r: Device)
    ensures r.id == d.id && !r.powered
  {
    d.(powered := false)
  }

  /** A stored schedule request; nothing ever executes it. */
  datatype ScheduledTask = ScheduledTask(deviceId: string, time: string, command: string)

  /** A stored condition/action rule; nothing ever evaluates it. */
  datatype Trigger = Trigger(condition: string, action: string)

  /** The trigger store: triggers in the order they were added. */
  datatype TriggerManager = TriggerManager(triggers: seq<Trigger>)

  /** The trigger manager's `addTrigger`: stores `t` after every trigger already stored. */
  function StoreTrigger(m: TriggerManager, t: Trigger): (r: TriggerManager)
    ensures |r.triggers| == |m.triggers| + 1
    ensures r.triggers[..|m.triggers|] == m.triggers && r.triggers[|m.triggers|] == t
  {
    TriggerManager(m.triggers + [t])
  }
}
