/**
 The hub's registry: a map from device id to device, the scheduled tasks in
 the order they were accepted, and the trigger manager. Every operation is a
 pure update returning the new registry; operations on an unknown id leave
 the registry as it was.
 */
module SmartHomeHub {
  import opened Devices

  datatype Hub = Hub(devices: map<string, Device>, tasks: seq<ScheduledTask>, triggerManager: TriggerManager)
  {
    /** The triggers held by the trigger manager, oldest first. */
    function Triggers(): seq<Trigger>
    {
      triggerManager.triggers
    }
  }

  /** Each device is filed under its own id: the invariant `addDevice` sets up by keying on `getId()`. */
  ghost predicate Valid(h: Hub)
  {
    forall k :: k in h.devices ==> h.devices[k].id == k
  }

  /** A freshly constructed hub: no devices, no tasks, no triggers. */
  function NewHub(): (r: Hub)
    ensures Valid(r)
    ensures |r.devices| == 0 && |r.tasks| == 0 && |r.Triggers()| == 0
  {
    Hub(map[], [], TriggerManager([]))
  }

  /** Files `d` under its id, replacing any device already filed there. */
  function AddDevice(h: Hub, d: Device): (r: Hub)
    ensures r.devices.Keys == h.devices.Keys + {d.id}
    ensures r.devices[d.id] == d
    ensures forall k :: k in h.devices && k != d.id ==> r.devices[k] == h.devices[k]
    ensures r.tasks == h.tasks && r.triggerManager == h.triggerManager
    ensures Valid(h) ==> Valid(r)
  {
    h.(devices := h.devices[d.id := d])
  }

  /** Deletes the entry for `id`; nothing happens when there is none. Tasks
      scheduled for `id` stay in the task list. */
  function RemoveDevice(h: Hub, id: string): (r: Hub)
    ensures r.devices.Keys == h.devices.Keys - {id}
    ensures forall k :: k in r.devices ==> r.devices[k] == h.devices[k]
    ensures id !in h.devices ==> r == h
    ensures r.tasks == h.tasks && r.triggerManager == h.triggerManager
    ensures Valid(h) ==> Valid(r)
  {
    h.(devices := h.devices - {id})
  }

  /** Switches on the device filed under `id`, if there is one. */
  function TurnOnDevice(h: Hub, id: string): (r: Hub)
    ensures id !in h.devices ==> r == h
    ensures id in h.devices ==> r.devices.Keys == h.devices.Keys
                                && r.devices[id].powered && r.devices[id].id == h.devices[id].id
    ensures forall k :: k in h.devices && k != id ==> r.devices[k] == h.devices[k]
    ensures r.tasks == h.tasks && r.triggerManager == h.triggerManager
    ensures Valid(h) ==> Valid(r)
  {
    if id in h.devices then h.(devices := h.devices[id := TurnOn(h.devices[id])]) else h
  }

  /** Switches off the device filed under `id`, if there is one. */
  function TurnOffDevice(h: Hub, id: string): (r: Hub)
    ensures id !in h.devices ==> r == h
    ensures id in h.devices ==> r.devices.Keys == h.devices.Keys
                                && !r.devices[id].powered && r.devices[id].id == h.devices[id].id
    ensures forall k :: k in h.devices && k != id ==> r.devices[k] == h.devices[k]
    ensures r.tasks == h.tasks && r.triggerManager == h.triggerManager
    ensures Valid(h) ==> Valid(r)
  {
    if id in h.devices then h.(devices := h.devices[id := TurnOff(h.devices[id])]) else h
  }

  /** Appends a task for the device filed under `id`; the request is dropped
      when no device is filed there. The task names the device by the id the
      device itself reports. */
  function SetSchedule(h: Hub, id: string, time: string, command: string): (r: Hub)
    ensures id in h.devices ==> r.tasks == h.tasks + [ScheduledTask(h.devices[id].id, time, command)]
    ensures id !in h.devices ==> r == h
    ensures |r.tasks| == |h.tasks| + (if id in h.devices then 1 else 0)
    ensures r.devices == h.devices && r.triggerManager == h.triggerManager
    ensures Valid(h) ==> Valid(r)
  {
    if id in h.devices then h.(tasks := h.tasks + [ScheduledTask(h.devices[id].id, time, command)]) else h
  }

  /** Hands a new trigger to the trigger manager; there is nothing to look up, so it always succeeds. */
  function AddTrigger(h: Hub, condition: string, action: string): (r: Hub)
    ensures |r.Triggers()| == |h.Triggers()| + 1
    ensures r.Triggers()[..|h.Triggers()|] == h.Triggers()
    ensures r.Triggers()[|h.Triggers()|] == Trigger(condition, action)
    ensures r.devices == h.devices && r.tasks == h.tasks
    ensures Valid(h) ==> Valid(r)
  {
    h.(triggerManager := StoreTrigger(h.triggerManager, Trigger(condition, action)))
  }

  /** In a valid registry a scheduled task names exactly the id it was scheduled under. */
  lemma ScheduleNamesRequestedId(h: Hub, id: string, time: string, command: string)
    requires Valid(h)
    requires id in h.devices
    ensures SetSchedule(h, id, time, command).tasks == h.tasks + [ScheduledTask(id, time, command)]
  {
  }

  /** Adding a device and removing it again leaves the registry as removing alone
      would: an earlier device under the same id is gone too. */
  lemma AddThenRemove(h: Hub, d: Device)
    ensures RemoveDevice(AddDevice(h, d), d.id) == RemoveDevice(h, d.id)
    ensures d.id !in h.devices ==> RemoveDevice(AddDevice(h, d), d.id) == h
  {
  }

  /** Once a device is removed, switching it on or off, or scheduling for it, changes nothing. */
  lemma RemovedDeviceIsInert(h: Hub, id: string, time: string, command: string)
    ensures var g := RemoveDevice(h, id);
            TurnOnDevice(g, id) == g && TurnOffDevice(g, id) == g && SetSchedule(g, id, time, command) == g
  {
  }

  /** Removing twice is removing once. */
  lemma RemoveIdempotent(h: Hub, id: string)
    ensures RemoveDevice(RemoveDevice(h, id), id) == RemoveDevice(h, id)
  {
  }

  /** Switching on twice is switching on once, and a later switch-off undoes an
      earlier switch-on of the same device. */
  lemma PowerTransitions(h: Hub, id: string)
    ensures TurnOnDevice(TurnOnDevice(h, id), id) == TurnOnDevice(h, id)
    ensures TurnOffDevice(TurnOnDevice(h, id), id) == TurnOffDevice(h, id)
    ensures TurnOnDevice(TurnOffDevice(h, id), id) == TurnOnDevice(h, id)
  {
  }

  /** Appends the triggers of `rules` in order, as a sequence of `addTrigger` calls would. */
  function AddTriggers(h: Hub, rules: seq<Trigger>): (r: Hub)
    ensures r.devices == h.devices && r.tasks == h.tasks
    decreases |rules|
  {
    if |rules| == 0 then h else AddTriggers(AddTrigger(h, rules[0].condition, rules[0].action), rules[1..])
  }

  /** Triggers added one after another are stored after the existing ones, in the order they were added. */
  lemma {:induction false} AddTriggersInOrder(h: Hub, rules: seq<Trigger>)
    ensures AddTriggers(h, rules).Triggers() == h.Triggers() + rules
    decreases |rules|
  {
    if |rules| > 0 {
      var g := AddTrigger(h, rules[0].condition, rules[0].action);
      AddTriggersInOrder(g, rules[1..]);
      assert g.Triggers() == h.Triggers() + [rules[0]];
      assert [rules[0]] + rules[1..] == rules;
    }
  }
}
