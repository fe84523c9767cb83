# SmartHomeHub in Dafny

A model of the registry at the centre of the `SmartHomeHub` console simulator.
The hub keeps three things:

- a map from device id to device;
- the scheduled tasks, in the order they were accepted;
- a trigger manager holding condition/action rules in insertion order.

It offers six state updates: `addDevice`, `removeDevice`, `turnOnDevice`,
`turnOffDevice`, `setSchedule` and `addTrigger`. It also has three report
printers: `showStatus`, `showScheduledTasks` and `showTriggers`.

In the model the registry is an immutable `Hub` record: a
`map<string, Device>`, a `seq<ScheduledTask>` and a `TriggerManager`
wrapping a `seq<Trigger>`. Every update is a pure function from the old
registry to the new one. Every printer is a pure function that returns the
line the hub would print.

Files and modules:

- `strings.dfy` (`Strings`): the separator join; the "every part followed
  by a separator" shape a builder loop produces; Java's `String.trim`.
- `devices.dfy` (`Devices`): the collaborators, reduced to what the hub uses.
- `hub.dfy` (`SmartHomeHub`): the registry state, its operations, and the
  invariant they keep.
- `reports.dfy` (`Reports`): the three reports and how they change across
  operations.
- `scenarios.dfy` (`Scenarios`): concrete operator sessions and the exact
  lines they print.

Modelling assumptions about the classes whose source is not part of this
model (`Device`, `DeviceProxy`, `DeviceFactory`, `ScheduledTask`, `Trigger`,
`TriggerManager`):

- A device is an id and a power flag. `turnOn` sets the flag and `turnOff`
  clears it. Neither changes the id.
- `DeviceProxy` is transparent: the map holds the device itself.
- `getStatus` is uninterpreted. Every status function takes it as a
  parameter `status: Device -> string`.
- A task is the triple (device id, time, command). The Java task holds a
  reference to the device, but the report only reads the device's id, which
  never changes.
- `TriggerManager.addTrigger` appends, and `getTriggers` returns the
  triggers in insertion order.
- The iteration order of the device map is unspecified. The status report
  takes it as a parameter `order`, required to list every registered id
  exactly once. Only properties that hold for every such order are stated.

`showStatus` appends `". "` after every status and then trims the whole text
(src/SmartHomeHub.java:48-50). So a non-empty report ends in `"."`. The
leading whitespace of the first status in iteration order is trimmed away;
nothing else is (`StatusText`).

## Model

| member | source | states |
|---|---|---|
| SmartHomeHub.NewHub | src/SmartHomeHub.java:7-9 | a new hub has no devices, no tasks and no triggers, and satisfies the invariant that each device is filed under its own id |
| SmartHomeHub.AddDevice | src/SmartHomeHub.java:11-14 | the device is filed under its id, replacing any earlier entry there; every other entry, the tasks and the triggers are unchanged; the invariant is kept |
| SmartHomeHub.RemoveDevice | src/SmartHomeHub.java:16-18 | the id leaves the domain and every other entry keeps its device; an absent id leaves the hub identical; the task list is untouched, so tasks for the removed device remain; the invariant is kept |
| SmartHomeHub.TurnOnDevice | src/SmartHomeHub.java:20-25 | an unknown id leaves the hub identical; a known id has only its device switched on, with the same id; other devices, tasks and triggers are unchanged |
| SmartHomeHub.TurnOffDevice | src/SmartHomeHub.java:27-32 | an unknown id leaves the hub identical; a known id has only its device switched off, with the same id; other devices, tasks and triggers are unchanged |
| SmartHomeHub.SetSchedule | src/SmartHomeHub.java:34-39 | exactly one task (id reported by the filed device, time, command) is appended iff the id is registered; otherwise the hub is identical; devices and triggers never change |
| SmartHomeHub.AddTrigger | src/SmartHomeHub.java:41-43 | the trigger list always grows by one, keeps every earlier trigger in place and ends with (condition, action); devices and tasks are unchanged |
| SmartHomeHub.ScheduleNamesRequestedId | src/SmartHomeHub.java:34-39 | in a hub where every device is filed under its own id, the appended task names exactly the requested id |
| SmartHomeHub.AddThenRemove | src/SmartHomeHub.java:11-18 | adding then removing a device equals removing alone, and restores the hub when the id was not registered before |
| SmartHomeHub.RemovedDeviceIsInert | src/SmartHomeHub.java:16-39 | after removing an id, switching it on or off and scheduling for it change nothing |
| SmartHomeHub.RemoveIdempotent | src/SmartHomeHub.java:16-18 | removing the same id twice is the same as removing it once |
| SmartHomeHub.PowerTransitions | src/SmartHomeHub.java:20-32 | switching on is idempotent, and whichever switch happens last decides the outcome |
| SmartHomeHub.AddTriggersInOrder | src/SmartHomeHub.java:41-43 | triggers added one after another end up after the existing ones, in the order they were added |
| Devices.TurnOn | src/SmartHomeHub.java:23 | the power transition leaves the device on and keeps its id |
| Devices.TurnOff | src/SmartHomeHub.java:30 | the power transition leaves the device off and keeps its id |
| Devices.StoreTrigger | src/SmartHomeHub.java:42 | the trigger manager keeps its earlier triggers as a prefix and puts the new one last |
| Strings.Terminated | src/SmartHomeHub.java:55-60 | after the append loop, a non-empty builder ends with the separator |
| Strings.TerminatedIsJoin | src/SmartHomeHub.java:55-63 | appending a separator after every part and then dropping the last separator gives the clean separator join |
| Strings.Trim | src/SmartHomeHub.java:50 | the result is an infix of the input with only trimmable characters (code points up to the space) around it, and it neither starts nor ends with one |
| Reports.Builder | src/SmartHomeHub.java:54-60 | the builder starts with "["; when a record was appended it holds at least three characters and ends with ", ", so cutting two characters never reaches the "[" |
| Reports.Bracketed | src/SmartHomeHub.java:54-64 | cutting two characters only after a record was appended keeps the opening "[", and the list always ends with "]" |
| Reports.BracketedIsJoin | src/SmartHomeHub.java:54-64 | the cut-two-then-close result equals "[" + the comma join of the records + "]", which is "[]" for no records and has no trailing ", " |
| Reports.BracketedSnoc | src/SmartHomeHub.java:54-64 | one more record at the end replaces the closing "]" with ", " + record + "]" and keeps everything before it |
| Reports.ShowScheduledTasks | src/SmartHomeHub.java:53-66 | the printed line is the task records, in scheduling order, comma-joined between brackets; no tasks prints "[]" |
| Reports.ShowTriggers | src/SmartHomeHub.java:68-81 | the printed line is the trigger records, in insertion order, comma-joined between brackets; no triggers prints "[]" |
| Reports.ShowTriggersAfterAddTrigger | src/SmartHomeHub.java:68-81 | after addTrigger the new record appears last in the trigger report and everything before it is unchanged |
| Reports.ShowScheduledTasksAfterSetSchedule | src/SmartHomeHub.java:34-66 | an accepted schedule appears last in the task report and everything before it is unchanged; a schedule for an unknown id leaves the report unchanged |
| Reports.RemoveDeviceKeepsTaskReport | src/SmartHomeHub.java:53-66 | removing a device leaves the task and trigger reports unchanged, so tasks for a removed device are still listed |
| Reports.ShowTriggersInInsertionOrder | src/SmartHomeHub.java:68-81 | triggers added one after another to a new hub are reported in exactly that order |
| Reports.TriggerRecordInjective | src/SmartHomeHub.java:72-74 | two triggers with quote-free conditions produce the same record only if they are equal |
| Reports.TaskRecordInjective | src/SmartHomeHub.java:56-59 | two tasks with quote-free device ids and times produce the same record only if they are equal |
| Reports.StatusText | src/SmartHomeHub.java:45-50 | an empty registry yields ""; otherwise the text ends in "." and equals the leading-trimmed ". "-join of the statuses followed by "." |
| Reports.ShowStatus | src/SmartHomeHub.java:45-50 | the printed status line quotes that text: an empty registry prints an empty quoted text |
| Reports.EnumerationLength | src/SmartHomeHub.java:47 | an iteration over the device map visits as many devices as are registered |
| Reports.EnumerationsArePermutations | src/SmartHomeHub.java:47 | any two iterations over the same device map are permutations of each other |
| Reports.StatusesPermute | src/SmartHomeHub.java:47-48 | permuting the iteration order permutes the sequence of statuses |
| Reports.StatusSegmentsPerDevice | src/SmartHomeHub.java:45-50 | the statuses the text is joined from (see StatusText) number one per registered device, include every registered device's status, and as a multiset do not depend on the iteration order |
| Scenarios.FreshHubReports | src/SmartHomeHub.java:45-81 | a new hub prints an empty status text, "[]" for tasks and "[]" for triggers |
| Scenarios.ScheduleOneTask | src/SmartHomeHub.java:34-66 | add L1, then schedule L1 at 08:00 to "Turn On": the task report is exactly one record with no trailing comma |
| Scenarios.ScheduleUnknownDevice | src/SmartHomeHub.java:34-39 | scheduling for an id that was never added does not grow the task list, and the report stays "[]" |
| Scenarios.TwoTriggersInOrder | src/SmartHomeHub.java:68-81 | two triggers are reported in insertion order, comma-separated, with no trailing comma |
| Scenarios.TurnOnThenStatus | src/SmartHomeHub.java:45-50 | add L1, then turn it on: the only iteration is L1, and the status text is the trimmed status of the switched-on L1 followed by ". " |
| Scenarios.AddRemoveThenTurnOn | src/SmartHomeHub.java:16-25 | after adding and removing a device, switching it on is a no-op and no iteration of the registry lists it |

## Left out

- `main` (src/SmartHomeHub.java:83-165) is not modelled. This covers the Scanner line reading, the prompts, the command `switch`, "Invalid command." and `exit`. It is console plumbing around the registry operations.
- A non-numeric thermostat temperature makes `Integer.parseInt` throw (src/SmartHomeHub.java:103). That failure lives in the input path, which is not modelled.
- `System.out.println` is not modelled. Each report is a function that returns the printed line instead.
- `DeviceFactory` is not part of this model: device kinds, the thermostat temperature and the fallback for unknown kinds. So the scenario "a thermostat added with 72 shows 72 in its status" is not stated.
- The wording of a device's status sentence is not modelled; `getStatus` is a parameter. The printing that `turnOn`/`turnOff` may do inside a device is left out too.
- Java `null` is not modelled: a `null` device passed to `addDevice` would throw. The model assumes that `DeviceFactory.createDevice`, whose result the command loop passes in (src/SmartHomeHub.java:104-106), never returns null.
- Devices are values, not shared objects. A task remembers only the id of its device. The task report reads nothing else from the device, and the id never changes.
- Strings are `seq<char>`. `String.trim` compares UTF-16 code units with the space character, and `Strings.Trim` compares characters the same way. The two agree on every character up to U+0020, which is all that trimming looks at.
