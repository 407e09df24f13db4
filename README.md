# Alarm clock widget: alarm registry and matcher

This project models the state and logic of the `AlarmClock` React component
(src/components/AlarmClock/index.tsx) and proves properties about it. The
component keeps an ordered list of alarms. Each alarm has an id, a time
string, an `active` flag and a label. The user adds, toggles, deletes and
clears alarms. Once per clock tick, an effect walks the list and calls
`playAlarm` for every active alarm whose time string equals the current time
string. `playAlarm` sets the `isPlaying` flag and `stopAlarm` clears it.

Files and modules:

- `decimal.dfy`, module `Decimal`: how a non-negative number is written in
  decimal, as the template literal `鬧鐘 ${alarms.length + 1}` writes it. The
  module also reads such a string back.
- `alarm_registry.dfy`, module `AlarmRegistry`: the `Alarm` record and the
  new lists that addAlarm, toggleAlarm and deleteAlarm compute. These are
  functions over `seq<Alarm>`, with lemmas about each of them and about how
  they combine.
- `alarm_matcher.dfy`, module `AlarmMatcher`: when an alarm fires, how many
  fires one tick produces, and how the registry operations change that count.
- `alarm_clock.dfy`, module `AlarmClockComponent`: the class `AlarmClock`.
  Its fields are the component's state (`alarms`, `newAlarmTime`,
  `newAlarmLabel`, `isPlaying`). Each handler commits the result of a
  registry function. `CheckAlarms` is the tick effect, written as a loop that
  calls `PlayAlarm` once per match. Its result is proved equal to
  `FireCount`. The method `Session` at the end of the file is a client: it
  drives one add, tick, stop, toggle, tick and delete through the handlers
  and checks with assertions that their contracts give the expected states.

Two values come from the clock in the component. The model takes both as
parameters:

- the id of a new alarm, which the component takes from `Date.now()`;
- the current time string `now`, which the component formats with
  `toLocaleTimeString`.

Ids are not assumed to be unique. The component never checks them, so
`Toggled` flips every alarm that carries the id, and `Deleted` removes every
such alarm. `AddedThenDeleted` shows what this means: deleting a new alarm's
id undoes the add only when no older alarm had the same id. Matching is plain
string equality. The time input stores "HH:MM" and the tick string is
"HH:MM:SS". `NoFireAcrossFormats` proves that nothing fires when every stored
time has five characters and `now` has eight.

Two facts about the code shape the model:

- Ids are not unique. addAlarm takes the id from the clock and never compares
  it with the ids already stored (src/components/AlarmClock/index.tsx:61), so
  toggling flips every alarm with a matching id, not just one.
- The check effect depends on both the current time and the alarm list
  (src/components/AlarmClock/index.tsx:37), so it runs again whenever the list
  changes, and the same second can produce several passes. The model treats
  one call of `CheckAlarms` as one pass and does not model when React
  schedules passes.

## Model

| member | source | states |
|---|---|---|
| `Decimal.FromNat` | src/components/AlarmClock/index.tsx:64 | the number in the default label is written as a non-empty string of decimal digits, with a leading zero only for 0 |
| `Decimal.ValueOfFromNat` | src/components/AlarmClock/index.tsx:64 | reading back the decimal string gives the original number |
| `Decimal.FromNatInjective` | src/components/AlarmClock/index.tsx:64 | different list lengths produce different number strings |
| `AlarmRegistry.DefaultLabel` | src/components/AlarmClock/index.tsx:64 | the default label is "鬧鐘 " followed by the shortest decimal writing of the alarm's position: digits only, no leading zero, reading back as the position |
| `AlarmRegistry.LabelFor` | src/components/AlarmClock/index.tsx:64 | the label is never empty: a typed label is kept as is, and an empty one becomes the default for position length + 1 |
| `AlarmRegistry.Added` | src/components/AlarmClock/index.tsx:57-67 | empty time: the list is unchanged; otherwise the list is one longer, the old list is an unchanged prefix, and the last alarm has the given id and time, is active, and has the typed or default label |
| `AlarmRegistry.AddedWellFormed` | src/components/AlarmClock/index.tsx:57-67 | adding keeps every stored alarm's time and label non-empty |
| `AlarmRegistry.Flip` | src/components/AlarmClock/index.tsx:74 | the map callback keeps an alarm's id, time and label, and changes `active` exactly when the alarm's id equals the argument |
| `AlarmRegistry.Toggled` | src/components/AlarmClock/index.tsx:72-76 | same length and order; every alarm with the id has `active` negated and keeps its id, time and label; every other alarm is unchanged |
| `AlarmRegistry.ToggledAbsent` | src/components/AlarmClock/index.tsx:72-76 | toggling an id that no alarm has leaves the list unchanged |
| `AlarmRegistry.ToggledTwice` | src/components/AlarmClock/index.tsx:72-76 | toggling the same id twice gives back the original list |
| `AlarmRegistry.ToggledWellFormed` | src/components/AlarmClock/index.tsx:72-76 | toggling keeps every time and label non-empty |
| `AlarmRegistry.Matches` | src/components/AlarmClock/index.tsx:79 | counts the alarms with the id; the count is zero exactly when no alarm has the id |
| `AlarmRegistry.Deleted` | src/components/AlarmClock/index.tsx:78-80 | no survivor has the id, and the length drops by the number of alarms that had it |
| `AlarmRegistry.DeletedMembers` | src/components/AlarmClock/index.tsx:79 | every survivor was in the list, and every alarm without the id survives |
| `AlarmRegistry.Kept` | src/components/AlarmClock/index.tsx:79 | the positions the filter keeps are in range and strictly ascending, and a position is kept exactly when its alarm's id differs from the argument |
| `AlarmRegistry.DeletedKeepsOrder` | src/components/AlarmClock/index.tsx:78-80 | the k-th survivor is the alarm at the k-th kept position, so survivors keep their relative order |
| `AlarmRegistry.DeletedAbsent` | src/components/AlarmClock/index.tsx:78-80 | deleting an id that no alarm has leaves the list unchanged |
| `AlarmRegistry.DeletedTwice` | src/components/AlarmClock/index.tsx:78-80 | deleting twice gives the same list as deleting once |
| `AlarmRegistry.DeletedWellFormed` | src/components/AlarmClock/index.tsx:78-80 | deleting keeps every time and label non-empty |
| `AlarmRegistry.AddedThenDeleted` | src/components/AlarmClock/index.tsx:57-80 | deleting the new alarm's id after an add gives exactly the list that deleting it before the add gives; so it undoes the add when the id was new, and otherwise leaves the list shorter than before the add |
| `AlarmRegistry.DeletedAfterToggled` | src/components/AlarmClock/index.tsx:72-80 | toggling an id and then deleting it gives the same list as deleting it |
| `AlarmMatcher.Fires` | src/components/AlarmClock/index.tsx:33 | an inactive alarm never fires, and an alarm fires only when its time string equals `now` exactly |
| `AlarmMatcher.FireCount` | src/components/AlarmClock/index.tsx:32-36 | one pass fires at most once per alarm, and it fires zero times exactly when no alarm is both active and timed at `now` |
| `AlarmMatcher.FireCountIsFiringAlarms` | src/components/AlarmClock/index.tsx:32-36 | the number of fires equals the number of positions whose alarm is active and has time == now |
| `AlarmMatcher.FireCountAppend` | src/components/AlarmClock/index.tsx:32-36 | the fires of two consecutive parts of the list add up |
| `AlarmMatcher.InactiveNeverFires` | src/components/AlarmClock/index.tsx:33 | an inactive alarm adds no fire, wherever it sits in the list and whatever its time |
| `AlarmMatcher.NoFireAcrossFormats` | src/components/AlarmClock/index.tsx:30-33 | "HH:MM" times never equal an "HH:MM:SS" tick string, so nothing fires |
| `AlarmMatcher.NoFireAtEmptyTime` | src/components/AlarmClock/index.tsx:57-58 | since addAlarm refuses an empty time, a well-formed list fires nothing at an empty time string |
| `AlarmMatcher.AddedFiresAtItsTime` | src/components/AlarmClock/index.tsx:57-67 | an alarm added for exactly `now` adds exactly one fire at `now` |
| `AlarmMatcher.ToggledFireCount` | src/components/AlarmClock/index.tsx:72-76 | toggling changes the fire count by at most the number of alarms with the id |
| `AlarmMatcher.DeletedFireCount` | src/components/AlarmClock/index.tsx:78-80 | deleting never increases the fire count |
| `AlarmClockComponent.AlarmClock.constructor` | src/components/AlarmClock/index.tsx:13-16 | the initial state: no alarms, empty inputs, not playing |
| `AlarmClockComponent.AlarmClock.SetNewAlarmTime` | src/components/AlarmClock/index.tsx:140 | the time input's handler stores the typed value |
| `AlarmClockComponent.AlarmClock.SetNewAlarmLabel` | src/components/AlarmClock/index.tsx:147 | the label input's handler stores the typed value |
| `AlarmClockComponent.AlarmClock.AddAlarm` | src/components/AlarmClock/index.tsx:57-70 | empty pending time: alarms and both inputs are unchanged; otherwise the list is the old list plus one alarm and both inputs are cleared; the well-formedness invariant is kept |
| `AlarmClockComponent.AlarmClock.ToggleAlarm` | src/components/AlarmClock/index.tsx:72-76 | commits `Toggled`, which is the identity for an absent id; the invariant is kept |
| `AlarmClockComponent.AlarmClock.DeleteAlarm` | src/components/AlarmClock/index.tsx:78-80 | commits `Deleted`: afterwards no alarm has the id, and the list is unchanged if none had it; the invariant is kept |
| `AlarmClockComponent.AlarmClock.ResetAlarms` | src/components/AlarmClock/index.tsx:110-112 | the list is empty afterwards, whatever it held before |
| `AlarmClockComponent.AlarmClock.PlayAlarm` | src/components/AlarmClock/index.tsx:82-83 | the alarm is ringing afterwards |
| `AlarmClockComponent.AlarmClock.StopAlarm` | src/components/AlarmClock/index.tsx:106-108 | the alarm is silent afterwards |
| `AlarmClockComponent.AlarmClock.CheckAlarms` | src/components/AlarmClock/index.tsx:29-37 | the number of `playAlarm` calls equals `FireCount(alarms, now)`; if any fired, the alarm is ringing; if none fired, `isPlaying` is unchanged; the list is never changed, and an empty time string fires nothing |

## Left out

- Rendering, styling and icons (src/components/AlarmClock/index.tsx:114-232) and src/App.tsx: these are presentation only.
- `formatTime`, `formatDate` and `toLocaleTimeString`: these are locale formatting done by the browser. The current time string is a parameter of `CheckAlarms`.
- `Date.now()` as the source of ids: it reads the wall clock, so the id is a parameter of `AddAlarm`. Ids are not assumed unique.
- The `setInterval` ticker and its cleanup (lines 20-26): one tick is one call of `CheckAlarms`. The model also leaves out that React runs the check again whenever the alarm list changes.
- `AlarmClockComponent.AlarmClock.PlayAlarm`: does not model the audio oscillator (440 Hz sine, gain 0.3), the `audioRef` guard, or the 3-second `setTimeout` that stops the tone and clears `isPlaying` (lines 84-103). These are browser audio APIs and timers. Since `audioRef` is attached to the `<audio>` element, the guard normally skips that branch after mounting.
- React's batching of state updates: each handler commits its new state at once, as if each `set…` call takes effect before the next event.
