/** The state of the AlarmClock component and the handlers that change it.
    Each handler computes its new alarm list with a function of
    AlarmRegistry and commits it, as the component's `setAlarms` does. The
    wall clock is not read here: the id of a new alarm and the current time
    string of a tick are parameters. */
module AlarmClockComponent {
  import opened AlarmRegistry
  import opened AlarmMatcher

  class AlarmClock {
    /** The alarm list, in insertion order. */
    var alarms: seq<Alarm>
    /** What the time input currently holds. */
    var newAlarmTime: string
    /** What the label input currently holds. */
    var newAlarmLabel: string
    /** Whether the alarm is ringing. */
    var isPlaying: bool

    /** Every stored alarm has a time and a label. Every handler keeps this,
        and CheckAlarms relies on it: an empty time string fires nothing. */
    ghost predicate Valid()
      reads this
    {
      WellFormed(alarms)
    }

    /** The component as first rendered: no alarms, empty inputs, silent. */
    constructor ()
      ensures Valid()
      ensures alarms == [] && newAlarmTime == "" && newAlarmLabel == "" && !isPlaying
    {
      alarms := [];
      newAlarmTime := "";
      newAlarmLabel := "";
      isPlaying := false;
    }

    /** The time input's change handler. */
    method SetNewAlarmTime(value: string)
      modifies this`newAlarmTime
      ensures newAlarmTime == value
    {
      newAlarmTime := value;
    }

    /** The label input's change handler. */
    method SetNewAlarmLabel(value: string)
      modifies this`newAlarmLabel
      ensures newAlarmLabel == value
    {
      newAlarmLabel := value;
    }

    /** addAlarm, with `id` standing for the creation timestamp. An empty
        pending time leaves everything as it was; otherwise the new alarm is
        appended and both inputs are cleared. */
    method AddAlarm(id: string)
      requires Valid()
      modifies this`alarms, this`newAlarmTime, this`newAlarmLabel
      ensures Valid()
      ensures alarms == Added(old(alarms), old(newAlarmTime), old(newAlarmLabel), id)
      ensures old(newAlarmTime) == "" ==>
                alarms == old(alarms) && newAlarmTime == old(newAlarmTime) && newAlarmLabel == old(newAlarmLabel)
      ensures old(newAlarmTime) != "" ==>
                |alarms| == |old(alarms)| + 1 && newAlarmTime == "" && newAlarmLabel == ""
    {
      if newAlarmTime == "" {
        return;
      }
      AddedWellFormed(alarms, newAlarmTime, newAlarmLabel, id);
      alarms := Added(alarms, newAlarmTime, newAlarmLabel, id);
      newAlarmTime := "";
      newAlarmLabel := "";
    }

    /** toggleAlarm: flips `active` on every alarm carrying `id`. */
    method ToggleAlarm(id: string)
      requires Valid()
      modifies this`alarms
      ensures Valid()
      ensures alarms == Toggled(old(alarms), id)
      ensures Absent(old(alarms), id) ==> alarms == old(alarms)
    {
      ToggledWellFormed(alarms, id);
      if Absent(alarms, id) { ToggledAbsent(alarms, id); }
      alarms := Toggled(alarms, id);
    }

    /** deleteAlarm: drops every alarm carrying `id`. */
    method DeleteAlarm(id: string)
      requires Valid()
      modifies this`alarms
      ensures Valid()
      ensures alarms == Deleted(old(alarms), id)
      ensures Absent(alarms, id)
      ensures Absent(old(alarms), id) ==> alarms == old(alarms)
    {
      DeletedWellFormed(alarms, id);
      if Absent(alarms, id) { DeletedAbsent(alarms, id); }
      alarms := Deleted(alarms, id);
    }

    /** resetAlarms: the list becomes empty, whatever it held. */
    method ResetAlarms()
      modifies this`alarms
      ensures Valid()
      ensures alarms == []
    {
      alarms := [];
    }

    /** playAlarm as far as the component's state goes: the alarm rings. */
    method PlayAlarm()
      modifies this`isPlaying
      ensures isPlaying
    {
      isPlaying := true;
    }

    /** stopAlarm: the alarm falls silent. */
    method StopAlarm()
      modifies this`isPlaying
      ensures !isPlaying
    {
      isPlaying := false;
    }

    /** One run of the alarm-check effect at the time string `now`: every
        alarm that is active and whose time equals `now` calls playAlarm once.
        Returns the number of such calls. The list is never changed, and
        `isPlaying` changes only when something fired. */
    method CheckAlarms(now: string) returns (fires: nat)
      requires Valid()
      modifies this`isPlaying
      ensures Valid()
      ensures fires == FireCount(alarms, now)
      ensures now == "" ==> fires == 0
      ensures fires > 0 ==> isPlaying
      ensures fires == 0 ==> isPlaying == old(isPlaying)
    {
      fires := 0;
      var i := 0;
      while i < |alarms|
        invariant 0 <= i <= |alarms|
        invariant fires == FireCount(alarms[..i], now)
        invariant isPlaying == (old(isPlaying) || fires > 0)
      {
        var alarm := alarms[i];
        if Fires(alarm, now) {
          PlayAlarm();
          fires := fires + 1;
        }
        assert alarms[..i + 1][..i] == alarms[..i];
        i := i + 1;
      }
      assert alarms[..i] == alarms;
      if now == "" {
        NoFireAtEmptyTime(alarms);
      }
    }
  }

  /** A session through the handlers: an alarm added with the current time
      fires once on the next tick, and stopping silences it. */
  method Session(id: string, now: string)
    requires now != ""
  {
    var clock := new AlarmClock();
    clock.SetNewAlarmTime(now);
    clock.AddAlarm(id);
    assert clock.alarms == [Alarm(id, now, true, DefaultLabel(1))];
    var fires := clock.CheckAlarms(now);
    assert fires == 1 && clock.isPlaying;
    clock.StopAlarm();
    clock.ToggleAlarm(id);
    fires := clock.CheckAlarms(now);
    assert fires == 0 && !clock.isPlaying;
    clock.DeleteAlarm(id);
    assert clock.alarms == [];
  }
}
