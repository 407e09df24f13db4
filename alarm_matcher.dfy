/** The per-tick alarm check of the AlarmClock component: an alarm fires
    when it is active and its stored time string is equal, character for
    character, to the current time string. Nothing normalises either side. */
module AlarmMatcher {
  import opened AlarmRegistry

  /** Whether one alarm fires at the time string `now`: an inactive alarm
      never does, and an active one only when its time is exactly `now`. */
  predicate Fires(alarm: Alarm, now: string)
    ensures !alarm.active ==> !Fires(alarm, now)
    ensures Fires(alarm, now) ==> alarm.time == now
  {
    alarm.active && alarm.time == now
  }

  /** The number of fires one pass over the list produces at `now`. */
  function FireCount(alarms: seq<Alarm>, now: string): (n: nat)
    ensures n <= |alarms|
    ensures n == 0 <==> forall i :: 0 <= i < |alarms| ==> !Fires(alarms[i], now)
  {
    if alarms == [] then 0
    else FireCount(alarms[..|alarms| - 1], now) + (if Fires(alarms[|alarms| - 1], now) then 1 else 0)
  }

  /** The positions of the alarms that fire at `now`. */
  function FiringPositions(alarms: seq<Alarm>, now: string): set<nat> {
    set i: nat | i < |alarms| && Fires(alarms[i], now)
  }

  /** The fire count is exactly the number of alarms that are active and
      whose time equals `now`: each of them fires once, no other alarm does. */
  lemma {:induction false} FireCountIsFiringAlarms(alarms: seq<Alarm>, now: string)
    ensures FireCount(alarms, now) == |FiringPositions(alarms, now)|
  {
    if alarms != [] {
      var n := |alarms| - 1;
      FireCountIsFiringAlarms(alarms[..n], now);
      var before := FiringPositions(alarms[..n], now);
      if Fires(alarms[n], now) {
        assert FiringPositions(alarms, now) == before + {n};
      } else {
        assert FiringPositions(alarms, now) == before;
      }
    }
  }

  /** The fires of two consecutive parts of a list add up. */
  lemma {:induction false} FireCountAppend(xs: seq<Alarm>, ys: seq<Alarm>, now: string)
    ensures FireCount(xs + ys, now) == FireCount(xs, now) + FireCount(ys, now)
    decreases |ys|
  {
    if ys == [] {
      assert xs + ys == xs;
    } else {
      var m := |ys| - 1;
      FireCountAppend(xs, ys[..m], now);
      assert (xs + ys)[..|xs + ys| - 1] == xs + ys[..m];
    }
  }

  /** An inactive alarm never contributes a fire, wherever it sits and
      whatever its time. */
  lemma InactiveNeverFires(before: seq<Alarm>, alarm: Alarm, after: seq<Alarm>, now: string)
    requires !alarm.active
    ensures FireCount(before + [alarm] + after, now) == FireCount(before + after, now)
  {
    FireCountAppend(before + [alarm], after, now);
    FireCountAppend(before, [alarm], now);
    FireCountAppend(before, after, now);
    assert [alarm][..0] == [];
  }

  /** When every stored time has minutes only ("HH:MM", five characters) and
      the current time string carries seconds ("HH:MM:SS", eight), nothing
      ever fires: plain string equality cannot match the two formats. */
  lemma NoFireAcrossFormats(alarms: seq<Alarm>, now: string)
    requires forall i :: 0 <= i < |alarms| ==> |alarms[i].time| == 5
    requires |now| == 8
    ensures FireCount(alarms, now) == 0
  {
  }

  /** In a well-formed list every alarm has a time, so an empty time string
      never fires anything. */
  lemma NoFireAtEmptyTime(alarms: seq<Alarm>)
    requires WellFormed(alarms)
    ensures FireCount(alarms, "") == 0
  {
  }

  /** Adding an alarm for exactly `now` adds exactly one fire at `now`. */
  lemma AddedFiresAtItsTime(alarms: seq<Alarm>, labelText: string, id: string, now: string)
    requires now != ""
    ensures FireCount(Added(alarms, now, labelText, id), now) == FireCount(alarms, now) + 1
  {
  }

  /** Toggling never changes which alarms match `now` by time, so it changes
      the fire count by at most the number of alarms it touches. */
  lemma {:induction false} ToggledFireCount(alarms: seq<Alarm>, id: string, now: string)
    ensures FireCount(Toggled(alarms, id), now) <= FireCount(alarms, now) + Matches(alarms, id)
    ensures FireCount(alarms, now) <= FireCount(Toggled(alarms, id), now) + Matches(alarms, id)
  {
    if alarms != [] {
      var n := |alarms| - 1;
      var t := Toggled(alarms, id);
      ToggledFireCount(alarms[..n], id, now);
      assert t[..n] == Toggled(alarms[..n], id);
    }
  }

  /** Deleting never adds a fire. */
  lemma {:induction false} DeletedFireCount(alarms: seq<Alarm>, id: string, now: string)
    ensures FireCount(Deleted(alarms, id), now) <= FireCount(alarms, now)
  {
    if alarms != [] {
      var n := |alarms| - 1;
      var last := alarms[n];
      var tail := if last.id == id then [] else [last];
      DeletedFireCount(alarms[..n], id, now);
      assert Deleted(alarms, id) == Deleted(alarms[..n], id) + tail;
      FireCountAppend(Deleted(alarms[..n], id), tail, now);
      assert FireCount(tail, now) <= (if Fires(last, now) then 1 else 0) by {
        if tail != [] {
          assert tail[..0] == [];
        }
      }
    }
  }
}
