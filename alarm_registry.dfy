/** The alarm list of the AlarmClock component and the list transforms that
    addAlarm, toggleAlarm and deleteAlarm compute before committing them.
    Each transform is a function over `seq<Alarm>`; the component's state
    (alarm_clock.dfy) stores the results. Ids are not assumed unique: the
    component derives them from the wall clock and never checks. */
module AlarmRegistry {
  import Decimal

  /** One scheduled alarm. `time` is whatever the time input produced, and
      `labelText` is what the user typed or the generated default. */
  datatype Alarm = Alarm(id: string, time: string, active: bool, labelText: string)

  /** An id that no alarm in the list carries. */
  predicate Absent(alarms: seq<Alarm>, id: string) {
    forall i :: 0 <= i < |alarms| ==> alarms[i].id != id
  }

  /** The invariant every stored list keeps: no alarm has an empty time
      (addAlarm refuses it) and none has an empty label (one is generated). */
  predicate WellFormed(alarms: seq<Alarm>) {
    forall i :: 0 <= i < |alarms| ==> alarms[i].time != "" && alarms[i].labelText != ""
  }

  // ---------------------------------------------------------------- add

  /** The prefix of every generated label ("alarm " in Traditional Chinese). */
  const DefaultLabelPrefix: string := "鬧鐘 "

  /** The label given to the `position`-th alarm when the user typed none:
      the prefix followed by the shortest decimal writing of the position
      (no leading zero), which reads back as the position. */
  function DefaultLabel(position: nat): (r: string)
    ensures |r| > |DefaultLabelPrefix|
    ensures r[..|DefaultLabelPrefix|] == DefaultLabelPrefix
    ensures r[|DefaultLabelPrefix|..] == Decimal.FromNat(position)
    ensures Decimal.AllDigits(r[|DefaultLabelPrefix|..])
    ensures Decimal.Value(r[|DefaultLabelPrefix|..]) == position
    ensures position > 0 ==> r[|DefaultLabelPrefix|] != '0'
  {
    var digits := Decimal.FromNat(position);
    Decimal.ValueOfFromNat(position);
    assert (DefaultLabelPrefix + digits)[|DefaultLabelPrefix|..] == digits;
    DefaultLabelPrefix + digits
  }

  /** The label of an alarm added to a list of `count` alarms: the typed one
      unless it is empty (JavaScript's `||` on a string), else the default
      for position `count + 1`. */
  function LabelFor(labelText: string, count: nat): (r: string)
    ensures r != ""
    ensures labelText != "" ==> r == labelText
    ensures labelText == "" ==> r == DefaultLabel(count + 1)
  {
    if labelText != "" then labelText else DefaultLabel(count + 1)
  }

  /** The list addAlarm commits: unchanged when the pending time is empty,
      otherwise the old list followed by one new active alarm. */
  function Added(alarms: seq<Alarm>, time: string, labelText: string, id: string): (r: seq<Alarm>)
    ensures time == "" ==> r == alarms
    ensures time != "" ==> |r| == |alarms| + 1 && r[..|alarms|] == alarms
    ensures time != "" ==> r[|alarms|].id == id && r[|alarms|].time == time && r[|alarms|].active
    ensures time != "" && labelText != "" ==> r[|alarms|].labelText == labelText
    ensures time != "" && labelText == "" ==> r[|alarms|].labelText == DefaultLabel(|alarms| + 1)
  {
    if time == "" then alarms
    else alarms + [Alarm(id, time, true, LabelFor(labelText, |alarms|))]
  }

  /** Adding keeps the list well formed. */
  lemma AddedWellFormed(alarms: seq<Alarm>, time: string, labelText: string, id: string)
    requires WellFormed(alarms)
    ensures WellFormed(Added(alarms, time, labelText, id))
  {
  }

  // ------------------------------------------------------------- toggle

  /** One alarm as toggleAlarm's map callback leaves it: id, time and label
      are kept, and `active` changes exactly when the id matches. */
  function Flip(alarm: Alarm, id: string): (r: Alarm)
    ensures r.id == alarm.id && r.time == alarm.time && r.labelText == alarm.labelText
    ensures r.active != alarm.active <==> alarm.id == id
  {
    if alarm.id == id then alarm.(active := !alarm.active) else alarm
  }

  /** The list toggleAlarm commits: same length and order; every alarm with
      the given id (there may be several) has `active` negated and keeps its
      other fields; every other alarm is unchanged. */
  function Toggled(alarms: seq<Alarm>, id: string): (r: seq<Alarm>)
    ensures |r| == |alarms|
    ensures forall i :: 0 <= i < |alarms| ==>
              r[i].id == alarms[i].id && r[i].time == alarms[i].time && r[i].labelText == alarms[i].labelText
    ensures forall i :: 0 <= i < |alarms| && alarms[i].id == id ==> r[i].active == !alarms[i].active
    ensures forall i :: 0 <= i < |alarms| && alarms[i].id != id ==> r[i] == alarms[i]
  {
    if alarms == [] then []
    else Toggled(alarms[..|alarms| - 1], id) + [Flip(alarms[|alarms| - 1], id)]
  }

  /** Toggling an id no alarm carries changes nothing. */
  lemma ToggledAbsent(alarms: seq<Alarm>, id: string)
    requires Absent(alarms, id)
    ensures Toggled(alarms, id) == alarms
  {
  }

  /** Toggling the same id twice restores the original list. */
  lemma ToggledTwice(alarms: seq<Alarm>, id: string)
    ensures Toggled(Toggled(alarms, id), id) == alarms
  {
  }

  /** Toggling keeps the list well formed. */
  lemma ToggledWellFormed(alarms: seq<Alarm>, id: string)
    requires WellFormed(alarms)
    ensures WellFormed(Toggled(alarms, id))
  {
  }

  // ------------------------------------------------------------- delete

  /** How many alarms carry the given id. */
  function Matches(alarms: seq<Alarm>, id: string): (n: nat)
    ensures n <= |alarms|
    ensures n == 0 <==> Absent(alarms, id)
  {
    if alarms == [] then 0
    else Matches(alarms[..|alarms| - 1], id) + (if alarms[|alarms| - 1].id == id then 1 else 0)
  }

  /** The list deleteAlarm commits: no alarm with the given id is left, and
      the length drops by the number of alarms that had it. */
  function Deleted(alarms: seq<Alarm>, id: string): (r: seq<Alarm>)
    ensures |r| == |alarms| - Matches(alarms, id)
    ensures Absent(r, id)
  {
    if alarms == [] then []
    else
      var last := alarms[|alarms| - 1];
      Deleted(alarms[..|alarms| - 1], id) + (if last.id == id then [] else [last])
  }

  /** Delete removes exactly the alarms with the given id: every survivor
      comes from the list, and every alarm without the id survives. */
  lemma {:induction false} DeletedMembers(alarms: seq<Alarm>, id: string)
    ensures forall a :: a in Deleted(alarms, id) ==> a in alarms
    ensures forall a :: a in alarms && a.id != id ==> a in Deleted(alarms, id)
  {
    if alarms != [] {
      var n := |alarms| - 1;
      DeletedMembers(alarms[..n], id);
      assert alarms == alarms[..n] + [alarms[n]];
    }
  }

  /** The positions of the alarms deleteAlarm keeps, in ascending order. */
  function Kept(alarms: seq<Alarm>, id: string): (ks: seq<nat>)
    ensures forall k :: 0 <= k < |ks| ==> ks[k] < |alarms|
    ensures forall j, k :: 0 <= j < k < |ks| ==> ks[j] < ks[k]
    ensures forall i :: 0 <= i < |alarms| ==> (i in ks <==> alarms[i].id != id)
  {
    if alarms == [] then []
    else
      var n := |alarms| - 1;
      Kept(alarms[..n], id) + (if alarms[n].id == id then [] else [n])
  }

  /** The survivors of a delete are exactly the alarms at the kept positions,
      in the same relative order. */
  lemma {:induction false} DeletedKeepsOrder(alarms: seq<Alarm>, id: string)
    ensures |Deleted(alarms, id)| == |Kept(alarms, id)|
    ensures forall k :: 0 <= k < |Kept(alarms, id)| ==>
              Deleted(alarms, id)[k] == alarms[Kept(alarms, id)[k]]
  {
    if alarms != [] {
      var n := |alarms| - 1;
      DeletedKeepsOrder(alarms[..n], id);
      var ks, r := Kept(alarms, id), Deleted(alarms, id);
      var ks', r' := Kept(alarms[..n], id), Deleted(alarms[..n], id);
      forall k | 0 <= k < |ks| ensures r[k] == alarms[ks[k]] {
        if k < |ks'| {
          assert ks[k] == ks'[k] && r[k] == r'[k];
          assert alarms[..n][ks'[k]] == alarms[ks'[k]];
        }
      }
    }
  }

  /** Deleting an id no alarm carries changes nothing. */
  lemma {:induction false} DeletedAbsent(alarms: seq<Alarm>, id: string)
    requires Absent(alarms, id)
    ensures Deleted(alarms, id) == alarms
  {
    if alarms != [] {
      var n := |alarms| - 1;
      DeletedAbsent(alarms[..n], id);
      assert alarms == alarms[..n] + [alarms[n]];
    }
  }

  /** Deleting twice is the same as deleting once. */
  lemma DeletedTwice(alarms: seq<Alarm>, id: string)
    ensures Deleted(Deleted(alarms, id), id) == Deleted(alarms, id)
  {
    DeletedAbsent(Deleted(alarms, id), id);
  }

  /** Deleting keeps the list well formed. */
  lemma DeletedWellFormed(alarms: seq<Alarm>, id: string)
    requires WellFormed(alarms)
    ensures WellFormed(Deleted(alarms, id))
  {
    var r := Deleted(alarms, id);
    DeletedMembers(alarms, id);
    forall i | 0 <= i < |r| ensures r[i].time != "" && r[i].labelText != "" {
      assert r[i] in alarms;
    }
  }

  /** Deleting an id right after adding an alarm under that id gives the
      same list as deleting it from the list before the add: the new alarm
      goes, and so does every older alarm that already carried the id. So the
      delete undoes the add exactly when the id was new; otherwise the list
      ends up shorter than before the add. */
  lemma AddedThenDeleted(alarms: seq<Alarm>, time: string, labelText: string, id: string)
    ensures Deleted(Added(alarms, time, labelText, id), id) == Deleted(alarms, id)
    ensures Absent(alarms, id) ==> Deleted(Added(alarms, time, labelText, id), id) == alarms
    ensures !Absent(alarms, id) ==> |Deleted(Added(alarms, time, labelText, id), id)| < |alarms|
  {
    var r := Added(alarms, time, labelText, id);
    if time != "" {
      assert r == alarms + [r[|alarms|]];
      assert r[..|r| - 1] == alarms;
    }
    if Absent(alarms, id) {
      DeletedAbsent(alarms, id);
    }
  }

  /** Toggling an id and then deleting it is the same as deleting it. */
  lemma {:induction false} DeletedAfterToggled(alarms: seq<Alarm>, id: string)
    ensures Deleted(Toggled(alarms, id), id) == Deleted(alarms, id)
  {
    if alarms != [] {
      var n := |alarms| - 1;
      var t := Toggled(alarms, id);
      DeletedAfterToggled(alarms[..n], id);
      assert t[..n] == Toggled(alarms[..n], id);
    }
  }
}
