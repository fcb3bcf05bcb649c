// input::ReplayGameInput (src/input/replay_input.cpp): a game input that feeds
// the events of a recording back into its tetrion, step by step, and checks
// the tetrion against the recording's snapshots after each step. The
// recording reader is read-only here, so its records and snapshots are
// constant sequences; the GameInput part is a GameInput object the replay
// input owns.

module ReplayInputs {
  import opened Bytes
  import opened Wrappers
  import opened InputEvents
  import opened MinoStacks
  import opened TetrionSnapshots
  import opened Recordings
  import opened TetrionStates
  import opened SimulatedTetrions
  import opened GameInputs

  // ----- the record cursor -----

  /**
   * What update replays from record index i at a step: records of other
   * tetrions are passed over, consecutive records of this tetrion at the step
   * are replayed, and the first record of this tetrion at another step stops
   * the cursor. The result is the replayed events and the new cursor.
   */
  function Replay(records: seq<Record>, tetrion: u8, i: nat, step: u64): (r: (seq<InputEvent>, nat))
    requires i <= |records|
    ensures i <= r.1 <= |records|
    ensures r.1 == |records| || (records[r.1].tetrionIndex == tetrion && records[r.1].simulationStepIndex != step)
    ensures forall k :: i <= k < r.1 && records[k].tetrionIndex == tetrion ==> records[k].simulationStepIndex == step
    ensures r.0 == EventsOf(records[i..r.1], tetrion)
    decreases |records| - i
  {
    if i == |records| then ([], i)
    else if records[i].tetrionIndex != tetrion then
      var rest := Replay(records, tetrion, i + 1, step);
      EventsOfFront(records, i, rest.1, tetrion);
      rest
    else if records[i].simulationStepIndex != step then
      assert records[i..i] == [];
      ([], i)
    else
      var rest := Replay(records, tetrion, i + 1, step);
      EventsOfFront(records, i, rest.1, tetrion);
      ([records[i].event] + rest.0, rest.1)
  }

  /** The events of the records of one tetrion, in order. */
  function EventsOf(records: seq<Record>, tetrion: u8): seq<InputEvent>
  {
    if |records| == 0 then []
    else (if records[0].tetrionIndex == tetrion then [records[0].event] else []) + EventsOf(records[1..], tetrion)
  }

  lemma EventsOfFront(records: seq<Record>, i: nat, j: nat, tetrion: u8)
    requires i < j <= |records|
    ensures EventsOf(records[i..j], tetrion) ==
      (if records[i].tetrionIndex == tetrion then [records[i].event] else []) + EventsOf(records[i + 1..j], tetrion)
  {
    assert records[i..j][1..] == records[i + 1..j];
  }

  /** Replaying at a step where this tetrion has no record replays nothing and keeps the cursor on that record. */
  lemma {:induction false} ReplayNothingAtOtherStep(records: seq<Record>, tetrion: u8, i: nat, step: u64)
    requires i <= |records|
    requires forall k :: i <= k < |records| ==> records[k].simulationStepIndex != step
    ensures Replay(records, tetrion, i, step).0 == []
    ensures Replay(records, tetrion, i, step).1 == |records| || records[Replay(records, tetrion, i, step).1].tetrionIndex == tetrion
    decreases |records| - i
  {
    if i < |records| && records[i].tetrionIndex != tetrion {
      ReplayNothingAtOtherStep(records, tetrion, i + 1, step);
    }
  }

  /** A cursor that stopped is not moved again at the same step: replaying twice replays nothing the second time. */
  lemma ReplayIdempotent(records: seq<Record>, tetrion: u8, i: nat, step: u64)
    requires i <= |records|
    ensures Replay(records, tetrion, Replay(records, tetrion, i, step).1, step) == ([], Replay(records, tetrion, i, step).1)
  {
  }

  /** A record of this tetrion at the step is replayed, and the cursor moves past it. */
  lemma ReplayTakes(records: seq<Record>, tetrion: u8, i: nat, step: u64)
    requires i < |records| && records[i].tetrionIndex == tetrion && records[i].simulationStepIndex == step
    ensures Replay(records, tetrion, i, step) ==
      ([records[i].event] + Replay(records, tetrion, i + 1, step).0, Replay(records, tetrion, i + 1, step).1)
  {
  }

  /** A record of another tetrion is passed over. */
  lemma ReplaySkips(records: seq<Record>, tetrion: u8, i: nat, step: u64)
    requires i < |records| && records[i].tetrionIndex != tetrion
    ensures Replay(records, tetrion, i, step) == Replay(records, tetrion, i + 1, step)
  {
  }

  /** A record of this tetrion at another step stops the cursor on it. */
  lemma ReplayStops(records: seq<Record>, tetrion: u8, i: nat, step: u64)
    requires i < |records| && records[i].tetrionIndex == tetrion && records[i].simulationStepIndex != step
    ensures Replay(records, tetrion, i, step) == ([], i)
  {
  }

  lemma AfterEventsSnoc(g: Grid, deal: Dealer, p: Play, events: seq<InputEvent>, event: InputEvent, step: u64)
    requires Inv(g, deal, p.tetrion)
    ensures AfterEvents(g, deal, p, true, events + [event], step) ==
      AfterEvent(g, deal, AfterEvents(g, deal, p, true, events, step), true, event, step)
  {
    assert (events + [event])[..|events|] == events;
  }

  /**
   * What the loop of update keeps of the cursor: the events replayed so far
   * from start, the record index next and the callback log they led to.
   */
  ghost predicate Replaying(records: seq<Record>, tetrion: u8, step: u64, start: nat, next: nat,
    log0: seq<(InputEvent, u64)>, log: seq<(InputEvent, u64)>, hasCallback: bool, replayed: seq<InputEvent>)
  {
    start <= next <= |records| &&
    Replay(records, tetrion, start, step).0 == replayed + Replay(records, tetrion, next, step).0 &&
    Replay(records, tetrion, start, step).1 == Replay(records, tetrion, next, step).1 &&
    log == log0 + (if hasCallback then Logged(replayed, step) else [])
  }

  /** Replaying the record at next keeps the loop's invariant, one record further on. */
  lemma ReplayingStep(records: seq<Record>, tetrion: u8, step: u64, start: nat, next: nat,
    log0: seq<(InputEvent, u64)>, log: seq<(InputEvent, u64)>, hasCallback: bool, replayed: seq<InputEvent>)
    requires Replaying(records, tetrion, step, start, next, log0, log, hasCallback, replayed)
    requires next < |records| && records[next].tetrionIndex == tetrion && records[next].simulationStepIndex == step
    ensures Replaying(records, tetrion, step, start, next + 1,
      log0, log + (if hasCallback then [(records[next].event, step)] else []), hasCallback, replayed + [records[next].event])
  {
    var event := records[next].event;
    ReplayTakes(records, tetrion, next, step);
    SnocAssociative(replayed, event, Replay(records, tetrion, next + 1, step).0);
    LoggedSnoc(replayed, event, step);
    SnocAssociative(log0, (event, step), Logged(replayed, step));
  }

  /** Appending one element before or after the join is the same. */
  lemma SnocAssociative<T>(a: seq<T>, x: T, b: seq<T>)
    ensures a + ([x] + b) == (a + [x]) + b
    ensures (a + b) + [x] == a + (b + [x])
  {
  }

  /** One more event is one more log entry. */
  lemma LoggedSnoc(events: seq<InputEvent>, event: InputEvent, step: u64)
    ensures Logged(events + [event], step) == Logged(events, step) + [(event, step)]
  {
    assert (events + [event])[..|events|] == events;
  }

  /** The events of the input applied in order. */
  function AfterEvents(g: Grid, deal: Dealer, p: Play, das: bool, events: seq<InputEvent>, step: u64): (r: Play)
    requires Inv(g, deal, p.tetrion)
    ensures Inv(g, deal, r.tetrion)
    decreases |events|
  {
    if |events| == 0 then p
    else
      var before := AfterEvents(g, deal, p, das, events[..|events| - 1], step);
      AfterEvent(g, deal, before, das, events[|events| - 1], step)
  }

  /** The callback log of a sequence of events at one step. */
  function Logged(events: seq<InputEvent>, step: u64): (r: seq<(InputEvent, u64)>)
    ensures |r| == |events|
    ensures forall k :: 0 <= k < |r| ==> r[k] == (events[k], step)
  {
    if |events| == 0 then [] else Logged(events[..|events| - 1], step) + [(events[|events| - 1], step)]
  }

  // ----- the snapshot cursor -----

  /**
   * What late_update does from snapshot index i: snapshots of other tetrions
   * are passed over, those of this tetrion at the step are compared with the
   * current one, and the first of this tetrion at another step stops the
   * cursor. The result is the new cursor, or the failure and the cursor at
   * the snapshot that did not compare equal.
   */
  function Checked(snapshots: seq<Snapshot>, current: Snapshot, i: nat, render: seq<Mino> -> string): (r: (nat, bool))
    requires i <= |snapshots|
    ensures i <= r.0 <= |snapshots|
    ensures r.1 ==> (r.0 == |snapshots| ||
      (snapshots[r.0].tetrionIndex == current.tetrionIndex && snapshots[r.0].stepIndex != current.stepIndex))
    ensures !r.1 ==> (r.0 < |snapshots| && snapshots[r.0].tetrionIndex == current.tetrionIndex &&
      snapshots[r.0].stepIndex == current.stepIndex && CompareTo(current, snapshots[r.0], render).Err?)
    ensures forall k :: i <= k < r.0 && snapshots[k].tetrionIndex == current.tetrionIndex ==>
      snapshots[k].stepIndex == current.stepIndex && CompareTo(current, snapshots[k], render).Ok?
    decreases |snapshots| - i
  {
    if i == |snapshots| then (i, true)
    else if snapshots[i].tetrionIndex != current.tetrionIndex then Checked(snapshots, current, i + 1, render)
    else if snapshots[i].stepIndex != current.stepIndex then (i, true)
    else if CompareTo(current, snapshots[i], render).Err? then (i, false)
    else Checked(snapshots, current, i + 1, render)
  }

  /** A check passes exactly when this tetrion's snapshots at the step all agree with the current state, field by field. */
  lemma {:induction false} CheckedOkIff(snapshots: seq<Snapshot>, current: Snapshot, i: nat, render: seq<Mino> -> string)
    requires i <= |snapshots|
    requires forall k :: i <= k < |snapshots| ==> snapshots[k].stepIndex == current.stepIndex
    ensures Checked(snapshots, current, i, render).1 <==>
      forall k :: i <= k < |snapshots| && snapshots[k].tetrionIndex == current.tetrionIndex ==>
        SameMinos(current.minos, snapshots[k].minos) && snapshots[k] == current.(minos := snapshots[k].minos)
    decreases |snapshots| - i
  {
    if i < |snapshots| {
      CheckedOkIff(snapshots, current, i + 1, render);
      CompareToOkIff(current, snapshots[i], render);
    }
  }

  /** get_menu_event: a replay never produces a menu event, whatever the user does. */
  function GetMenuEvent<E>(event: E): (r: Option<E>)
    ensures r.None?
  {
    None
  }

  class ReplayGameInput {
    /** The GameInput part: key holding and the target tetrion. */
    const base: GameInput
    /** The records and snapshots of the recording reader, in file order. */
    const records: seq<Record>
    const snapshots: seq<Snapshot>
    /** operator<< on a mino stack, used in the comparison's message. */
    const render: seq<Mino> -> string
    var nextRecordIndex: nat
    var nextSnapshotIndex: nat

    constructor (records: seq<Record>, snapshots: seq<Snapshot>, render: seq<Mino> -> string, target: SimulatedTetrion)
      ensures this.records == records && this.snapshots == snapshots && this.render == render
      ensures base.inputType == Recording && base.target == target && base.keysHold == map[]
      ensures nextRecordIndex == 0 && nextSnapshotIndex == 0 && Valid()
    {
      this.records := records;
      this.snapshots := snapshots;
      this.render := render;
      base := new GameInput(Recording, target);
      nextRecordIndex := 0;
      nextSnapshotIndex := 0;
    }

    /** Both cursors stay within the recording. */
    predicate Valid()
      reads this
    {
      base.inputType == Recording && nextRecordIndex <= |records| && nextSnapshotIndex <= |snapshots|
    }

    /** is_end_of_recording. */
    predicate IsEndOfRecording()
      reads this
      requires Valid()
    {
      nextRecordIndex >= |records|
    }

    /** update: replay this step's records of the target, then the GameInput's own update. */
    method Update(step: u64)
      requires Valid() && base.target.Valid() && step + AutoRepeatRateFrames < U64Modulus
      modifies this, base, base.target, base.target.stack
      ensures Valid() && base.target == old(base.target) && base.target.Valid()
      ensures nextSnapshotIndex == old(nextSnapshotIndex)
      ensures var (events, next) := Replay(records, base.target.tetrionIndex, old(nextRecordIndex), step);
        nextRecordIndex == next &&
        base.notified == old(base.notified) + (if base.hasCallback then Logged(events, step) else []) &&
        base.Current() == Updated(base.target.grid, base.target.deal,
          AfterEvents(base.target.grid, base.target.deal, old(base.Current()), true, events, step), step)
    {
      ReplayRecords(step);
      base.Update(step);
    }

    /** The loop of update. */
    method ReplayRecords(step: u64)
      requires Valid() && base.target.Valid()
      modifies this, base, base.target, base.target.stack
      ensures Valid() && base.target == old(base.target) && base.target.Valid()
      ensures nextSnapshotIndex == old(nextSnapshotIndex) && base.hasCallback == old(base.hasCallback)
      ensures var (events, next) := Replay(records, base.target.tetrionIndex, old(nextRecordIndex), step);
        nextRecordIndex == next &&
        base.notified == old(base.notified) + (if base.hasCallback then Logged(events, step) else []) &&
        base.Current() == AfterEvents(base.target.grid, base.target.deal, old(base.Current()), true, events, step)
    {
      var target := base.target;
      var tetrion := target.tetrionIndex;
      ghost var start := nextRecordIndex;
      ghost var p0 := base.Current();
      ghost var log0 := base.notified;
      ghost var replayed: seq<InputEvent> := [];
      var stop := false;
      while !stop && nextRecordIndex < |records|
        invariant Valid() && target.Valid() && base.target == target && base.hasCallback == old(base.hasCallback)
        invariant nextSnapshotIndex == old(nextSnapshotIndex)
        invariant Replaying(records, tetrion, step, start, nextRecordIndex, log0, base.notified, base.hasCallback, replayed)
        invariant base.Current() == AfterEvents(target.grid, target.deal, p0, true, replayed, step)
        invariant stop ==> Replay(records, tetrion, nextRecordIndex, step) == ([], nextRecordIndex)
        decreases |records| - nextRecordIndex, if stop then 0 else 1
      {
        var record := records[nextRecordIndex];
        if record.tetrionIndex == tetrion && record.simulationStepIndex == step {
          replayed := ReplayRecord(step, start, p0, log0, replayed);
        } else {
          stop := PassOver(step, tetrion);
        }
      }
      assert Replay(records, tetrion, nextRecordIndex, step).0 == [];
      assert replayed == Replay(records, tetrion, start, step).0;
    }

    /** A record under the cursor of another tetrion is passed over; one of another step stops the loop on it. */
    method PassOver(step: u64, tetrion: u8) returns (stop: bool)
      requires Valid() && nextRecordIndex < |records|
      requires records[nextRecordIndex].tetrionIndex != tetrion || records[nextRecordIndex].simulationStepIndex != step
      modifies this
      ensures Valid() && nextSnapshotIndex == old(nextSnapshotIndex)
      ensures stop <==> records[old(nextRecordIndex)].tetrionIndex == tetrion
      ensures nextRecordIndex == old(nextRecordIndex) + (if stop then 0 else 1)
      ensures Replay(records, tetrion, old(nextRecordIndex), step)
        == if stop then ([], nextRecordIndex) else Replay(records, tetrion, nextRecordIndex, step)
    {
      if records[nextRecordIndex].tetrionIndex != tetrion {
        ReplaySkips(records, tetrion, nextRecordIndex, step);
        nextRecordIndex := nextRecordIndex + 1;
        return false;
      }
      ReplayStops(records, tetrion, nextRecordIndex, step);
      return true;
    }

    /** The record under the cursor, of the target and this step: its event is handled and the cursor moves on. */
    method ReplayRecord(step: u64, ghost start: nat, ghost p0: Play, ghost log0: seq<(InputEvent, u64)>, ghost replayed: seq<InputEvent>)
      returns (ghost now: seq<InputEvent>)
      requires Valid() && base.target.Valid() && nextRecordIndex < |records| && Inv(base.target.grid, base.target.deal, p0.tetrion)
      requires records[nextRecordIndex].tetrionIndex == base.target.tetrionIndex
      requires records[nextRecordIndex].simulationStepIndex == step
      requires Replaying(records, base.target.tetrionIndex, step, start, nextRecordIndex, log0, base.notified, base.hasCallback, replayed)
      requires base.Current() == AfterEvents(base.target.grid, base.target.deal, p0, true, replayed, step)
      modifies this, base, base.target, base.target.stack
      ensures Valid() && base.target.Valid() && base.target == old(base.target) && base.hasCallback == old(base.hasCallback)
      ensures nextSnapshotIndex == old(nextSnapshotIndex)
      ensures Replaying(records, base.target.tetrionIndex, step, start, nextRecordIndex, log0, base.notified, base.hasCallback, now)
      ensures base.Current() == AfterEvents(base.target.grid, base.target.deal, p0, true, now, step)
      ensures nextRecordIndex == old(nextRecordIndex) + 1
    {
      var target := base.target;
      var record := records[nextRecordIndex];
      ghost var log := base.notified;
      base.HandleEvent(record.event, step);
      ReplayingStep(records, target.tetrionIndex, step, start, nextRecordIndex, log0, log, base.hasCallback, replayed);
      AfterEventsSnoc(target.grid, target.deal, p0, replayed, record.event, step);
      nextRecordIndex := nextRecordIndex + 1;
      now := replayed + [record.event];
    }

    /** late_update: compare the target with this step's snapshots of it; a mismatch is an error. */
    method LateUpdate(step: u64) returns (result: Result<(), string>)
      requires Valid()
      modifies this
      ensures Valid() && nextRecordIndex == old(nextRecordIndex)
      ensures var current := SnapshotOf(base.target.CoreInformationOf(), step);
        var (next, ok) := Checked(snapshots, current, old(nextSnapshotIndex), render);
        nextSnapshotIndex == next && (result.Ok? <==> ok) && (result.Err? ==> result.error == "snapshots are not equal")
    {
      var current := SnapshotOf(base.target.CoreInformationOf(), step);
      while nextSnapshotIndex < |snapshots|
        invariant Valid() && nextRecordIndex == old(nextRecordIndex)
        invariant Checked(snapshots, current, old(nextSnapshotIndex), render) == Checked(snapshots, current, nextSnapshotIndex, render)
        decreases |snapshots| - nextSnapshotIndex
      {
        var snapshot := snapshots[nextSnapshotIndex];
        if snapshot.tetrionIndex != current.tetrionIndex {
          nextSnapshotIndex := nextSnapshotIndex + 1;
        } else if snapshot.stepIndex != step {
          return Ok(());
        } else if CompareTo(current, snapshot, render).Err? {
          return Err("snapshots are not equal");
        } else {
          nextSnapshotIndex := nextSnapshotIndex + 1;
        }
      }
      return Ok(());
    }
  }
}
