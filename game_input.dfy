// GameInput of src/input/game_input.cpp and .hpp: it turns key events into
// commands for its tetrion, and with delayed auto shift (DAS) it repeats a
// held left or right key, first after ten steps and then every two steps.
//
// The target tetrion is a SimulatedTetrion; the event callback is modelled by
// the list of the calls made to it (in the game it writes the record of the
// event). The functions below state what an event and an update do to the
// held keys and the tetrion; the class's methods are proved against them.

module GameInputs {
  import opened Bytes
  import opened Wrappers
  import opened InputEvents
  import opened TetrionStates
  import opened SimulatedTetrions

  datatype HoldableKey = Left | Right

  datatype GameInputType = Touch | Keyboard | Controller | Recording

  /** delayed_auto_shift_frames: the steps a key is held before it repeats. */
  const DelayedAutoShiftFrames: nat := 10
  /** auto_repeat_rate_frames: the steps between two repeats. */
  const AutoRepeatRateFrames: nat := 2

  /** m_keys_hold: the held left and right keys, each with the step of its next repeat. */
  type KeysHold = map<HoldableKey, u64>

  /** The keys held and the tetrion's state, together. */
  datatype Play = Play(keys: KeysHold, tetrion: Tetrion)

  /** supports_das: every input but touch. */
  function SupportsDas(kind: GameInputType): bool
  {
    kind != Touch
  }

  function MoveFor(key: HoldableKey): Command
  {
    if key == Left then MoveLeft else MoveRight
  }

  function Other(key: HoldableKey): HoldableKey
  {
    if key == Left then Right else Left
  }

  /** A command sent to the tetrion; the held keys stay. */
  function Sent(g: Grid, deal: Dealer, p: Play, command: Command, step: u64): (r: Play)
    requires Inv(g, deal, p.tetrion)
    ensures Inv(g, deal, r.tetrion) && r.keys == p.keys
  {
    HandleCommandInv(g, deal, p.tetrion, command, step);
    Play(p.keys, HandleCommand(g, deal, p.tetrion, command, step).state)
  }

  /**
   * A left or right key pressed. Without DAS the piece moves. With DAS the
   * key's next repeat is ten steps on; when the other key is not held the
   * piece moves, and a move that fails makes the key repeat at this step.
   */
  function Pressed(g: Grid, deal: Dealer, p: Play, das: bool, key: HoldableKey, step: u64): (r: Play)
    requires Inv(g, deal, p.tetrion)
    ensures Inv(g, deal, r.tetrion)
  {
    if !das then Sent(g, deal, p, MoveFor(key), step)
    else
      var held := p.keys[key := AddU64(step, DelayedAutoShiftFrames)];
      if Other(key) in p.keys then Play(held, p.tetrion)
      else
        HandleCommandInv(g, deal, p.tetrion, MoveFor(key), step);
        var o := HandleCommand(g, deal, p.tetrion, MoveFor(key), step);
        Play(if o.moved then held else p.keys[key := step], o.state)
  }

  /** A left or right key let go of: with DAS it is no longer held. */
  function Released(p: Play, das: bool, key: HoldableKey): Play
  {
    if das then Play(p.keys - {key}, p.tetrion) else p
  }

  /** handle_event, after the callback: the command or the key change each event makes. */
  function AfterEvent(g: Grid, deal: Dealer, p: Play, das: bool, event: InputEvent, step: u64): (r: Play)
    requires Inv(g, deal, p.tetrion)
    ensures Inv(g, deal, r.tetrion)
  {
    match event
    case RotateLeftPressed => Sent(g, deal, p, RotateLeft, step)
    case RotateRightPressed => Sent(g, deal, p, RotateRight, step)
    case MoveLeftPressed => Pressed(g, deal, p, das, Left, step)
    case MoveRightPressed => Pressed(g, deal, p, das, Right, step)
    case MoveDownPressed => Sent(g, deal, p, MoveDown, step)
    case DropPressed => Sent(g, deal, p, Drop, step)
    case HoldPressed => Sent(g, deal, p, Hold, step)
    case MoveLeftReleased => Released(p, das, Left)
    case MoveRightReleased => Released(p, das, Right)
    case MoveDownReleased => Sent(g, deal, p, ReleaseMoveDown, step)
    case RotateLeftReleased => p
    case RotateRightReleased => p
    case DropReleased => p
    case HoldReleased => p
  }

  /** Where the repeat loop of update leaves a due target: the first repeat step after the current step. */
  function NextRepeat(target: nat, current: nat): (r: nat)
    requires target <= current
    ensures current < r <= current + AutoRepeatRateFrames
    ensures target < r && (r - target) % AutoRepeatRateFrames == 0
  {
    target + AutoRepeatRateFrames * ((current - target) / AutoRepeatRateFrames + 1)
  }

  /** NextRepeat is the only step on the target's repeat grid just past the current step. */
  lemma NextRepeatUnique(target: nat, current: nat, j: nat)
    requires target <= current
    requires current < target + AutoRepeatRateFrames * j <= current + AutoRepeatRateFrames
    ensures target + AutoRepeatRateFrames * j == NextRepeat(target, current)
  {
  }

  /**
   * One held key in update: once its target step has come, the target moves
   * on by repeats past the current step and the piece moves; a move that
   * fails puts the next repeat ten steps on.
   */
  function Repeated(g: Grid, deal: Dealer, p: Play, key: HoldableKey, step: u64): (r: Play)
    requires Inv(g, deal, p.tetrion)
    requires step + AutoRepeatRateFrames < U64Modulus
    ensures Inv(g, deal, r.tetrion)
  {
    if key !in p.keys || step < p.keys[key] then p
    else
      HandleCommandInv(g, deal, p.tetrion, MoveFor(key), step);
      var o := HandleCommand(g, deal, p.tetrion, MoveFor(key), step);
      var next := if o.moved then NextRepeat(p.keys[key], step) else AddU64(step, DelayedAutoShiftFrames);
      Play(p.keys[key := next], o.state)
  }

  /** update: nothing while both keys are held; else each held key is repeated when due. */
  function Updated(g: Grid, deal: Dealer, p: Play, step: u64): (r: Play)
    requires Inv(g, deal, p.tetrion)
    requires step + AutoRepeatRateFrames < U64Modulus
    ensures Inv(g, deal, r.tetrion)
  {
    if Left in p.keys && Right in p.keys then p
    else Repeated(g, deal, Repeated(g, deal, p, Left, step), Right, step)
  }

  // ----- what the key handling promises -----

  /** Touch input moves at once and never holds a key. */
  lemma TouchHoldsNothing(g: Grid, deal: Dealer, p: Play, event: InputEvent, step: u64)
    requires Inv(g, deal, p.tetrion)
    ensures AfterEvent(g, deal, p, false, event, step).keys == p.keys
    ensures event == MoveLeftPressed ==>
      AfterEvent(g, deal, p, false, event, step).tetrion == HandleCommand(g, deal, p.tetrion, MoveLeft, step).state
  {
  }

  /** With DAS a release removes exactly that key and leaves the tetrion alone. */
  lemma ReleaseForgetsKey(g: Grid, deal: Dealer, p: Play, key: HoldableKey, step: u64)
    requires Inv(g, deal, p.tetrion)
    ensures var r := AfterEvent(g, deal, p, true, if key == Left then MoveLeftReleased else MoveRightReleased, step);
      key !in r.keys && r.tetrion == p.tetrion &&
      (Other(key) in r.keys <==> Other(key) in p.keys) &&
      (Other(key) in p.keys ==> r.keys[Other(key)] == p.keys[Other(key)])
  {
  }

  /**
   * With DAS a press holds the key: its next repeat is ten steps on, or this
   * very step when the piece could not move; while the other key is held the
   * piece stays where it is. The other key is untouched.
   */
  lemma PressHoldsKey(g: Grid, deal: Dealer, p: Play, key: HoldableKey, step: u64)
    requires Inv(g, deal, p.tetrion)
    ensures var r := Pressed(g, deal, p, true, key, step);
      key in r.keys &&
      (Other(key) in p.keys ==> r.tetrion == p.tetrion && r.keys[key] == AddU64(step, DelayedAutoShiftFrames)) &&
      (Other(key) !in p.keys ==>
        r.keys[key] == if HandleCommand(g, deal, p.tetrion, MoveFor(key), step).moved
                       then AddU64(step, DelayedAutoShiftFrames) else step) &&
      (Other(key) in r.keys <==> Other(key) in p.keys) &&
      (Other(key) in p.keys ==> r.keys[Other(key)] == p.keys[Other(key)])
  {
  }

  /** While both keys are held update changes nothing. */
  lemma BothHeldIsIdle(g: Grid, deal: Dealer, p: Play, step: u64)
    requires Inv(g, deal, p.tetrion) && step + AutoRepeatRateFrames < U64Modulus
    requires Left in p.keys && Right in p.keys
    ensures Updated(g, deal, p, step) == p
  {
  }

  /**
   * After update no held key is due any more: every target is past the
   * current step, and the same keys are held.
   */
  lemma UpdatePutsTargetsAhead(g: Grid, deal: Dealer, p: Play, step: u64)
    requires Inv(g, deal, p.tetrion) && step + DelayedAutoShiftFrames < U64Modulus
    requires !(Left in p.keys && Right in p.keys)
    ensures Updated(g, deal, p, step).keys.Keys == p.keys.Keys
    ensures forall key :: key in Updated(g, deal, p, step).keys ==> Updated(g, deal, p, step).keys[key] > step
  {
    var first := Repeated(g, deal, p, Left, step);
    RepeatedAhead(g, deal, p, Left, step);
    RepeatedAhead(g, deal, first, Right, step);
    var r := Updated(g, deal, p, step);
    assert r == Repeated(g, deal, first, Right, step);
    forall key | key in r.keys
      ensures r.keys[key] > step
    {
      if key == Left {
        assert Other(Right) == Left;
      }
    }
  }

  lemma RepeatedAhead(g: Grid, deal: Dealer, p: Play, key: HoldableKey, step: u64)
    requires Inv(g, deal, p.tetrion) && step + DelayedAutoShiftFrames < U64Modulus
    ensures var r := Repeated(g, deal, p, key, step);
      r.keys.Keys == p.keys.Keys &&
      (key in r.keys ==> r.keys[key] > step) &&
      (Other(key) in p.keys ==> r.keys[Other(key)] == p.keys[Other(key)])
  {
  }

  // ----- the class -----

  class GameInput {
    const inputType: GameInputType
    var keysHold: KeysHold
    var target: SimulatedTetrion
    /** Whether an event callback is set. */
    var hasCallback: bool
    /** The calls made to the event callback, in order. */
    var notified: seq<(InputEvent, u64)>

    constructor (inputType: GameInputType, target: SimulatedTetrion)
      ensures this.inputType == inputType && this.target == target
      ensures keysHold == map[] && !hasCallback && notified == []
    {
      this.inputType := inputType;
      this.target := target;
      keysHold := map[];
      hasCallback := false;
      notified := [];
    }

    /** set_event_callback. */
    method SetEventCallback()
      modifies this
      ensures hasCallback && keysHold == old(keysHold) && target == old(target) && notified == old(notified)
    {
      hasCallback := true;
    }

    function Current(): Play
      reads this, target, target.stack
    {
      Play(keysHold, target.State())
    }

    /** handle_event: the callback hears of the event first; then the event is dispatched. */
    method HandleEvent(event: InputEvent, step: u64)
      requires target.Valid()
      modifies this, target, target.stack
      ensures target == old(target) && hasCallback == old(hasCallback) && target.Valid()
      ensures notified == old(notified) + (if hasCallback then [(event, step)] else [])
      ensures Current() == AfterEvent(target.grid, target.deal, old(Current()), SupportsDas(inputType), event, step)
    {
      if hasCallback {
        notified := notified + [(event, step)];
      }
      Dispatch(event, step);
    }

    /** The switch of handle_event. */
    method Dispatch(event: InputEvent, step: u64)
      requires target.Valid()
      modifies this, target, target.stack
      ensures target == old(target) && hasCallback == old(hasCallback) && notified == old(notified)
      ensures Current() == AfterEvent(target.grid, target.deal, old(Current()), SupportsDas(inputType), event, step)
    {
      if event == RotateLeftPressed {
        Send(RotateLeft, step);
      } else if event == RotateRightPressed {
        Send(RotateRight, step);
      } else if event == MoveLeftPressed {
        Press(Left, step);
      } else if event == MoveRightPressed {
        Press(Right, step);
      } else if event == MoveDownPressed {
        Send(MoveDown, step);
      } else if event == DropPressed {
        Send(Drop, step);
      } else if event == HoldPressed {
        Send(Hold, step);
      } else if event == MoveLeftReleased {
        if SupportsDas(inputType) {
          keysHold := keysHold - {Left};
        }
      } else if event == MoveRightReleased {
        if SupportsDas(inputType) {
          keysHold := keysHold - {Right};
        }
      } else if event == MoveDownReleased {
        Send(ReleaseMoveDown, step);
      }
    }

    /** A command to the target tetrion, whose result handle_event does not use. */
    method Send(command: Command, step: u64)
      requires target.Valid()
      modifies target, target.stack
      ensures Current() == Sent(target.grid, target.deal, old(Current()), command, step)
    {
      var _ := target.HandleInputCommand(command, step);
    }

    /** A left or right key pressed, as handle_event's MoveLeftPressed and MoveRightPressed cases. */
    method Press(key: HoldableKey, step: u64)
      requires target.Valid()
      modifies this, target, target.stack
      ensures target == old(target) && hasCallback == old(hasCallback) && notified == old(notified)
      ensures Current() == Pressed(target.grid, target.deal, old(Current()), SupportsDas(inputType), key, step)
    {
      if !SupportsDas(inputType) {
        var _ := target.HandleInputCommand(MoveFor(key), step);
        return;
      }
      keysHold := keysHold[key := AddU64(step, DelayedAutoShiftFrames)];
      if Other(key) !in keysHold {
        var moved := target.HandleInputCommand(MoveFor(key), step);
        if !moved {
          keysHold := keysHold[key := step];
        }
      }
    }

    /**
     * update: nothing while both keys are held; else each held key whose
     * target step has come is repeated. At most one key is held then, so the
     * order in which the map is visited does not matter.
     */
    method Update(step: u64)
      requires target.Valid() && step + AutoRepeatRateFrames < U64Modulus
      modifies this, target, target.stack
      ensures target == old(target) && hasCallback == old(hasCallback) && notified == old(notified)
      ensures Current() == Updated(target.grid, target.deal, old(Current()), step)
    {
      var isLeftKeyDown := Left in keysHold;
      var isRightKeyDown := Right in keysHold;
      if isLeftKeyDown && isRightKeyDown {
        return;
      }
      Repeat(Left, step);
      Repeat(Right, step);
    }

    /** One entry of update's loop over the held keys. */
    method Repeat(key: HoldableKey, step: u64)
      requires target.Valid() && step + AutoRepeatRateFrames < U64Modulus
      modifies this, target, target.stack
      ensures target == old(target) && hasCallback == old(hasCallback) && notified == old(notified)
      ensures target.Valid()
      ensures Current() == Repeated(target.grid, target.deal, old(Current()), key, step)
    {
      if key !in keysHold || step < keysHold[key] {
        return;
      }
      var start := keysHold[key];
      var targetStep: nat := start;
      ghost var repeats: nat := 0;
      while targetStep <= step
        invariant targetStep == start + AutoRepeatRateFrames * repeats
        invariant repeats > 0 ==> targetStep <= step + AutoRepeatRateFrames
        decreases step + AutoRepeatRateFrames - targetStep
      {
        targetStep := targetStep + AutoRepeatRateFrames;
        repeats := repeats + 1;
      }
      NextRepeatUnique(start, step, repeats);
      keysHold := keysHold[key := targetStep];
      var moved := target.HandleInputCommand(MoveFor(key), step);
      if !moved {
        keysHold := keysHold[key := AddU64(step, DelayedAutoShiftFrames)];
      }
    }
  }
}
