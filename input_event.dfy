// The InputEvent enumeration: the fourteen key events a tetrion reacts to.
// A recording stores an event as its underlying byte, the position of the
// event in the enumeration's declaration.

module InputEvents {
  import opened Bytes
  import opened Wrappers

  datatype InputEvent =
    | RotateLeftPressed
    | RotateRightPressed
    | MoveLeftPressed
    | MoveRightPressed
    | MoveDownPressed
    | DropPressed
    | HoldPressed
    | RotateLeftReleased
    | RotateRightReleased
    | MoveLeftReleased
    | MoveRightReleased
    | MoveDownReleased
    | DropReleased
    | HoldReleased

  const EventCount: nat := 14

  /** utils::to_underlying on an event. */
  function EventIndex(e: InputEvent): (r: u8)
    ensures r < EventCount
    ensures EventFromIndex(r) == Some(e)
  {
    match e
    case RotateLeftPressed => 0
    case RotateRightPressed => 1
    case MoveLeftPressed => 2
    case MoveRightPressed => 3
    case MoveDownPressed => 4
    case DropPressed => 5
    case HoldPressed => 6
    case RotateLeftReleased => 7
    case RotateRightReleased => 8
    case MoveLeftReleased => 9
    case MoveRightReleased => 10
    case MoveDownReleased => 11
    case DropReleased => 12
    case HoldReleased => 13
  }

  /** magic_enum::enum_cast<InputEvent>: defined exactly on the fourteen underlying values. */
  function EventFromIndex(b: nat): (r: Option<InputEvent>)
    ensures r.Some? <==> b < EventCount
  {
    if b == 0 then Some(RotateLeftPressed)
    else if b == 1 then Some(RotateRightPressed)
    else if b == 2 then Some(MoveLeftPressed)
    else if b == 3 then Some(MoveRightPressed)
    else if b == 4 then Some(MoveDownPressed)
    else if b == 5 then Some(DropPressed)
    else if b == 6 then Some(HoldPressed)
    else if b == 7 then Some(RotateLeftReleased)
    else if b == 8 then Some(RotateRightReleased)
    else if b == 9 then Some(MoveLeftReleased)
    else if b == 10 then Some(MoveRightReleased)
    else if b == 11 then Some(MoveDownReleased)
    else if b == 12 then Some(DropReleased)
    else if b == 13 then Some(HoldReleased)
    else None
  }

  /** The cast of a valid underlying value gives back an event with that value. */
  lemma EventFromIndexInverse(b: nat)
    requires b < EventCount
    ensures EventFromIndex(b).Some? && EventIndex(EventFromIndex(b).value) == b
  {
  }
}
