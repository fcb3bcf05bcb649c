// Rotation and Tetromino of src/tetromino.hpp: the four rotations as a cycle,
// and a falling piece that keeps its four minos at its position plus the
// pattern of its type and rotation. Grid coordinates are u8, so every
// coordinate sum wraps around at 256, as the narrowing into a u8 point does.

module Tetrominos {
  import opened Bytes
  import opened MinoStacks

  /** Rotation, in declaration order North = 0 .. West = 3. */
  datatype Rotation = North | East | South | West

  function RotationIndex(r: Rotation): (i: nat)
    ensures i < 4
    ensures RotationFromIndex(i) == r
  {
    match r
    case North => 0
    case East => 1
    case South => 2
    case West => 3
  }

  /** static_cast<Rotation> of a value below four. */
  function RotationFromIndex(i: nat): Rotation
    requires i < 4
  {
    if i == 0 then North else if i == 1 then East else if i == 2 then South else West
  }

  /** operator++: one step clockwise, (r + 1) % (LastRotation + 1). */
  function Next(r: Rotation): (n: Rotation)
    ensures RotationIndex(n) == (RotationIndex(r) + 1) % 4
  {
    match r
    case North => East
    case East => South
    case South => West
    case West => North
  }

  /** operator--: one step counter-clockwise, (r + LastRotation) % (LastRotation + 1). */
  function Prev(r: Rotation): (p: Rotation)
    ensures RotationIndex(p) == (RotationIndex(r) + 3) % 4
  {
    match r
    case North => West
    case East => North
    case South => East
    case West => South
  }

  /** ++ runs North, East, South, West and back to North. */
  lemma NextCycles()
    ensures Next(North) == East && Next(East) == South && Next(South) == West && Next(West) == North
  {
  }

  /** -- undoes ++ and ++ undoes --. */
  lemma PrevIsInverse(r: Rotation)
    ensures Prev(Next(r)) == r && Next(Prev(r)) == r
  {
  }

  /** Four turns in the same direction are no turn. */
  lemma FourTurns(r: Rotation)
    ensures Next(Next(Next(Next(r)))) == r
    ensures Prev(Prev(Prev(Prev(r)))) == r
  {
  }

  /** A u8 coordinate after adding a (possibly negative) offset to it. */
  function Wrap(v: int): (r: u8)
    ensures r as int == v % 256
  {
    v % 256
  }

  /** Undoing an offset gives the coordinate back. */
  lemma WrapInverse(c: u8, d: int)
    ensures Wrap(Wrap(c as int + d) as int - d) == c
  {
    var w := Wrap(c as int + d) as int;
    assert w == (c as int + d) % 256;
    assert (c as int + d) == 256 * ((c as int + d) / 256) + w;
    assert w - d == c as int - 256 * ((c as int + d) / 256);
    ModMultiple(c as int, -((c as int + d) / 256));
  }

  lemma ModMultiple(c: int, k: int)
    requires 0 <= c < 256
    ensures (c + 256 * k) % 256 == c
  {
  }

  /** An offset of a pattern: both coordinates are small and non-negative. */
  type Offset = (nat, nat)

  /**
   * The pattern of each type and rotation: the offsets of the four minos from
   * the piece's position, in the order create_minos lays them out.
   */
  function Pattern(kind: TetrominoType, r: Rotation): (p: seq<Offset>)
    ensures |p| == 4
  {
    match kind
    case I =>
      (match r
       case North => [(0, 1), (1, 1), (2, 1), (3, 1)]
       case East => [(2, 0), (2, 1), (2, 2), (2, 3)]
       case South => [(0, 2), (1, 2), (2, 2), (3, 2)]
       case West => [(1, 0), (1, 1), (1, 2), (1, 3)])
    case J =>
      (match r
       case North => [(0, 0), (0, 1), (1, 1), (2, 1)]
       case East => [(2, 0), (1, 0), (1, 1), (1, 2)]
       case South => [(0, 1), (1, 1), (2, 1), (2, 2)]
       case West => [(0, 2), (1, 2), (1, 1), (1, 0)])
    case L =>
      (match r
       case North => [(0, 1), (1, 1), (2, 1), (2, 0)]
       case East => [(1, 0), (1, 1), (1, 2), (2, 2)]
       case South => [(0, 2), (0, 1), (1, 1), (2, 1)]
       case West => [(0, 0), (1, 0), (1, 1), (1, 2)])
    case O => [(1, 0), (2, 0), (1, 1), (2, 1)]
    case S =>
      (match r
       case North => [(0, 1), (1, 1), (1, 0), (2, 0)]
       case East => [(1, 0), (1, 1), (2, 1), (2, 2)]
       case South => [(0, 2), (1, 2), (1, 1), (2, 1)]
       case West => [(0, 0), (0, 1), (1, 1), (1, 2)])
    case T =>
      (match r
       case North => [(0, 1), (1, 1), (1, 0), (2, 1)]
       case East => [(1, 0), (1, 1), (2, 1), (1, 2)]
       case South => [(0, 1), (1, 1), (2, 1), (1, 2)]
       case West => [(1, 0), (1, 1), (0, 1), (1, 2)])
    case Z =>
      (match r
       case North => [(0, 0), (1, 0), (1, 1), (2, 1)]
       case East => [(2, 0), (2, 1), (1, 1), (1, 2)]
       case South => [(0, 1), (1, 1), (1, 2), (2, 2)]
       case West => [(1, 0), (1, 1), (0, 1), (0, 2)])
  }

  /** Every pattern lies in the 4 x 4 box at the position, its four cells distinct. */
  lemma PatternShape(kind: TetrominoType, r: Rotation)
    ensures forall i :: 0 <= i < 4 ==> Pattern(kind, r)[i].0 < 4 && Pattern(kind, r)[i].1 < 4
    ensures forall i, j :: 0 <= i < j < 4 ==> Pattern(kind, r)[i] != Pattern(kind, r)[j]
  {
  }

  /** The mino at a position plus an offset. */
  function Placed(position: Point, offset: Offset, kind: TetrominoType): Mino
  {
    Mino(Point(Wrap(position.x as int + offset.0), Wrap(position.y as int + offset.1)), kind)
  }

  /** create_minos: one mino per pattern offset, all of the piece's type. */
  function CreateMinos(position: Point, r: Rotation, kind: TetrominoType): (minos: seq<Mino>)
    ensures |minos| == 4
    ensures forall i :: 0 <= i < 4 ==> minos[i] == Placed(position, Pattern(kind, r)[i], kind)
  {
    var p := Pattern(kind, r);
    [Placed(position, p[0], kind), Placed(position, p[1], kind), Placed(position, p[2], kind), Placed(position, p[3], kind)]
  }

  /** What a tetromino is made of: its position, rotation and type. */
  datatype Piece = Piece(position: Point, rotation: Rotation, kind: TetrominoType)

  function MinosOf(p: Piece): seq<Mino>
  {
    CreateMinos(p.position, p.rotation, p.kind)
  }

  /** The piece moved by an offset, as move_down, move_up, move_left, move_right and move do. */
  function Moved(p: Piece, dx: int, dy: int): (q: Piece)
    ensures q.rotation == p.rotation && q.kind == p.kind
  {
    Piece(Point(Wrap(p.position.x as int + dx), Wrap(p.position.y as int + dy)), p.rotation, p.kind)
  }

  function RotatedRight(p: Piece): (q: Piece)
    ensures q.position == p.position && q.kind == p.kind && q.rotation == Next(p.rotation)
  {
    Piece(p.position, Next(p.rotation), p.kind)
  }

  function RotatedLeft(p: Piece): (q: Piece)
    ensures q.position == p.position && q.kind == p.kind && q.rotation == Prev(p.rotation)
  {
    Piece(p.position, Prev(p.rotation), p.kind)
  }

  /** A move followed by the opposite move leaves the piece where it was. */
  lemma MoveBack(p: Piece, dx: int, dy: int)
    ensures Moved(Moved(p, dx, dy), -dx, -dy) == p
  {
    WrapInverse(p.position.x, dx);
    WrapInverse(p.position.y, dy);
  }

  /** A rotation followed by the opposite rotation leaves the piece as it was. */
  lemma RotateBack(p: Piece)
    ensures RotatedLeft(RotatedRight(p)) == p && RotatedRight(RotatedLeft(p)) == p
  {
    PrevIsInverse(p.rotation);
  }

  /** Moving a piece moves each of its minos by the same offset. */
  lemma MovedMinos(p: Piece, dx: int, dy: int, i: nat)
    requires i < 4
    ensures MinosOf(Moved(p, dx, dy))[i].position
      == Point(Wrap(MinosOf(p)[i].position.x as int + dx), Wrap(MinosOf(p)[i].position.y as int + dy))
    ensures MinosOf(Moved(p, dx, dy))[i].kind == MinosOf(p)[i].kind
  {
    PlacedMoved(p.position, Pattern(p.kind, p.rotation)[i], dx, dy, p.kind);
  }

  lemma PlacedMoved(position: Point, o: Offset, dx: int, dy: int, kind: TetrominoType)
    ensures Placed(Point(Wrap(position.x as int + dx), Wrap(position.y as int + dy)), o, kind).position
      == Point(Wrap(Placed(position, o, kind).position.x as int + dx), Wrap(Placed(position, o, kind).position.y as int + dy))
  {
    WrapSum(position.x as int, dx, o.0);
    WrapSum(position.y as int, dy, o.1);
  }

  /** Adding two offsets one after the other, in either order, with wrap-around after each. */
  lemma WrapSum(a: int, b: int, c: int)
    ensures Wrap(Wrap(a + b) as int + c) == Wrap(Wrap(a + c) as int + b)
  {
    WrapThen(a + b, c);
    WrapThen(a + c, b);
  }

  lemma WrapThen(v: int, c: int)
    ensures Wrap(Wrap(v) as int + c) == Wrap(v + c)
  {
    var k := v / 256;
    assert Wrap(v) as int == v - 256 * k;
    ShiftMod(v + c, k);
  }

  lemma ShiftMod(s: int, k: int)
    ensures (s - 256 * k) % 256 == s % 256
  {
  }

  /** A falling piece with the minos create_minos gives for its position, rotation and type. */
  class Tetromino {
    var position: Point
    var rotation: Rotation
    var kind: TetrominoType
    var minos: seq<Mino>

    /** The minos always follow the position, rotation and type. */
    predicate Valid()
      reads this
    {
      minos == CreateMinos(position, rotation, kind)
    }

    function Value(): Piece
      reads this
    {
      Piece(position, rotation, kind)
    }

    /** A new tetromino faces North. */
    constructor (position: Point, kind: TetrominoType)
      ensures Valid() && Value() == Piece(position, North, kind)
    {
      this.position := position;
      this.rotation := North;
      this.kind := kind;
      this.minos := CreateMinos(position, North, kind);
    }

    method RotateRight()
      modifies this
      ensures Valid() && Value() == RotatedRight(old(Value()))
    {
      rotation := Next(rotation);
      RefreshMinos();
    }

    method RotateLeft()
      modifies this
      ensures Valid() && Value() == RotatedLeft(old(Value()))
    {
      rotation := Prev(rotation);
      RefreshMinos();
    }

    method MoveDown()
      modifies this
      ensures Valid() && Value() == Moved(old(Value()), 0, 1)
    {
      position := Moved(Value(), 0, 1).position;
      RefreshMinos();
    }

    method MoveUp()
      modifies this
      ensures Valid() && Value() == Moved(old(Value()), 0, -1)
    {
      position := Moved(Value(), 0, -1).position;
      RefreshMinos();
    }

    method MoveLeft()
      modifies this
      ensures Valid() && Value() == Moved(old(Value()), -1, 0)
    {
      position := Moved(Value(), -1, 0).position;
      RefreshMinos();
    }

    method MoveRight()
      modifies this
      ensures Valid() && Value() == Moved(old(Value()), 1, 0)
    {
      position := Moved(Value(), 1, 0).position;
      RefreshMinos();
    }

    /** move: the position plus a signed 8-bit offset. */
    method Move(dx: int, dy: int)
      requires -128 <= dx < 128 && -128 <= dy < 128
      modifies this
      ensures Valid() && Value() == Moved(old(Value()), dx, dy)
    {
      position := Moved(Value(), dx, dy).position;
      RefreshMinos();
    }

    method RefreshMinos()
      modifies this
      ensures Valid() && Value() == old(Value())
    {
      minos := CreateMinos(position, rotation, kind);
    }
  }

  /** move_down then move_up, or move_left then move_right, put a tetromino back where it was. */
  lemma MoveDownUp(p: Piece)
    ensures Moved(Moved(p, 0, 1), 0, -1) == p
    ensures Moved(Moved(p, -1, 0), 1, 0) == p
    ensures Moved(Moved(p, 1, 0), -1, 0) == p
  {
    MoveBack(p, 0, 1);
    MoveBack(p, -1, 0);
    MoveBack(p, 1, 0);
  }
}
