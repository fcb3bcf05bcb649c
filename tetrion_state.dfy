// The rules of SimulatedTetrion (src/game/simulated_tetrion.cpp) as functions
// on a value of the tetrion's state: where a piece may be, what each move,
// rotation, drop, hold and lock does to the state, how full lines are cleared
// and scored, and how the next piece is taken from the bags. The class in
// simulated_tetrion.dfy performs these steps on its fields and is proved to
// agree with them; the properties of the game are proved here.

module TetrionStates {
  import opened Bytes
  import opened Wrappers
  import opened MinoStacks
  import opened Tetrominos
  import opened TetrionTables

  // ----- fixed-width arithmetic of the source -----

  const U64Modulus: nat := 0x1_0000_0000_0000_0000
  const U32Modulus: nat := 0x1_0000_0000

  /** A u64 sum, wrapping around as unsigned arithmetic does. */
  function AddU64(a: nat, b: nat): (r: u64)
    ensures a + b < U64Modulus ==> r == a + b
  {
    (a + b) % U64Modulus
  }

  /** A u64 difference, wrapping around below zero. */
  function SubU64(a: nat, b: nat): (r: u64)
    ensures b <= a < U64Modulus ==> r == a - b
  {
    (a - b) % U64Modulus
  }

  /** A u32 sum, wrapping around. */
  function AddU32(a: nat, b: nat): (r: u32)
    ensures a + b < U32Modulus ==> r == a + b
  {
    (a + b) % U32Modulus
  }

  // ----- the state -----

  datatype GameState = Playing | GameOver

  datatype MovementType = Gravity | Forced

  /** input::GameInputCommand, the commands a tetrion accepts. */
  datatype Command = MoveLeft | MoveRight | MoveDown | RotateLeft | RotateRight | Drop | Hold | ReleaseMoveDown

  /** A Bag: seven tetromino types in the order the bag deals them. */
  type Bag = b: seq<TetrominoType> | |b| == 7 witness [I, I, I, I, I, I, I]

  /** An index into a bag. */
  type BagIndex = i: nat | i < 7

  /** m_sequence_bags: the bag being dealt and the one after it. */
  type Bags = s: seq<Bag> | |s| == 2 witness [[I, I, I, I, I, I, I], [I, I, I, I, I, I, I]]

  /** The playing field, grid::width_in_tiles by grid::height_in_tiles cells. */
  datatype Field = Field(width: nat, height: nat)

  /** Both sizes are positive and below 256, so every cell has u8 coordinates. */
  type Grid = f: Field | 0 < f.width < 256 && 0 < f.height < 256 witness Field(10, 22)

  /**
   * The bags the tetrion's random generator makes, one after another: Bag{ m_random }
   * for the n-th time gives deal(n). The generator itself is not part of this model.
   */
  type Dealer = nat -> Bag

  /** The fields of a SimulatedTetrion that its operations change. */
  datatype Tetrion = Tetrion(
    accelerated: bool,
    downKeyPressed: bool,
    allowedToHold: bool,
    inLockDelay: bool,
    executedLockDelays: u32,
    lockDelayStepIndex: u64,
    minos: seq<Mino>,
    level: u32,
    linesCleared: u32,
    score: u64,
    active: Option<Piece>,
    hold: Option<TetrominoType>,
    gameState: GameState,
    sequenceIndex: BagIndex,
    bags: Bags,
    bagsDrawn: nat,
    nextGravityStep: u64)

  /**
   * A new SimulatedTetrion: no piece yet, holding allowed, the lock delay
   * step at lock_delay, the level the starting level, the first two bags
   * drawn, and the first gravity step one level delay on.
   */
  function InitialState(deal: Dealer, startingLevel: u32): Tetrion
  {
    Tetrion(false, false, true, false, 0, LockDelay, [], startingLevel, 0, 0, None, None, Playing,
            0, [deal(0), deal(1)], 2, GravityDelayFrames(startingLevel, false))
  }

  /** A new tetrion keeps the invariant and has dealt no piece. */
  lemma InitialInv(g: Grid, deal: Dealer, startingLevel: u32)
    ensures Inv(g, deal, InitialState(deal, startingLevel))
    ensures DealtCount(InitialState(deal, startingLevel)) == 0
  {
  }

  // ----- where a piece may be -----

  /** is_valid_mino_position: inside the field and not on a mino of the stack. */
  predicate ValidMinoPosition(g: Grid, minos: seq<Mino>, p: Point)
  {
    p.x < g.width && p.y < g.height && !Occupied(minos, p)
  }

  /** mino_can_move_down: not on the bottom row, and the cell below (a u8 sum) is valid. */
  predicate MinoCanMoveDown(g: Grid, minos: seq<Mino>, p: Point)
  {
    p.y != g.height - 1 && ValidMinoPosition(g, minos, Point(p.x, Wrap(p.y as int + 1)))
  }

  /** is_tetromino_position_valid: every mino of the piece is on a valid position. */
  predicate PieceValid(g: Grid, minos: seq<Mino>, p: Piece)
  {
    forall i :: 0 <= i < 4 ==> ValidMinoPosition(g, minos, MinosOf(p)[i].position)
  }

  /** tetromino_can_move_down: every mino of the piece can move down. */
  predicate PieceCanMoveDown(g: Grid, minos: seq<Mino>, p: Piece)
  {
    forall i :: 0 <= i < 4 ==> MinoCanMoveDown(g, minos, MinosOf(p)[i].position)
  }

  /** A piece that can move down is on a valid position once it has. */
  lemma MovedDownValid(g: Grid, minos: seq<Mino>, p: Piece)
    requires PieceValid(g, minos, p) && PieceCanMoveDown(g, minos, p)
    ensures PieceValid(g, minos, Moved(p, 0, 1))
    ensures MinosOf(Moved(p, 0, 1))[0].position.y == MinosOf(p)[0].position.y + 1
  {
    forall i | 0 <= i < 4
      ensures ValidMinoPosition(g, minos, MinosOf(Moved(p, 0, 1))[i].position)
      ensures MinosOf(Moved(p, 0, 1))[i].position.y == MinosOf(p)[i].position.y + 1
    {
      MovedDownCell(g, minos, p, i);
    }
  }

  lemma MovedDownCell(g: Grid, minos: seq<Mino>, p: Piece, i: nat)
    requires i < 4 && MinosOf(p)[i].position.y < g.height
    requires MinoCanMoveDown(g, minos, MinosOf(p)[i].position)
    ensures ValidMinoPosition(g, minos, MinosOf(Moved(p, 0, 1))[i].position)
    ensures MinosOf(Moved(p, 0, 1))[i].position.y == MinosOf(p)[i].position.y + 1
  {
    var a := MinosOf(p)[i].position;
    var b := MinosOf(Moved(p, 0, 1))[i].position;
    MovedMinos(p, 0, 1, i);
    assert b == Point(Wrap(a.x as int + 0), Wrap(a.y as int + 1));
    WrapSmall(a.x as int);
    WrapSmall(a.y as int + 1);
  }

  lemma WrapSmall(v: int)
    requires 0 <= v < 256
    ensures Wrap(v) == v && Wrap(v + 0) == v
  {
  }

  // ----- full lines -----

  /** Every cell of row y is occupied. */
  predicate FullRow(g: Grid, minos: seq<Mino>, y: u8)
  {
    forall x: u8 :: x < g.width ==> Occupied(minos, Point(x, y))
  }

  predicate NoFullRow(g: Grid, minos: seq<Mino>)
  {
    forall y: u8 :: y < g.height ==> !FullRow(g, minos, y)
  }

  /** The scan of clear_fully_occupied_lines from row y on: the first full row, if there is one. */
  function FirstFullRow(g: Grid, minos: seq<Mino>, y: nat): (r: Option<u8>)
    ensures r.Some? ==> y <= r.value < g.height && FullRow(g, minos, r.value)
    ensures r.Some? ==> forall z: u8 :: y <= z < r.value ==> !FullRow(g, minos, z)
    ensures r.None? ==> forall z: u8 :: y <= z < g.height ==> !FullRow(g, minos, z)
    decreases g.height - y
  {
    if y >= g.height then None
    else if FullRow(g, minos, y) then Some(y)
    else FirstFullRow(g, minos, y + 1)
  }

  /** A full row has a mino, so clearing it makes the stack smaller. */
  lemma ClearingShrinks(g: Grid, minos: seq<Mino>, row: u8)
    requires FullRow(g, minos, row)
    ensures |Cleared(minos, row)| < |minos|
  {
    assert Occupied(minos, Point(0, row));
    var i :| 0 <= i < |minos| && minos[i].position == Point(0, row);
    WithoutRowShrinks(minos, row, i);
  }

  lemma {:induction false} WithoutRowShrinks(minos: seq<Mino>, row: u8, i: nat)
    requires i < |minos| && minos[i].position.y == row
    ensures |WithoutRow(minos, row)| < |minos|
  {
    var init := minos[..|minos| - 1];
    assert minos == init + [minos[|minos| - 1]];
    if i < |minos| - 1 {
      assert init[i] == minos[i];
      WithoutRowShrinks(init, row, i);
    }
  }

  /** The lines clear_fully_occupied_lines clears, one full row at a time, top row first. */
  function ClearCount(g: Grid, minos: seq<Mino>): nat
    decreases |minos|
  {
    match FirstFullRow(g, minos, 0)
    case None => 0
    case Some(r) =>
      ClearingShrinks(g, minos, r);
      1 + ClearCount(g, Cleared(minos, r))
  }

  /**
   * The do-while loop of clear_fully_occupied_lines: clear the first full row,
   * count the line, raise the level to lines / 10 when that is higher; again
   * until no row is full.
   */
  function ClearLoop(g: Grid, t: Tetrion): Tetrion
    decreases |t.minos|
  {
    match FirstFullRow(g, t.minos, 0)
    case None => t
    case Some(r) => ClearLoop(g, ClearStep(g, t, r))
  }

  /** One pass of the loop that found row r full. */
  function ClearStep(g: Grid, t: Tetrion, r: u8): (next: Tetrion)
    requires FirstFullRow(g, t.minos, 0) == Some(r)
    ensures |next.minos| < |t.minos|
  {
    ClearingShrinks(g, t.minos, r);
    var lines := AddU32(t.linesCleared, 1);
    var level := lines / 10;
    t.(linesCleared := lines, level := if level > t.level then level else t.level, minos := Cleared(t.minos, r))
  }

  /** clear_fully_occupied_lines: the loop, then the score of the lines cleared at the new level. */
  function ClearLines(g: Grid, t: Tetrion): Tetrion
    requires ClearCount(g, t.minos) <= 4
  {
    var after := ClearLoop(g, t);
    after.(score := AddU64(after.score, LineScore(ClearCount(g, t.minos), after.level)))
  }

  /** What the loop does to the counters: count the lines and keep the level from falling. */
  lemma ClearLoopCounts(g: Grid, t: Tetrion)
    ensures ClearLoop(g, t).linesCleared == AddU32(t.linesCleared, ClearCount(g, t.minos))
    ensures ClearLoop(g, t).level >= t.level
    ensures 0 < ClearCount(g, t.minos) && t.linesCleared + ClearCount(g, t.minos) < U32Modulus ==>
      ClearLoop(g, t).level == Max(t.level, (t.linesCleared + ClearCount(g, t.minos)) / 10)
  {
    ClearLoopLines(g, t);
    ClearLoopLevel(g, t);
  }

  /** One pass of the loop: the rest of the loop runs on the pass's result, and counts one line fewer. */
  lemma ClearLoopUnfold(g: Grid, t: Tetrion, r: u8)
    requires FirstFullRow(g, t.minos, 0) == Some(r)
    ensures ClearLoop(g, t) == ClearLoop(g, ClearStep(g, t, r))
    ensures ClearCount(g, t.minos) == 1 + ClearCount(g, ClearStep(g, t, r).minos)
  {
    assert ClearStep(g, t, r).minos == Cleared(t.minos, r);
  }

  /** Without a full row the loop stops at once, having counted nothing. */
  lemma ClearLoopStops(g: Grid, t: Tetrion)
    requires FirstFullRow(g, t.minos, 0).None?
    ensures ClearLoop(g, t) == t && ClearCount(g, t.minos) == 0
  {
  }

  lemma {:induction false} ClearLoopLines(g: Grid, t: Tetrion)
    ensures ClearLoop(g, t).linesCleared == AddU32(t.linesCleared, ClearCount(g, t.minos))
    decreases |t.minos|
  {
    var first := FirstFullRow(g, t.minos, 0);
    if first.None? {
      ClearLoopStops(g, t);
      assert t.linesCleared + 0 < U32Modulus;
    } else {
      var next := ClearStep(g, t, first.value);
      ClearLoopUnfold(g, t, first.value);
      ClearLoopLines(g, next);
      var rest := ClearCount(g, next.minos);
      assert next.linesCleared == AddU32(t.linesCleared, 1);
      AddU32Step(t.linesCleared, rest);
      var total := ClearCount(g, t.minos);
      assert total == 1 + rest;
      var lines := ClearLoop(g, next).linesCleared;
      assert lines == AddU32(t.linesCleared, 1 + rest);
      assert ClearLoop(g, t).linesCleared == lines;
    }
  }

  /** count more lines from lines, when they are some and do not wrap, lead to the level max(level, total / 10). */
  predicate LevelAfter(level: nat, lines: nat, count: nat, final: nat)
  {
    0 < count && lines + count < U32Modulus ==> final == Max(level, (lines + count) / 10)
  }

  lemma {:induction false} ClearLoopLevel(g: Grid, t: Tetrion)
    ensures ClearLoop(g, t).level >= t.level
    ensures LevelAfter(t.level, t.linesCleared, ClearCount(g, t.minos), ClearLoop(g, t).level)
    decreases |t.minos|
  {
    var first := FirstFullRow(g, t.minos, 0);
    if first.None? {
      ClearLoopStops(g, t);
    } else {
      var next := ClearStep(g, t, first.value);
      ClearLoopUnfold(g, t, first.value);
      ClearLoopLevel(g, next);
      var rest := ClearCount(g, next.minos);
      if rest == 0 {
        ClearCountZero(g, next);
      }
      ClearStepCounters(g, t, first.value);
      LevelSteps(t.level, t.linesCleared, next.level, next.linesCleared, ClearLoop(g, next).level, rest);
    }
  }

  /** One pass counts a line and raises the level to the count's tenth when that is higher. */
  lemma ClearStepCounters(g: Grid, t: Tetrion, r: u8)
    requires FirstFullRow(g, t.minos, 0) == Some(r)
    ensures ClearStep(g, t, r).linesCleared == (t.linesCleared + 1) % U32Modulus
    ensures ClearStep(g, t, r).level == Max(t.level, ClearStep(g, t, r).linesCleared / 10)
  {
  }

  /** A stack with no line to clear stops the loop at once. */
  lemma ClearCountZero(g: Grid, t: Tetrion)
    requires ClearCount(g, t.minos) == 0
    ensures ClearLoop(g, t) == t
  {
    if FirstFullRow(g, t.minos, 0).Some? {
      ClearLoopUnfold(g, t, FirstFullRow(g, t.minos, 0).value);
    }
  }

  /** The level after one counted line and rest more, from the level after the first of them. */
  lemma LevelSteps(level: nat, lines: nat, nextLevel: nat, nextLines: nat, final: nat, rest: nat)
    requires nextLines == (lines + 1) % U32Modulus && nextLevel == Max(level, nextLines / 10)
    requires final >= nextLevel
    requires rest == 0 ==> final == nextLevel
    requires LevelAfter(nextLevel, nextLines, rest, final)
    ensures final >= level
    ensures LevelAfter(level, lines, 1 + rest, final)
  {
    if lines + (1 + rest) < U32Modulus && rest > 0 {
      DivMonotone(lines + 1, lines + 1 + rest);
    }
  }

  lemma DivMonotone(a: nat, b: nat)
    requires a <= b
    ensures a / 10 <= b / 10
  {
  }

  /** What the loop does to the rest: no row is left full, the stack keeps one mino per cell, nothing else changes. */
  lemma {:induction false} ClearLoopStack(g: Grid, t: Tetrion)
    ensures NoFullRow(g, ClearLoop(g, t).minos)
    ensures DistinctPositions(t.minos) ==> DistinctPositions(ClearLoop(g, t).minos)
    ensures ClearLoop(g, t) == t.(linesCleared := ClearLoop(g, t).linesCleared, level := ClearLoop(g, t).level,
                                   minos := ClearLoop(g, t).minos)
    ensures ClearCount(g, t.minos) == 0 ==> ClearLoop(g, t) == t
    decreases |t.minos|
  {
    match FirstFullRow(g, t.minos, 0)
    case None =>
    case Some(r) =>
      var next := ClearStep(g, t, r);
      if DistinctPositions(t.minos) {
        ClearedKeepsDistinct(t.minos, r);
      }
      ClearLoopStack(g, next);
  }

  lemma AddU32Step(a: nat, k: nat)
    ensures AddU32(AddU32(a, 1), k) == AddU32(a, 1 + k)
  {
    var b := (a + 1) % U32Modulus;
    assert a + 1 == U32Modulus * ((a + 1) / U32Modulus) + b;
    ShiftModU32(b + k, (a + 1) / U32Modulus);
  }

  /** The u32 difference of a u32 sum and its first operand is the second, as lines_cleared - lines_cleared_before is. */
  lemma SubAfterAddU32(a: u32, k: nat)
    requires k < U32Modulus
    ensures (AddU32(a, k) - a) % U32Modulus == k
  {
    if a + k >= U32Modulus {
      assert AddU32(a, k) == a + k - U32Modulus;
    }
  }

  lemma ShiftModU32(s: int, k: int)
    ensures (s + U32Modulus * k) % U32Modulus == s % U32Modulus
  {
  }

  // ----- at most four lines at once -----

  /** The rows of a list of minos. */
  function RowsOf(minos: seq<Mino>): (rows: set<u8>)
    ensures |rows| <= |minos|
    ensures forall i :: 0 <= i < |minos| ==> minos[i].position.y in rows
    ensures forall y :: y in rows ==> exists i :: 0 <= i < |minos| && minos[i].position.y == y
  {
    if |minos| == 0 then {}
    else
      var last := minos[|minos| - 1];
      var rest := RowsOf(minos[..|minos| - 1]);
      assert forall i :: 0 <= i < |minos| - 1 ==> minos[..|minos| - 1][i] == minos[i];
      rest + {last.position.y}
  }

  /** The rows of a set after clearing row r: those above r move down one. */
  ghost function ShiftedRows(rows: set<u8>, r: u8): (s: set<u8>)
    ensures |s| <= |rows|
    ensures forall y :: y in rows && y > r ==> y in s
    ensures forall y :: y in rows && y < r ==> y + 1 in s
    decreases |rows|
  {
    if rows == {} then {}
    else
      var y :| y in rows;
      var rest := ShiftedRows(rows - {y}, r);
      assert forall z :: z in rows && z != y ==> z in rows - {y};
      rest + {if y < r then y + 1 else y}
  }

  /** A cell of the stack after clearing row r was occupied before, where it was or one row higher. */
  lemma CellAfterClear(minos: seq<Mino>, r: u8, p: Point)
    requires Occupied(Cleared(minos, r), p)
    ensures p.y != 0
    ensures p.y > r ==> Occupied(minos, p)
    ensures p.y <= r ==> Occupied(minos, Point(p.x, p.y - 1))
  {
    var i :| 0 <= i < |Cleared(minos, r)| && Cleared(minos, r)[i].position == p;
    var m := Cleared(minos, r)[i];
    ClearedContents(minos, r, m);
    var m0 :| m0 in minos && m0.position.y != r && m == Lowered(m0, r);
    var j :| 0 <= j < |minos| && minos[j] == m0;
    if m0.position.y < r {
      assert minos[j].position == Point(p.x, p.y - 1);
    } else {
      assert minos[j].position == p;
    }
  }

  /** A full row after clearing row r was full before: the same row below r, the row above it otherwise. */
  lemma FullRowAfterClear(g: Grid, minos: seq<Mino>, r: u8, y: u8)
    requires FullRow(g, Cleared(minos, r), y)
    ensures y != 0
    ensures y > r ==> FullRow(g, minos, y)
    ensures y <= r ==> FullRow(g, minos, y - 1)
  {
    CellAfterClear(minos, r, Point(0, y));
    if y > r {
      forall x: u8 | x < g.width
        ensures Occupied(minos, Point(x, y))
      {
        CellAfterClear(minos, r, Point(x, y));
      }
    } else {
      var above: u8 := y - 1;
      forall x: u8 | x < g.width
        ensures Occupied(minos, Point(x, above))
      {
        CellAfterClear(minos, r, Point(x, y));
      }
    }
  }

  /** When every full row is among rows, at most |rows| lines are cleared. */
  lemma {:induction false} ClearCountBound(g: Grid, minos: seq<Mino>, rows: set<u8>)
    requires forall y: u8 :: y < g.height && FullRow(g, minos, y) ==> y in rows
    ensures ClearCount(g, minos) <= |rows|
    decreases |minos|
  {
    match FirstFullRow(g, minos, 0)
    case None =>
    case Some(r) =>
      ClearingShrinks(g, minos, r);
      var shifted := ShiftedRows(rows - {r}, r);
      forall y: u8 | y < g.height && FullRow(g, Cleared(minos, r), y)
        ensures y in shifted
      {
        FullRowAfterClear(g, minos, r, y);
      }
      ClearCountBound(g, Cleared(minos, r), shifted);
  }

  /** set on a list of minos, one after another. */
  function SetAll(minos: seq<Mino>, placed: seq<Mino>): seq<Mino>
  {
    if |placed| == 0 then minos
    else
      var last := placed[|placed| - 1];
      SetMino(SetAll(minos, placed[..|placed| - 1]), last.position, last.kind)
  }

  lemma SetAllSnoc(minos: seq<Mino>, placed: seq<Mino>, m: Mino)
    ensures SetAll(minos, placed + [m]) == SetMino(SetAll(minos, placed), m.position, m.kind)
  {
    assert (placed + [m])[..|placed|] == placed;
  }

  /** After setting minos, a cell is occupied exactly when it was before or one of them is there. */
  lemma {:induction false} SetAllOccupied(minos: seq<Mino>, placed: seq<Mino>, p: Point)
    ensures Occupied(SetAll(minos, placed), p) <==>
      Occupied(minos, p) || exists i :: 0 <= i < |placed| && placed[i].position == p
  {
    if |placed| > 0 {
      var init := placed[..|placed| - 1];
      var last := placed[|placed| - 1];
      SetAllOccupied(minos, init, p);
      SetOccupied(SetAll(minos, init), last.position, last.kind, p);
      if exists i :: 0 <= i < |placed| && placed[i].position == p {
        var i :| 0 <= i < |placed| && placed[i].position == p;
        if i < |placed| - 1 {
          assert init[i] == placed[i];
        }
      }
      if exists i :: 0 <= i < |init| && init[i].position == p {
        var i :| 0 <= i < |init| && init[i].position == p;
        assert placed[i] == init[i];
      }
    }
  }

  /** set(q, t) occupies q and leaves the occupation of the other cells as it was. */
  lemma SetOccupied(minos: seq<Mino>, q: Point, t: TetrominoType, p: Point)
    ensures Occupied(SetMino(minos, q, t), p) <==> Occupied(minos, p) || p == q
  {
    SetOccupies(minos, q, t);
    if p != q {
      var after := SetMino(minos, q, t);
      if Occupied(after, p) {
        var i :| 0 <= i < |after| && after[i].position == p;
        SetKeepsOthers(minos, q, t, after[i]);
        var j :| 0 <= j < |minos| && minos[j] == after[i];
      }
      if Occupied(minos, p) {
        var i :| 0 <= i < |minos| && minos[i].position == p;
        SetKeepsOthers(minos, q, t, minos[i]);
        var j :| 0 <= j < |after| && after[j] == minos[i];
      }
    }
  }

  lemma {:induction false} SetAllDistinct(minos: seq<Mino>, placed: seq<Mino>)
    requires DistinctPositions(minos)
    ensures DistinctPositions(SetAll(minos, placed))
  {
    if |placed| > 0 {
      var last := placed[|placed| - 1];
      SetAllDistinct(minos, placed[..|placed| - 1]);
      SetKeepsDistinct(SetAll(minos, placed[..|placed| - 1]), last.position, last.kind);
    }
  }

  /**
   * Locking a piece onto a stack without full rows fills at most the piece's
   * rows, so clear_fully_occupied_lines clears at most four lines and its
   * score_per_line_multiplier.at(lines) never throws.
   */
  lemma LockClearsAtMostFour(g: Grid, minos: seq<Mino>, piece: seq<Mino>)
    requires NoFullRow(g, minos) && |piece| == 4
    ensures ClearCount(g, SetAll(minos, piece)) <= 4
  {
    var rows := RowsOf(piece);
    forall y: u8 | y < g.height && FullRow(g, SetAll(minos, piece), y)
      ensures y in rows
    {
      if y !in rows {
        assert FullRow(g, minos, y) by {
          forall x: u8 | x < g.width
            ensures Occupied(minos, Point(x, y))
          {
            SetAllOccupied(minos, piece, Point(x, y));
          }
        }
      }
    }
    ClearCountBound(g, SetAll(minos, piece), rows);
  }

  // ----- the bags -----

  /** get_next_tetromino_type's result: the type at the sequence index in the first bag. */
  function NextType(t: Tetrion): TetrominoType
  {
    t.bags[0][t.sequenceIndex]
  }

  /** get_next_tetromino_type's update: the next index, and the next bag once the first is used up. */
  function AfterNextType(deal: Dealer, t: Tetrion): Tetrion
  {
    var index := (t.sequenceIndex + 1) % 7;
    if index == 0 then t.(sequenceIndex := 0, bags := [t.bags[1], deal(t.bagsDrawn)], bagsDrawn := t.bagsDrawn + 1)
    else t.(sequenceIndex := index)
  }

  /** The bags are the last two drawn. */
  predicate BagsDealt(deal: Dealer, t: Tetrion)
  {
    t.bagsDrawn >= 2 && t.bags[0] == deal(t.bagsDrawn - 2) && t.bags[1] == deal(t.bagsDrawn - 1)
  }

  /** The pieces dealt so far: seven from each bag used up, and those of the current bag. */
  function DealtCount(t: Tetrion): int
  {
    7 * (t.bagsDrawn - 2) + t.sequenceIndex
  }

  /**
   * The 7-bag rule: the n-th piece dealt (from 0) is piece n % 7 of bag n / 7,
   * so each run of seven pieces from a multiple of seven is exactly one bag.
   */
  lemma SevenBag(deal: Dealer, t: Tetrion)
    requires BagsDealt(deal, t)
    ensures DealtCount(t) >= 0
    ensures NextType(t) == deal(DealtCount(t) / 7)[DealtCount(t) % 7]
    ensures BagsDealt(deal, AfterNextType(deal, t))
    ensures DealtCount(AfterNextType(deal, t)) == DealtCount(t) + 1
  {
    DivModSeven(t.bagsDrawn - 2, t.sequenceIndex);
    var after := AfterNextType(deal, t);
    if t.sequenceIndex == 6 {
      assert after.bagsDrawn == t.bagsDrawn + 1 && after.sequenceIndex == 0;
    } else {
      assert after.bagsDrawn == t.bagsDrawn && after.sequenceIndex == t.sequenceIndex + 1;
    }
  }

  lemma DivModSeven(q: nat, r: nat)
    requires r < 7
    ensures (7 * q + r) / 7 == q && (7 * q + r) % 7 == r
  {
  }

  // ----- spawning -----

  /** spawn_position: where every new piece appears. */
  const SpawnPosition: Point := Point(3, 0)

  /**
   * One pass of the raise loop after a failed spawn: every mino of the piece
   * that is at least k rows down, moved k rows up, is on a valid position.
   */
  predicate RaisedValid(g: Grid, minos: seq<Mino>, piece: seq<Mino>, k: nat)
  {
    forall i :: 0 <= i < |piece| && piece[i].position.y >= k ==>
      ValidMinoPosition(g, minos, Point(piece[i].position.x, piece[i].position.y - k))
  }

  /** move_up after the raise loop: the fewest rows, at least k, for which the pass succeeds. */
  function MoveUpCount(g: Grid, minos: seq<Mino>, piece: seq<Mino>, k: nat): (n: nat)
    requires 1 <= k
    ensures k <= n && RaisedValid(g, minos, piece, n)
    ensures forall j :: k <= j < n ==> !RaisedValid(g, minos, piece, j)
    decreases 256 - k
  {
    if k >= 256 || RaisedValid(g, minos, piece, k) then k else MoveUpCount(g, minos, piece, k + 1)
  }

  /** A pass raising every mino 256 rows or more checks no mino, so it succeeds. */
  lemma RaisedValidHigh(g: Grid, minos: seq<Mino>, piece: seq<Mino>, k: nat)
    requires 256 <= k
    ensures RaisedValid(g, minos, piece, k)
  {
  }

  /** The raise loop's count is the least n from k on whose pass succeeds: any such n is MoveUpCount. */
  lemma {:induction false} MoveUpCountLeast(g: Grid, minos: seq<Mino>, piece: seq<Mino>, k: nat, n: nat)
    requires 1 <= k <= n <= 256
    requires RaisedValid(g, minos, piece, n)
    requires forall j :: k <= j < n ==> !RaisedValid(g, minos, piece, j)
    ensures MoveUpCount(g, minos, piece, k) == n
    decreases n - k
  {
    if k < n {
      MoveUpCountLeast(g, minos, piece, k + 1, n);
    }
  }

  /** The minos of a piece that are at least k rows down, moved k rows up, in order. */
  function RaiseAll(piece: seq<Mino>, k: nat): seq<Mino>
  {
    if |piece| == 0 then []
    else
      var last := piece[|piece| - 1];
      RaiseAll(piece[..|piece| - 1], k)
        + (if last.position.y >= k then [Mino(Point(last.position.x, last.position.y - k), last.kind)] else [])
  }

  lemma RaiseAllStep(piece: seq<Mino>, i: nat, k: nat)
    requires i < |piece|
    ensures RaiseAll(piece[..i + 1], k) == RaiseAll(piece[..i], k) +
      (if piece[i].position.y >= k then [Mino(Point(piece[i].position.x, piece[i].position.y - k), piece[i].kind)] else [])
  {
    assert piece[..i + 1][..i] == piece[..i];
  }

  /**
   * spawn_next_tetromino(type): a new piece of that type at the spawn position.
   * Where it does not fit the game is over: the part of it that fits above the
   * stack is moved up onto it, and no piece is left.
   */
  function Spawned(g: Grid, t: Tetrion, kind: TetrominoType, step: u64): (r: Tetrion)
    ensures r == t.(active := r.active, nextGravityStep := r.nextGravityStep, gameState := r.gameState, minos := r.minos)
    ensures r.active.Some? ==> r.active.value == Piece(SpawnPosition, North, kind) && r.minos == t.minos
  {
    var p := Piece(SpawnPosition, North, kind);
    if PieceValid(g, t.minos, p) then
      t.(active := Some(p), nextGravityStep := AddU64(step, GravityDelayFrames(t.level, t.accelerated)))
    else
      var k := MoveUpCount(g, t.minos, MinosOf(p), 1);
      t.(gameState := GameOver, minos := SetAll(t.minos, RaiseAll(MinosOf(p), k)), active := None)
  }

  /** The two outcomes of a spawn, each on its own. */
  lemma SpawnCases(g: Grid, t: Tetrion, kind: TetrominoType, step: u64)
    ensures var p := Piece(SpawnPosition, North, kind);
      PieceValid(g, t.minos, p) ==>
        Spawned(g, t, kind, step) == t.(active := Some(p), nextGravityStep := AddU64(step, GravityDelayFrames(t.level, t.accelerated)))
    ensures var p := Piece(SpawnPosition, North, kind);
      !PieceValid(g, t.minos, p) ==>
        Spawned(g, t, kind, step) ==
        t.(gameState := GameOver, minos := SetAll(t.minos, RaiseAll(MinosOf(p), MoveUpCount(g, t.minos, MinosOf(p), 1))), active := None)
  {
  }

  /** spawn_next_tetromino(): the next type from the bags, then spawn it. */
  function SpawnedNext(g: Grid, deal: Dealer, t: Tetrion, step: u64): Tetrion
  {
    Spawned(g, AfterNextType(deal, t), NextType(t), step)
  }

  // ----- moving and rotating -----

  /** reset_lock_delay: the piece may rest lock_delay steps from now. */
  function ResetLockDelay(t: Tetrion, step: u64): Tetrion
  {
    t.(lockDelayStepIndex := AddU64(step, LockDelay))
  }

  /** with_lock_delay: a movement that succeeded while the piece rests counts as one lock delay. */
  function WithLockDelay(t: Tetrion, succeeded: bool): Tetrion
  {
    if succeeded && t.inLockDelay then t.(executedLockDelays := AddU32(t.executedLockDelays, 1)) else t
  }

  /** move's result: there is a piece and it fits dx columns over. */
  predicate MoveFits(g: Grid, t: Tetrion, dx: int)
  {
    t.active.Some? && PieceValid(g, t.minos, Moved(t.active.value, dx, 0))
  }

  /** move: the piece dx columns over when it fits there, else nothing changes. */
  function Shifted(g: Grid, t: Tetrion, dx: int): Tetrion
  {
    if MoveFits(g, t, dx) then t.(active := Some(Moved(t.active.value, dx, 0))) else t
  }

  function Turned(p: Piece, right: bool): Piece
  {
    if right then RotatedRight(p) else RotatedLeft(p)
  }

  /** The first of the kicks from index j on with which the piece fits. */
  function FirstKick(g: Grid, minos: seq<Mino>, p: Piece, kicks: seq<Kick>, j: nat): (r: Option<nat>)
    ensures r.Some? ==> j <= r.value < |kicks| && PieceValid(g, minos, Moved(p, kicks[r.value].0, kicks[r.value].1))
    ensures r.Some? ==> forall i :: j <= i < r.value ==> !PieceValid(g, minos, Moved(p, kicks[i].0, kicks[i].1))
    ensures r.None? ==> forall i :: j <= i < |kicks| ==> !PieceValid(g, minos, Moved(p, kicks[i].0, kicks[i].1))
    decreases |kicks| - j
  {
    if j >= |kicks| then None
    else if PieceValid(g, minos, Moved(p, kicks[j].0, kicks[j].1)) then Some(j)
    else FirstKick(g, minos, p, kicks, j + 1)
  }

  /** The kicks rotate tries for a turn of the piece: its table's row for the transition; none for O. */
  function KicksFor(p: Piece, right: bool): (r: Option<seq<Kick>>)
    ensures r.None? <==> p.kind == O
    ensures r.Some? ==> |r.value| == 5 && r.value[0] == (0, 0)
  {
    match KickTable(p.kind)
    case None => None
    case Some(table) => Some(table[RotationToIndex(p.rotation, Turned(p, right).rotation)])
  }

  /** The translation rotate succeeds with: the first kick with which the turned piece fits. */
  function RotateKick(g: Grid, t: Tetrion, right: bool): (r: Option<Kick>)
    ensures r.Some? ==> t.active.Some? && t.active.value.kind != O
    ensures r.Some? ==> PieceValid(g, t.minos, Moved(Turned(t.active.value, right), r.value.0, r.value.1))
  {
    if t.active.None? then None
    else match KicksFor(t.active.value, right)
      case None => None
      case Some(kicks) =>
        match FirstKick(g, t.minos, Turned(t.active.value, right), kicks, 0)
        case None => None
        case Some(j) => Some(kicks[j])
  }

  /** rotate: the turned piece moved by the kick that fits, or nothing changes. */
  function Rotated(g: Grid, t: Tetrion, right: bool): Tetrion
  {
    match RotateKick(g, t, right)
    case None => t
    case Some(k) => t.(active := Some(Moved(Turned(t.active.value, right), k.0, k.1)))
  }

  /** The outcomes of rotate, each on its own: no turn without a piece or a table, else the first kick that fits. */
  lemma RotatedCases(g: Grid, t: Tetrion, right: bool)
    ensures t.active.None? ==> Rotated(g, t, right) == t && RotateKick(g, t, right).None?
    ensures t.active.Some? && KicksFor(t.active.value, right).None? ==>
      Rotated(g, t, right) == t && RotateKick(g, t, right).None?
    ensures t.active.Some? && KicksFor(t.active.value, right).Some? ==>
      var turned := Turned(t.active.value, right);
      var kicks := KicksFor(t.active.value, right).value;
      match FirstKick(g, t.minos, turned, kicks, 0)
      case None => Rotated(g, t, right) == t && RotateKick(g, t, right).None?
      case Some(j) => (Rotated(g, t, right) == t.(active := Some(Moved(turned, kicks[j].0, kicks[j].1)))
        && RotateKick(g, t, right).Some?)
  {
  }

  // ----- falling, locking, dropping, holding -----

  /** What the tetrion keeps true between its operations. */
  predicate Inv(g: Grid, deal: Dealer, t: Tetrion)
  {
    && (t.active.Some? ==> PieceValid(g, t.minos, t.active.value) && NoFullRow(g, t.minos))
    && (t.gameState == GameOver ==> t.active.None?)
    && DistinctPositions(t.minos)
    && BagsDealt(deal, t)
  }

  /** move_tetromino_down's result: there is a piece and it can move down. */
  predicate FallsOneRow(g: Grid, t: Tetrion)
  {
    t.active.Some? && PieceCanMoveDown(g, t.minos, t.active.value)
  }

  /**
   * lock_active_tetromino: the piece's minos join the stack, holding is allowed
   * again, the lock delay ends, full lines are cleared, the next piece spawns.
   */
  function Locked(g: Grid, deal: Dealer, t: Tetrion, step: u64): Tetrion
    requires t.active.Some? && NoFullRow(g, t.minos)
  {
    LockClearsAtMostFour(g, t.minos, MinosOf(t.active.value));
    ResetLockDelay(SpawnedNext(g, deal, ClearLines(g, Placed(t)), step), step)
  }

  /** The first part of lock_active_tetromino: the piece joins the stack and the lock delay ends. */
  function Placed(t: Tetrion): Tetrion
    requires t.active.Some?
  {
    t.(minos := SetAll(t.minos, MinosOf(t.active.value)), allowedToHold := true, inLockDelay := false,
       executedLockDelays := 0)
  }

  /** The invariant depends on the piece, the stack, the game state and the bags alone. */
  lemma InvFrame(g: Grid, deal: Dealer, t: Tetrion, u: Tetrion)
    requires Inv(g, deal, t)
    requires u.active == t.active && u.minos == t.minos && u.gameState == t.gameState
    requires u.bags == t.bags && u.bagsDrawn == t.bagsDrawn
    ensures Inv(g, deal, u)
  {
  }

  /**
   * move_tetromino_down: a forced movement scores 4. A piece that can fall
   * moves down a row; one that cannot starts resting, and locks once it has
   * used up its lock delays or rested past the lock delay step.
   */
  function MovedDown(g: Grid, deal: Dealer, t: Tetrion, kind: MovementType, step: u64): Tetrion
    requires t.active.Some? ==> NoFullRow(g, t.minos)
  {
    if t.active.None? then t
    else
      var scored := if kind == Forced then t.(score := AddU64(t.score, 4)) else t;
      if PieceCanMoveDown(g, t.minos, t.active.value) then scored.(active := Some(Moved(t.active.value, 0, 1)))
      else Rested(g, deal, scored, step)
  }

  /** A piece that cannot fall rests; it locks once its lock delays are used up or the lock delay step has come. */
  function Rested(g: Grid, deal: Dealer, t: Tetrion, step: u64): Tetrion
    requires t.active.Some? && NoFullRow(g, t.minos)
  {
    var resting := t.(inLockDelay := true);
    if resting.executedLockDelays >= NumLockDelays || step >= resting.lockDelayStepIndex then
      ResetLockDelay(Locked(g, deal, resting, step), step)
    else resting.(nextGravityStep := AddU64(step, 1))
  }

  /** The rows drop_tetromino's loop moves the piece down. */
  function DropDistance(g: Grid, minos: seq<Mino>, p: Piece): nat
    requires PieceValid(g, minos, p)
    decreases g.height - MinosOf(p)[0].position.y
  {
    if PieceCanMoveDown(g, minos, p) then
      MovedDownValid(g, minos, p);
      1 + DropDistance(g, minos, Moved(p, 0, 1))
    else 0
  }

  /** Where drop_tetromino's loop leaves the piece: as far down as it fits. */
  function Fallen(g: Grid, minos: seq<Mino>, p: Piece): (q: Piece)
    requires PieceValid(g, minos, p)
    ensures PieceValid(g, minos, q) && !PieceCanMoveDown(g, minos, q)
    decreases g.height - MinosOf(p)[0].position.y
  {
    if PieceCanMoveDown(g, minos, p) then
      MovedDownValid(g, minos, p);
      Fallen(g, minos, Moved(p, 0, 1))
    else p
  }

  /** One row of the drop: the piece moved down is valid and falls to the same place, one row nearer. */
  lemma FallStep(g: Grid, minos: seq<Mino>, p: Piece)
    requires PieceValid(g, minos, p) && PieceCanMoveDown(g, minos, p)
    ensures PieceValid(g, minos, Moved(p, 0, 1))
    ensures Fallen(g, minos, Moved(p, 0, 1)) == Fallen(g, minos, p)
    ensures DropDistance(g, minos, p) == 1 + DropDistance(g, minos, Moved(p, 0, 1))
  {
    MovedDownValid(g, minos, p);
  }

  /** A piece that cannot move down has fallen already. */
  lemma FallStops(g: Grid, minos: seq<Mino>, p: Piece)
    requires PieceValid(g, minos, p) && !PieceCanMoveDown(g, minos, p)
    ensures Fallen(g, minos, p) == p && DropDistance(g, minos, p) == 0
  {
  }

  /** drop_tetromino: the piece falls as far as it fits, scoring 4 a row, and locks. */
  function Dropped(g: Grid, deal: Dealer, t: Tetrion, step: u64): Tetrion
    requires t.active.Some? ==> PieceValid(g, t.minos, t.active.value) && NoFullRow(g, t.minos)
  {
    if t.active.None? then t else Locked(g, deal, Landed(g, t), step)
  }

  /** drop_tetromino's loop: the piece as far down as it fits, and 4 points for each row it fell. */
  function Landed(g: Grid, t: Tetrion): (u: Tetrion)
    requires t.active.Some? && PieceValid(g, t.minos, t.active.value)
    ensures u == t.(active := u.active, score := u.score)
    ensures u.active.Some? && PieceValid(g, u.minos, u.active.value) && !PieceCanMoveDown(g, u.minos, u.active.value)
  {
    var p := t.active.value;
    t.(active := Some(Fallen(g, t.minos, p)), score := AddU64(t.score, 4 * DropDistance(g, t.minos, p)))
  }

  /** drop_tetromino's result: the piece fell at least one row. */
  predicate DropMoved(g: Grid, t: Tetrion)
    requires t.active.Some? ==> PieceValid(g, t.minos, t.active.value)
  {
    t.active.Some? && DropDistance(g, t.minos, t.active.value) > 0
  }

  /**
   * hold_tetromino: the piece's type goes on hold; the type held before, or
   * else the next type from the bags, spawns.
   */
  function Held(g: Grid, deal: Dealer, t: Tetrion, step: u64): Tetrion
  {
    if t.active.None? then t
    else if t.hold.None? then SpawnedNext(g, deal, t.(hold := Some(t.active.value.kind)), step)
    else Spawned(g, t.(hold := Some(t.active.value.kind)), t.hold.value, step)
  }

  // ----- commands and steps -----

  /** What handle_input_command leaves, and whether the command moved the piece. */
  datatype Outcome = Outcome(state: Tetrion, moved: bool)

  /** A movement through with_lock_delay; when it succeeded the lock delay restarts. */
  function Movement(t: Tetrion, after: Tetrion, succeeded: bool, step: u64): Outcome
  {
    var counted := WithLockDelay(after, succeeded);
    if succeeded then Outcome(ResetLockDelay(counted, step), true) else Outcome(counted, false)
  }

  /** handle_input_command, on a build that is not for Android. */
  function HandleCommand(g: Grid, deal: Dealer, t: Tetrion, command: Command, step: u64): Outcome
    requires Inv(g, deal, t)
  {
    match command
    case RotateLeft => Movement(t, Rotated(g, t, false), RotateKick(g, t, false).Some?, step)
    case RotateRight => Movement(t, Rotated(g, t, true), RotateKick(g, t, true).Some?, step)
    case MoveLeft => Movement(t, Shifted(g, t, -1), MoveFits(g, t, -1), step)
    case MoveRight => Movement(t, Shifted(g, t, 1), MoveFits(g, t, 1), step)
    case MoveDown =>
      var pressed := t.(downKeyPressed := true, accelerated := true,
                        nextGravityStep := AddU64(step, GravityDelayFrames(t.level, true)));
      var after := MovedDown(g, deal, pressed, Forced, step);
      if FallsOneRow(g, pressed) then Outcome(ResetLockDelay(after, step), true) else Outcome(after, false)
    case Drop =>
      var instant := t.(lockDelayStepIndex := step);
      Outcome(Dropped(g, deal, instant, step), DropMoved(g, instant))
    case ReleaseMoveDown => Outcome(t.(downKeyPressed := false), false)
    case Hold =>
      if t.allowedToHold then Outcome(ResetLockDelay(Held(g, deal, t, step), step).(allowedToHold := false), true)
      else Outcome(t, false)
  }

  /**
   * update_step: while playing, at the gravity step the piece falls a row, or
   * an acceleration that has been let go of ends; then the next gravity step
   * is set from the current speed.
   */
  function UpdateStep(g: Grid, deal: Dealer, t: Tetrion, step: u64): Tetrion
    requires Inv(g, deal, t)
  {
    if t.gameState == GameOver || step < t.nextGravityStep then t
    else
      var fallen :=
        if t.accelerated && !t.downKeyPressed then
          t.(nextGravityStep := SubU64(t.nextGravityStep, GravityDelayFrames(t.level, true)), accelerated := false)
        else
          var after := MovedDown(g, deal, t, if t.accelerated then Forced else Gravity, step);
          if FallsOneRow(g, t) then ResetLockDelay(after, step) else after;
      fallen.(nextGravityStep := AddU64(fallen.nextGravityStep, GravityDelayFrames(fallen.level, fallen.accelerated)))
  }

  // ----- the invariant is kept -----

  /** A spawn keeps the invariant: the piece is there exactly when it fits, and the game is over when not. */
  lemma SpawnedInv(g: Grid, deal: Dealer, t: Tetrion, kind: TetrominoType, step: u64)
    requires DistinctPositions(t.minos) && NoFullRow(g, t.minos) && BagsDealt(deal, t)
    requires t.gameState == Playing
    ensures Inv(g, deal, Spawned(g, t, kind, step))
    ensures Spawned(g, t, kind, step).active.Some? <==> PieceValid(g, t.minos, Piece(SpawnPosition, North, kind))
    ensures Spawned(g, t, kind, step).active.None? ==> Spawned(g, t, kind, step).gameState == GameOver
    ensures DealtCount(Spawned(g, t, kind, step)) == DealtCount(t)
  {
    var p := Piece(SpawnPosition, North, kind);
    if !PieceValid(g, t.minos, p) {
      SetAllDistinct(t.minos, RaiseAll(MinosOf(p), MoveUpCount(g, t.minos, MinosOf(p), 1)));
    }
  }

  /** The next spawn keeps the invariant, and its piece is the next one the bags deal. */
  lemma SpawnedNextInv(g: Grid, deal: Dealer, t: Tetrion, step: u64)
    requires DistinctPositions(t.minos) && NoFullRow(g, t.minos) && BagsDealt(deal, t)
    requires t.gameState == Playing
    ensures Inv(g, deal, SpawnedNext(g, deal, t, step))
    ensures DealtCount(SpawnedNext(g, deal, t, step)) == DealtCount(t) + 1
    ensures SpawnedNext(g, deal, t, step).active.Some? ==>
      SpawnedNext(g, deal, t, step).active.value.kind == deal(DealtCount(t) / 7)[DealtCount(t) % 7]
  {
    SevenBag(deal, t);
    SpawnedInv(g, deal, AfterNextType(deal, t), NextType(t), step);
  }

  /**
   * A lock keeps the invariant, counts the lines its piece completes (at most
   * four), never lowers the level, and starts the new piece with holding allowed.
   */
  lemma LockedInv(g: Grid, deal: Dealer, t: Tetrion, step: u64)
    requires Inv(g, deal, t) && t.active.Some?
    ensures Inv(g, deal, Locked(g, deal, t, step))
    ensures Locked(g, deal, t, step).allowedToHold && !Locked(g, deal, t, step).inLockDelay
    ensures Locked(g, deal, t, step).executedLockDelays == 0
  {
    LockClearsAtMostFour(g, t.minos, MinosOf(t.active.value));
    var cleared := ClearLines(g, Placed(t));
    PlacedClearedInv(g, deal, t);
    var spawned := SpawnedNext(g, deal, cleared, step);
    SpawnedNextInv(g, deal, cleared, step);
    InvFrame(g, deal, spawned, ResetLockDelay(spawned, step));
  }

  /** After the piece joins the stack and full lines are cleared, all the next spawn needs holds. */
  lemma PlacedClearedInv(g: Grid, deal: Dealer, t: Tetrion)
    requires Inv(g, deal, t) && t.active.Some?
    ensures ClearCount(g, Placed(t).minos) <= 4
    ensures var cleared := ClearLines(g, Placed(t));
      && DistinctPositions(cleared.minos) && NoFullRow(g, cleared.minos) && BagsDealt(deal, cleared)
      && cleared.gameState == Playing && cleared.allowedToHold && !cleared.inLockDelay
      && cleared.executedLockDelays == 0
  {
    var placed := Placed(t);
    SetAllDistinct(t.minos, MinosOf(t.active.value));
    LockClearsAtMostFour(g, t.minos, MinosOf(t.active.value));
    ClearLinesKeeps(g, placed);
  }

  /** A lock counts the lines its piece completes, at most four, and never lowers the level. */
  lemma LockedCounts(g: Grid, deal: Dealer, t: Tetrion, step: u64)
    requires t.active.Some? && NoFullRow(g, t.minos)
    ensures ClearCount(g, SetAll(t.minos, MinosOf(t.active.value))) <= 4
    ensures Locked(g, deal, t, step).level >= t.level
    ensures Locked(g, deal, t, step).linesCleared
      == AddU32(t.linesCleared, ClearCount(g, SetAll(t.minos, MinosOf(t.active.value))))
  {
    LockClearsAtMostFour(g, t.minos, MinosOf(t.active.value));
    ClearLinesKeeps(g, Placed(t));
  }

  /** clear_fully_occupied_lines leaves no full row, keeps positions distinct and touches only the counters and the stack. */
  lemma ClearLinesKeeps(g: Grid, t: Tetrion)
    requires ClearCount(g, t.minos) <= 4
    ensures var after := ClearLines(g, t);
      && NoFullRow(g, after.minos)
      && (DistinctPositions(t.minos) ==> DistinctPositions(after.minos))
      && after == t.(linesCleared := after.linesCleared, level := after.level, score := after.score, minos := after.minos)
      && after.level >= t.level
      && after.linesCleared == AddU32(t.linesCleared, ClearCount(g, t.minos))
  {
    ClearLoopStack(g, t);
    ClearLoopCounts(g, t);
  }

  /** move_tetromino_down keeps the invariant and never lowers the level. */
  lemma MovedDownInv(g: Grid, deal: Dealer, t: Tetrion, kind: MovementType, step: u64)
    requires Inv(g, deal, t)
    ensures Inv(g, deal, MovedDown(g, deal, t, kind, step))
    ensures MovedDown(g, deal, t, kind, step).level >= t.level
  {
    if t.active.Some? {
      if PieceCanMoveDown(g, t.minos, t.active.value) {
        FallingInv(g, deal, t, kind, step);
      } else {
        RestingInv(g, deal, t, kind, step);
      }
    }
  }

  /** A piece that can fall moves down a row and still fits. */
  lemma FallingInv(g: Grid, deal: Dealer, t: Tetrion, kind: MovementType, step: u64)
    requires Inv(g, deal, t) && FallsOneRow(g, t)
    ensures Inv(g, deal, MovedDown(g, deal, t, kind, step))
    ensures MovedDown(g, deal, t, kind, step).level == t.level
  {
    MovedDownValid(g, t.minos, t.active.value);
  }

  /** A piece that cannot fall rests, or locks. */
  lemma RestingInv(g: Grid, deal: Dealer, t: Tetrion, kind: MovementType, step: u64)
    requires Inv(g, deal, t) && t.active.Some? && !FallsOneRow(g, t)
    ensures Inv(g, deal, MovedDown(g, deal, t, kind, step))
    ensures MovedDown(g, deal, t, kind, step).level >= t.level
  {
    var scored := if kind == Forced then t.(score := AddU64(t.score, 4)) else t;
    var resting := scored.(inLockDelay := true);
    InvFrame(g, deal, t, resting);
    if resting.executedLockDelays >= NumLockDelays || step >= resting.lockDelayStepIndex {
      var locked := Locked(g, deal, resting, step);
      LockedInv(g, deal, resting, step);
      LockedCounts(g, deal, resting, step);
      InvFrame(g, deal, locked, ResetLockDelay(locked, step));
    } else {
      InvFrame(g, deal, resting, resting.(nextGravityStep := AddU64(step, 1)));
    }
  }

  /** drop_tetromino keeps the invariant and never lowers the level. */
  lemma DroppedInv(g: Grid, deal: Dealer, t: Tetrion, step: u64)
    requires Inv(g, deal, t)
    ensures Inv(g, deal, Dropped(g, deal, t, step))
    ensures Dropped(g, deal, t, step).level >= t.level
  {
    if t.active.Some? {
      var fallen := Landed(g, t);
      assert Inv(g, deal, fallen);
      LockedInv(g, deal, fallen, step);
      LockedCounts(g, deal, fallen, step);
    }
  }

  /** hold_tetromino keeps the invariant and leaves the level alone. */
  lemma HeldInv(g: Grid, deal: Dealer, t: Tetrion, step: u64)
    requires Inv(g, deal, t)
    ensures Inv(g, deal, Held(g, deal, t, step))
    ensures Held(g, deal, t, step).level == t.level
  {
    if t.active.Some? {
      if t.hold.None? {
        SpawnedNextInv(g, deal, t.(hold := Some(t.active.value.kind)), step);
      } else {
        SpawnedInv(g, deal, t.(hold := Some(t.active.value.kind)), t.hold.value, step);
      }
    }
  }

  /** A movement through with_lock_delay keeps the invariant and the level of the state it starts from. */
  lemma MovementInv(g: Grid, deal: Dealer, t: Tetrion, after: Tetrion, succeeded: bool, step: u64)
    requires Inv(g, deal, after)
    ensures Inv(g, deal, Movement(t, after, succeeded, step).state)
    ensures Movement(t, after, succeeded, step).state.level == after.level
  {
    var counted := WithLockDelay(after, succeeded);
    InvFrame(g, deal, after, counted);
    InvFrame(g, deal, counted, ResetLockDelay(counted, step));
  }

  /** rotate keeps the invariant: the piece it leaves fits. */
  lemma RotatedInv(g: Grid, deal: Dealer, t: Tetrion, right: bool)
    requires Inv(g, deal, t)
    ensures Inv(g, deal, Rotated(g, t, right)) && Rotated(g, t, right).level == t.level
  {
    var kick := RotateKick(g, t, right);
    if kick.Some? {
      var q := Moved(Turned(t.active.value, right), kick.value.0, kick.value.1);
      assert PieceValid(g, t.minos, q);
      assert Rotated(g, t, right) == t.(active := Some(q));
    } else {
      assert Rotated(g, t, right) == t;
    }
  }

  /** move keeps the invariant: the piece it leaves fits. */
  lemma ShiftedInv(g: Grid, deal: Dealer, t: Tetrion, dx: int)
    requires Inv(g, deal, t)
    ensures Inv(g, deal, Shifted(g, t, dx)) && Shifted(g, t, dx).level == t.level
  {
  }

  /** Every command keeps the invariant, and none lowers the level. */
  lemma HandleCommandInv(g: Grid, deal: Dealer, t: Tetrion, command: Command, step: u64)
    requires Inv(g, deal, t)
    ensures Inv(g, deal, HandleCommand(g, deal, t, command, step).state)
    ensures HandleCommand(g, deal, t, command, step).state.level >= t.level
  {
    var o := HandleCommand(g, deal, t, command, step);
    match command
    case RotateLeft =>
      RotatedInv(g, deal, t, false);
      MovementInv(g, deal, t, Rotated(g, t, false), RotateKick(g, t, false).Some?, step);
    case RotateRight =>
      RotatedInv(g, deal, t, true);
      MovementInv(g, deal, t, Rotated(g, t, true), RotateKick(g, t, true).Some?, step);
    case MoveLeft =>
      ShiftedInv(g, deal, t, -1);
      MovementInv(g, deal, t, Shifted(g, t, -1), MoveFits(g, t, -1), step);
    case MoveRight =>
      ShiftedInv(g, deal, t, 1);
      MovementInv(g, deal, t, Shifted(g, t, 1), MoveFits(g, t, 1), step);
    case MoveDown =>
      var pressed := t.(downKeyPressed := true, accelerated := true,
                        nextGravityStep := AddU64(step, GravityDelayFrames(t.level, true)));
      InvFrame(g, deal, t, pressed);
      var after := MovedDown(g, deal, pressed, Forced, step);
      MovedDownInv(g, deal, pressed, Forced, step);
      InvFrame(g, deal, after, ResetLockDelay(after, step));
    case Drop =>
      var instant := t.(lockDelayStepIndex := step);
      InvFrame(g, deal, t, instant);
      DroppedInv(g, deal, instant, step);
    case ReleaseMoveDown =>
      InvFrame(g, deal, t, t.(downKeyPressed := false));
    case Hold =>
      HeldInv(g, deal, t, step);
      var held := Held(g, deal, t, step);
      InvFrame(g, deal, held, ResetLockDelay(held, step).(allowedToHold := false));
  }

  /** Every simulation step keeps the invariant, and none lowers the level. */
  lemma UpdateStepInv(g: Grid, deal: Dealer, t: Tetrion, step: u64)
    requires Inv(g, deal, t)
    ensures Inv(g, deal, UpdateStep(g, deal, t, step))
    ensures UpdateStep(g, deal, t, step).level >= t.level
  {
    if t.gameState == Playing && step >= t.nextGravityStep {
      var fallen: Tetrion;
      if t.accelerated && !t.downKeyPressed {
        fallen := t.(nextGravityStep := SubU64(t.nextGravityStep, GravityDelayFrames(t.level, true)), accelerated := false);
        InvFrame(g, deal, t, fallen);
      } else {
        var after := MovedDown(g, deal, t, if t.accelerated then Forced else Gravity, step);
        MovedDownInv(g, deal, t, if t.accelerated then Forced else Gravity, step);
        fallen := if FallsOneRow(g, t) then ResetLockDelay(after, step) else after;
        InvFrame(g, deal, after, fallen);
      }
      InvFrame(g, deal, fallen,
               fallen.(nextGravityStep := AddU64(fallen.nextGravityStep, GravityDelayFrames(fallen.level, fallen.accelerated))));
    }
  }

  // ----- what the commands do -----

  /**
   * A sideways move or a rotation that fails changes nothing at all; one that
   * succeeds keeps the stack, restarts the lock delay and, while the piece
   * rests, uses up one lock delay.
   */
  lemma MovementEffect(g: Grid, deal: Dealer, t: Tetrion, command: Command, step: u64)
    requires Inv(g, deal, t)
    requires command in {MoveLeft, MoveRight, RotateLeft, RotateRight}
    ensures var o := HandleCommand(g, deal, t, command, step);
      && (!o.moved ==> o.state == t)
      && (o.moved ==> t.active.Some? && o.state.active.Some? && o.state.minos == t.minos)
      && (o.moved ==> o.state.lockDelayStepIndex == AddU64(step, LockDelay))
      && (o.moved ==> o.state.executedLockDelays
                        == if t.inLockDelay then AddU32(t.executedLockDelays, 1) else t.executedLockDelays)
  {
  }

  /** A move one column over that succeeds, and one back, leave the tetrion as it was. */
  lemma ShiftBack(g: Grid, t: Tetrion, dx: int)
    requires dx == 1 || dx == -1
    requires MoveFits(g, t, dx) && PieceValid(g, t.minos, t.active.value)
    ensures Shifted(g, Shifted(g, t, dx), -dx) == t
  {
    var p := t.active.value;
    MoveBack(p, dx, 0);
    assert Moved(Moved(p, dx, 0), -dx, -0) == p;
    var over := t.(active := Some(Moved(p, dx, 0)));
    assert Shifted(g, t, dx) == over;
    assert MoveFits(g, over, -dx);
    assert Shifted(g, over, -dx) == over.(active := Some(p));
  }

  /** O never rotates. */
  lemma ORefusesRotation(g: Grid, t: Tetrion, right: bool)
    requires t.active.Some? && t.active.value.kind == O
    ensures RotateKick(g, t, right).None? && Rotated(g, t, right) == t
  {
  }

  /**
   * rotate takes the first kick of the transition's row with which the turned
   * piece fits, and fails only when none does.
   */
  lemma RotateTakesFirstKick(g: Grid, t: Tetrion, right: bool)
    requires t.active.Some? && t.active.value.kind != O
    ensures var p := Turned(t.active.value, right);
      var kicks := KicksFor(t.active.value, right).value;
      && (RotateKick(g, t, right).None? <==> forall j :: 0 <= j < 5 ==> !PieceValid(g, t.minos, Moved(p, kicks[j].0, kicks[j].1)))
      && (RotateKick(g, t, right).Some? ==>
            exists j :: 0 <= j < 5 && kicks[j] == RotateKick(g, t, right).value
                     && forall i :: 0 <= i < j ==> !PieceValid(g, t.minos, Moved(p, kicks[i].0, kicks[i].1)))
  {
    var p := Turned(t.active.value, right);
    var kicks := KicksFor(t.active.value, right).value;
    var first := FirstKick(g, t.minos, p, kicks, 0);
    if first.Some? {
      assert kicks[first.value] == RotateKick(g, t, right).value;
    }
  }

  /** A rotation that succeeds turns the piece one quarter and moves it by one of its kicks. */
  lemma RotationTurns(g: Grid, t: Tetrion, right: bool)
    requires t.active.Some? && RotateKick(g, t, right).Some?
    ensures var q := Rotated(g, t, right).active.value;
      && q.kind == t.active.value.kind
      && q.rotation == (if right then Next(t.active.value.rotation) else Prev(t.active.value.rotation))
      && q == Moved(Turned(t.active.value, right), RotateKick(g, t, right).value.0, RotateKick(g, t, right).value.1)
      && PieceValid(g, t.minos, q)
  {
  }

  /** drop_tetromino moved the piece exactly when it could fall a row. */
  lemma DropMovedIffFalls(g: Grid, t: Tetrion)
    requires t.active.Some? ==> PieceValid(g, t.minos, t.active.value)
    ensures DropMoved(g, t) <==> FallsOneRow(g, t)
  {
  }

  /** The drop loop ends where the piece is its drop distance further down. */
  lemma {:induction false} FallenIsMovedDown(g: Grid, minos: seq<Mino>, p: Piece)
    requires PieceValid(g, minos, p)
    ensures Fallen(g, minos, p) == Moved(p, 0, DropDistance(g, minos, p))
    decreases g.height - MinosOf(p)[0].position.y
  {
    if PieceCanMoveDown(g, minos, p) {
      MovedDownValid(g, minos, p);
      var below := Moved(p, 0, 1);
      var n := DropDistance(g, minos, below);
      assert Fallen(g, minos, p) == Fallen(g, minos, below);
      assert DropDistance(g, minos, p) == 1 + n;
      FallenIsMovedDown(g, minos, below);
      MovedTwice(p, 1, n);
    } else {
      assert Fallen(g, minos, p) == p && DropDistance(g, minos, p) == 0;
      WrapSmall(p.position.x as int);
      WrapSmall(p.position.y as int);
    }
  }

  /** Two moves down are one move down by their sum. */
  lemma MovedTwice(p: Piece, a: int, b: int)
    ensures Moved(Moved(p, 0, a), 0, b) == Moved(p, 0, a + b)
  {
    WrapThen(p.position.x as int + 0, 0);
    WrapThen(p.position.y as int + a, b);
    assert p.position.y as int + a + b == p.position.y as int + (a + b);
  }

  /**
   * Hold works once per piece: it succeeds exactly when holding is allowed,
   * and straight after it a second hold fails.
   */
  lemma HoldOncePerPiece(g: Grid, deal: Dealer, t: Tetrion, step: u64, later: u64)
    requires Inv(g, deal, t)
    ensures HandleCommand(g, deal, t, Hold, step).moved <==> t.allowedToHold
    ensures Inv(g, deal, HandleCommand(g, deal, t, Hold, step).state)
    ensures !HandleCommand(g, deal, HandleCommand(g, deal, t, Hold, step).state, Hold, later).moved
  {
    HandleCommandInv(g, deal, t, Hold, step);
  }

  /** A hold puts the piece's type on hold and brings back the type held before, at the spawn position. */
  lemma HoldSwaps(g: Grid, deal: Dealer, t: Tetrion, step: u64)
    requires Inv(g, deal, t) && t.allowedToHold && t.active.Some? && t.hold.Some?
    ensures var after := HandleCommand(g, deal, t, Hold, step).state;
      && after.hold == Some(t.active.value.kind)
      && (after.active.Some? ==> after.active.value == Piece(SpawnPosition, North, t.hold.value))
      && DealtCount(after) == DealtCount(t)
  {
  }

  /** The first hold keeps the piece's type and spawns the next type from the bags. */
  lemma FirstHoldDeals(g: Grid, deal: Dealer, t: Tetrion, step: u64)
    requires Inv(g, deal, t) && t.allowedToHold && t.active.Some? && t.hold.None?
    ensures var after := HandleCommand(g, deal, t, Hold, step).state;
      && after.hold == Some(t.active.value.kind)
      && DealtCount(after) == DealtCount(t) + 1
      && (after.active.Some? ==> after.active.value.kind == deal(DealtCount(t) / 7)[DealtCount(t) % 7])
  {
    SpawnedNextInv(g, deal, t.(hold := Some(t.active.value.kind)), step);
  }

  /**
   * The down key moved the piece exactly when it could fall; then it is one
   * row down, 4 points were scored and the piece falls accelerated.
   */
  lemma MoveDownCommand(g: Grid, deal: Dealer, t: Tetrion, step: u64)
    requires Inv(g, deal, t)
    ensures HandleCommand(g, deal, t, MoveDown, step).moved <==> FallsOneRow(g, t)
    ensures FallsOneRow(g, t) ==>
      var after := HandleCommand(g, deal, t, MoveDown, step).state;
      && after.active == Some(Moved(t.active.value, 0, 1)) && after.minos == t.minos
      && after.score == AddU64(t.score, 4)
      && after.accelerated && after.downKeyPressed
      && after.nextGravityStep == AddU64(step, GravityDelayFrames(t.level, true))
  {
    var pressed := t.(downKeyPressed := true, accelerated := true,
                      nextGravityStep := AddU64(step, GravityDelayFrames(t.level, true)));
    assert FallsOneRow(g, pressed) == FallsOneRow(g, t);
    if FallsOneRow(g, t) {
      var moved := pressed.(score := AddU64(t.score, 4), active := Some(Moved(t.active.value, 0, 1)));
      assert MovedDown(g, deal, pressed, Forced, step) == moved;
    }
  }

  /** Once the game is over, no command and no step brings back a piece or changes the stack. */
  lemma GameOverIsFinal(g: Grid, deal: Dealer, t: Tetrion, command: Command, step: u64)
    requires Inv(g, deal, t) && t.gameState == GameOver
    ensures var after := HandleCommand(g, deal, t, command, step).state;
      after.gameState == GameOver && after.active.None? && after.minos == t.minos
    ensures UpdateStep(g, deal, t, step) == t
  {
  }
}
