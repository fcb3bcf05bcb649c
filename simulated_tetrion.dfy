// SimulatedTetrion of src/game/simulated_tetrion.cpp and .hpp as a class whose
// methods update its fields as the source's do. Every method is proved against
// the function of TetrionStates that states what it does to the state, and the
// invariant Inv is kept by every public operation.
//
// The stack is the MinoStack object the tetrion owns; the active piece is held
// by value (a Piece); the piece on hold is its type (its drawing position is
// fixed). The ghost piece, the previews, the texts, the music and the
// snapshots written in debug builds are not part of this model.

module SimulatedTetrions {
  import opened Bytes
  import opened Wrappers
  import opened MinoStacks
  import opened Tetrominos
  import opened TetrionTables
  import opened TetrionStates
  import opened TetrionSnapshots

  class SimulatedTetrion {
    const grid: Grid
    const deal: Dealer
    const tetrionIndex: u8
    const stack: MinoStack

    var accelerated: bool
    var downKeyPressed: bool
    var allowedToHold: bool
    var inLockDelay: bool
    var executedLockDelays: u32
    var lockDelayStepIndex: u64
    var level: u32
    var linesCleared: u32
    var score: u64
    var active: Option<Piece>
    var hold: Option<TetrominoType>
    var gameState: GameState
    var sequenceIndex: BagIndex
    var bags: Bags
    /** How many bags the random generator has made so far. */
    var bagsDrawn: nat
    var nextGravityStep: u64

    /** The fields as one value. */
    function State(): Tetrion
      reads this, stack
    {
      Tetrion(accelerated, downKeyPressed, allowedToHold, inLockDelay, executedLockDelays, lockDelayStepIndex,
              stack.minos, level, linesCleared, score, active, hold, gameState, sequenceIndex, bags, bagsDrawn,
              nextGravityStep)
    }

    predicate Valid()
      reads this, stack
    {
      Inv(grid, deal, State())
    }

    constructor (tetrionIndex: u8, grid: Grid, deal: Dealer, startingLevel: u32)
      ensures this.tetrionIndex == tetrionIndex && this.grid == grid && this.deal == deal
      ensures State() == InitialState(deal, startingLevel) && Valid()
      ensures fresh(stack)
    {
      this.tetrionIndex := tetrionIndex;
      this.grid := grid;
      this.deal := deal;
      stack := new MinoStack();
      accelerated := false;
      downKeyPressed := false;
      allowedToHold := true;
      inLockDelay := false;
      executedLockDelays := 0;
      lockDelayStepIndex := LockDelay;
      level := startingLevel;
      linesCleared := 0;
      score := 0;
      active := None;
      hold := None;
      gameState := Playing;
      sequenceIndex := 0;
      bags := [deal(0), deal(1)];
      bagsDrawn := 2;
      nextGravityStep := GravityDelayFrames(startingLevel, false);
      new;
      InitialInv(grid, deal, startingLevel);
    }

    // ----- queries -----

    /** is_valid_mino_position. */
    method IsValidMinoPosition(position: Point) returns (r: bool)
      ensures r == ValidMinoPosition(grid, stack.minos, position)
    {
      IsEmptyIffFree(stack, position);
      r := position.x as nat < grid.width && position.y as nat < grid.height && stack.IsEmpty(position);
    }

    /** mino_can_move_down: not on the bottom row, and the cell below (a u8 sum) is valid. */
    method MinoCanMoveDown(position: Point) returns (r: bool)
      ensures r == TetrionStates.MinoCanMoveDown(grid, stack.minos, position)
    {
      if position.y as nat == grid.height - 1 {
        return false;
      }
      r := IsValidMinoPosition(Point(position.x, Wrap(position.y as int + 1)));
    }

    /** is_tetromino_position_valid: no mino of the piece is on an invalid position. */
    method IsTetrominoPositionValid(piece: Piece) returns (r: bool)
      ensures r == PieceValid(grid, stack.minos, piece)
    {
      var minos := MinosOf(piece);
      var i := 0;
      while i < 4
        invariant i <= 4
        invariant forall k :: 0 <= k < i ==> ValidMinoPosition(grid, stack.minos, minos[k].position)
      {
        var valid := IsValidMinoPosition(minos[i].position);
        if !valid {
          return false;
        }
        i := i + 1;
      }
      return true;
    }

    /** tetromino_can_move_down: every mino of the piece can move down. */
    method TetrominoCanMoveDown(piece: Piece) returns (r: bool)
      ensures r == PieceCanMoveDown(grid, stack.minos, piece)
    {
      var minos := MinosOf(piece);
      var i := 0;
      while i < 4
        invariant i <= 4
        invariant forall k :: 0 <= k < i ==> TetrionStates.MinoCanMoveDown(grid, stack.minos, minos[k].position)
      {
        var can := MinoCanMoveDown(minos[i].position);
        if !can {
          return false;
        }
        i := i + 1;
      }
      return true;
    }

    /** is_active_tetromino_position_valid: there is a piece and it fits. */
    method IsActiveTetrominoPositionValid() returns (r: bool)
      ensures r == (active.Some? && PieceValid(grid, stack.minos, active.value))
    {
      if active.None? {
        return false;
      }
      r := IsTetrominoPositionValid(active.value);
    }

    /** is_game_over. */
    predicate IsGameOver()
      reads this
    {
      gameState == GameOver
    }

    /** core_information: what a snapshot records of the tetrion. */
    function CoreInformationOf(): (info: CoreInformation)
      reads this, stack
      ensures info.tetrionIndex == tetrionIndex && info.level == level && info.score == score
      ensures info.linesCleared == linesCleared && info.minos == stack.minos
    {
      CoreInformation(tetrionIndex, level, score, linesCleared, stack.minos)
    }

    // ----- the bags and the lock delay -----

    /** get_next_tetromino_type. */
    method GetNextTetrominoType() returns (kind: TetrominoType)
      modifies this
      ensures kind == NextType(old(State()))
      ensures State() == AfterNextType(deal, old(State()))
    {
      kind := bags[0][sequenceIndex];
      sequenceIndex := (sequenceIndex + 1) % 7;
      if sequenceIndex == 0 {
        bags := [bags[1], deal(bagsDrawn)];
        bagsDrawn := bagsDrawn + 1;
      }
    }

    /** reset_lock_delay. */
    method ResetLockDelay(step: u64)
      modifies this
      ensures State() == TetrionStates.ResetLockDelay(old(State()), step)
    {
      lockDelayStepIndex := AddU64(step, LockDelay);
    }

    /** The counting half of with_lock_delay, after the movement returned succeeded. */
    method CountLockDelay(succeeded: bool)
      modifies this
      ensures State() == WithLockDelay(old(State()), succeeded)
    {
      if succeeded && inLockDelay {
        executedLockDelays := AddU32(executedLockDelays, 1);
      }
    }

    // ----- spawning -----

    /** spawn_next_tetromino(): the next type from the bags. */
    method SpawnNextTetromino(step: u64)
      modifies this, stack
      ensures State() == SpawnedNext(grid, deal, old(State()), step)
    {
      var kind := GetNextTetrominoType();
      SpawnNextTetrominoOf(kind, step);
    }

    /** spawn_next_tetromino(type): the piece at the spawn position; where it does not fit, the game is over. */
    method SpawnNextTetrominoOf(kind: TetrominoType, step: u64)
      modifies this, stack
      ensures State() == Spawned(grid, old(State()), kind, step)
    {
      ghost var t := State();
      var piece := Piece(SpawnPosition, North, kind);
      active := Some(piece);
      var valid := IsActiveTetrominoPositionValid();
      SpawnCases(grid, t, kind, step);
      if !valid {
        EndGame(piece);
        return;
      }
      nextGravityStep := AddU64(step, GravityDelayFrames(level, accelerated));
    }

    /** The game-over path of spawn_next_tetromino: the piece is raised onto the stack as far as it must and removed. */
    method EndGame(piece: Piece)
      modifies this, stack
      ensures State() == old(State()).(gameState := GameOver, active := None,
        minos := SetAll(old(stack.minos), RaiseAll(MinosOf(piece), MoveUpCount(grid, old(stack.minos), MinosOf(piece), 1))))
    {
      gameState := GameOver;
      var minos := MinosOf(piece);
      var moveUp := RaiseCount(minos);
      PlaceRaised(minos, moveUp);
      active := None;
    }

    /** The placing loop of spawn_next_tetromino: the minos at least moveUp rows down go onto the stack moveUp rows up. */
    method PlaceRaised(minos: seq<Mino>, moveUp: nat)
      modifies stack
      ensures stack.minos == SetAll(old(stack.minos), RaiseAll(minos, moveUp))
    {
      var i := 0;
      while i < |minos|
        invariant i <= |minos|
        invariant stack.minos == SetAll(old(stack.minos), RaiseAll(minos[..i], moveUp))
      {
        var mino := minos[i];
        RaiseAllStep(minos, i, moveUp);
        if mino.position.y as int >= moveUp {
          var raised := Mino(Point(mino.position.x, mino.position.y - moveUp), mino.kind);
          SetAllSnoc(old(stack.minos), RaiseAll(minos[..i], moveUp), raised);
          stack.Set(raised.position, raised.kind);
        } else {
          assert RaiseAll(minos[..i], moveUp) + [] == RaiseAll(minos[..i], moveUp);
        }
        i := i + 1;
      }
      assert minos[..|minos|] == minos;
    }

    /**
     * The raise loop of spawn_next_tetromino: each pass moves every mino not
     * yet on the top row up one row and checks it; it ends after the first
     * pass in which all moved minos were valid, and counts its passes.
     */
    method RaiseCount(piece: seq<Mino>) returns (moveUp: nat)
      ensures moveUp == MoveUpCount(grid, stack.minos, piece, 1)
    {
      var current := piece;
      var allValid := false;
      moveUp := 0;
      while !allValid
        invariant moveUp <= 256 && (!allValid ==> moveUp < 256)
        invariant |current| == |piece|
        invariant forall k :: 0 <= k < |piece| ==> current[k].position.x == piece[k].position.x
        invariant forall k :: 0 <= k < |piece| ==>
          current[k].position.y as int == if piece[k].position.y as int >= moveUp then piece[k].position.y as int - moveUp else 0
        invariant forall j :: 1 <= j < moveUp ==> !RaisedValid(grid, stack.minos, piece, j)
        invariant !allValid && 1 <= moveUp ==> !RaisedValid(grid, stack.minos, piece, moveUp)
        invariant allValid ==> 1 <= moveUp && RaisedValid(grid, stack.minos, piece, moveUp)
        decreases 256 - moveUp + (if allValid then 0 else 1)
      {
        ghost var start := current;
        allValid := true;
        var i := 0;
        while i < |piece|
          invariant i <= |piece| && |current| == |piece|
          invariant forall k :: 0 <= k < |piece| ==> current[k].position.x == piece[k].position.x
          invariant forall k :: i <= k < |piece| ==> current[k] == start[k]
          invariant forall k :: 0 <= k < i ==>
            current[k].position.y as int == if piece[k].position.y as int >= moveUp + 1 then piece[k].position.y as int - moveUp - 1 else 0
          invariant allValid <==> forall k :: 0 <= k < i && piece[k].position.y as int >= moveUp + 1 ==>
            ValidMinoPosition(grid, stack.minos, Point(piece[k].position.x, piece[k].position.y - (moveUp + 1)))
        {
          var mino := current[i];
          if mino.position.y != 0 {
            var raised := Point(mino.position.x, mino.position.y - 1);
            current := current[i := Mino(raised, mino.kind)];
            var ok := IsValidMinoPosition(raised);
            if !ok {
              allValid := false;
            }
          }
          i := i + 1;
        }
        moveUp := moveUp + 1;
        if moveUp >= 256 {
          RaisedValidHigh(grid, stack.minos, piece, moveUp);
        }
      }
      MoveUpCountLeast(grid, stack.minos, piece, 1, moveUp);
    }

    // ----- moving and rotating -----

    /** move: one column over; a piece that does not fit there is moved back. */
    method Move(dx: int) returns (moved: bool)
      requires dx == 1 || dx == -1
      modifies this
      ensures moved == MoveFits(grid, old(State()), dx)
      ensures State() == Shifted(grid, old(State()), dx)
    {
      if active.None? {
        return false;
      }
      var piece := active.value;
      active := Some(Moved(piece, dx, 0));
      moved := IsActiveTetrominoPositionValid();
      if !moved {
        active := Some(Moved(active.value, -dx, 0));
        MoveBack(piece, dx, 0);
        assert Moved(Moved(piece, dx, 0), -dx, -0) == piece;
      }
    }

    /** move_tetromino_left: move through with_lock_delay. */
    method MoveTetrominoLeft() returns (moved: bool)
      modifies this
      ensures moved == MoveFits(grid, old(State()), -1)
      ensures State() == WithLockDelay(Shifted(grid, old(State()), -1), moved)
    {
      moved := Move(-1);
      CountLockDelay(moved);
    }

    /** move_tetromino_right: move through with_lock_delay. */
    method MoveTetrominoRight() returns (moved: bool)
      modifies this
      ensures moved == MoveFits(grid, old(State()), 1)
      ensures State() == WithLockDelay(Shifted(grid, old(State()), 1), moved)
    {
      moved := Move(1);
      CountLockDelay(moved);
    }

    /**
     * rotate: turn the piece, then try the kicks of the transition's row in
     * order, undoing each that does not fit; turn back when none fits.
     */
    method Rotate(right: bool) returns (rotated: bool)
      modifies this
      ensures rotated == RotateKick(grid, old(State()), right).Some?
      ensures State() == Rotated(grid, old(State()), right)
    {
      ghost var t := State();
      RotatedCases(grid, t, right);
      if active.None? {
        return false;
      }
      var table := KickTable(active.value.kind);
      if table.None? {
        return false;
      }
      var piece := active.value;
      var turned := Turned(piece, right);
      var kicks := table.value[RotationToIndex(piece.rotation, turned.rotation)];
      var found := TryKicks(turned, kicks);
      assert kicks == KicksFor(piece, right).value;
      if found.Some? {
        SetActive(Moved(turned, kicks[found.value].0, kicks[found.value].1));
        return true;
      }
      RotateBack(piece);
      SetActive(if right then RotatedLeft(turned) else RotatedRight(turned));
      return false;
    }

    /** The active piece replaced, nothing else changed. */
    method SetActive(p: Piece)
      modifies this
      ensures State() == old(State()).(active := Some(p))
    {
      active := Some(p);
    }

    /**
     * The kick loop of rotate, on the turned piece: each translation is
     * applied and undone when the piece does not fit; the first that fits is
     * the result.
     */
    method TryKicks(turned: Piece, kicks: seq<Kick>) returns (found: Option<nat>)
      ensures found == FirstKick(grid, stack.minos, turned, kicks, 0)
    {
      var candidate := turned;
      var j := 0;
      while j < |kicks|
        invariant j <= |kicks| && candidate == turned
        invariant FirstKick(grid, stack.minos, turned, kicks, 0) == FirstKick(grid, stack.minos, turned, kicks, j)
      {
        var kick := kicks[j];
        candidate := Moved(candidate, kick.0, kick.1);
        var fits := IsTetrominoPositionValid(candidate);
        if fits {
          return Some(j);
        }
        candidate := Moved(candidate, -kick.0, -kick.1);
        MoveBack(turned, kick.0, kick.1);
        j := j + 1;
      }
      return None;
    }

    /** rotate_tetromino_left: rotate through with_lock_delay. */
    method RotateTetrominoLeft() returns (rotated: bool)
      modifies this
      ensures rotated == RotateKick(grid, old(State()), false).Some?
      ensures State() == WithLockDelay(Rotated(grid, old(State()), false), rotated)
    {
      rotated := Rotate(false);
      CountLockDelay(rotated);
    }

    /** rotate_tetromino_right: rotate through with_lock_delay. */
    method RotateTetrominoRight() returns (rotated: bool)
      modifies this
      ensures rotated == RotateKick(grid, old(State()), true).Some?
      ensures State() == WithLockDelay(Rotated(grid, old(State()), true), rotated)
    {
      rotated := Rotate(true);
      CountLockDelay(rotated);
    }

    // ----- falling, locking, clearing, dropping, holding -----

    /**
     * move_tetromino_down: a forced movement scores 4; a piece that can fall
     * moves down a row; one that cannot starts resting and locks once its lock
     * delays are used up or the lock delay step has come.
     */
    method MoveTetrominoDown(kind: MovementType, step: u64) returns (moved: bool)
      requires active.Some? ==> NoFullRow(grid, stack.minos)
      modifies this, stack
      ensures moved == FallsOneRow(grid, old(State()))
      ensures State() == MovedDown(grid, deal, old(State()), kind, step)
    {
      if active.None? {
        return false;
      }
      if kind == Forced {
        score := AddU64(score, 4);
      }
      var can := TetrominoCanMoveDown(active.value);
      if can {
        active := Some(Moved(active.value, 0, 1));
        return true;
      }
      Rest(step);
      return false;
    }

    /** The resting half of move_tetromino_down. */
    method Rest(step: u64)
      requires active.Some? && NoFullRow(grid, stack.minos)
      modifies this, stack
      ensures State() == Rested(grid, deal, old(State()), step)
    {
      inLockDelay := true;
      if (inLockDelay && executedLockDelays as nat >= NumLockDelays) || step >= lockDelayStepIndex {
        LockActiveTetromino(step);
        ResetLockDelay(step);
      } else {
        nextGravityStep := AddU64(step, 1);
      }
    }

    /** drop_tetromino: the piece falls as far as it fits, 4 points a row, and locks. */
    method DropTetromino(step: u64) returns (moved: bool)
      requires active.Some? ==> PieceValid(grid, stack.minos, active.value) && NoFullRow(grid, stack.minos)
      modifies this, stack
      ensures moved == DropMoved(grid, old(State()))
      ensures State() == Dropped(grid, deal, old(State()), step)
    {
      if active.None? {
        return false;
      }
      ghost var t := State();
      var fallen, numMovements := Fall(active.value);
      active := Some(fallen);
      score := AddU64(score, 4 * numMovements);
      assert State() == Landed(grid, t);
      LockActiveTetromino(step);
      moved := numMovements > 0;
    }

    /** The loop of drop_tetromino: down a row while the piece can move down, counting the rows. */
    method Fall(start: Piece) returns (piece: Piece, numMovements: nat)
      requires PieceValid(grid, stack.minos, start)
      ensures piece == Fallen(grid, stack.minos, start)
      ensures numMovements == DropDistance(grid, stack.minos, start)
    {
      piece := start;
      numMovements := 0;
      var can := TetrominoCanMoveDown(piece);
      while can
        invariant PieceValid(grid, stack.minos, piece)
        invariant can == PieceCanMoveDown(grid, stack.minos, piece)
        invariant Fallen(grid, stack.minos, piece) == Fallen(grid, stack.minos, start)
        invariant numMovements + DropDistance(grid, stack.minos, piece) == DropDistance(grid, stack.minos, start)
        decreases DropDistance(grid, stack.minos, piece)
      {
        FallStep(grid, stack.minos, piece);
        numMovements := numMovements + 1;
        piece := Moved(piece, 0, 1);
        can := TetrominoCanMoveDown(piece);
      }
      FallStops(grid, stack.minos, piece);
    }

    /**
     * lock_active_tetromino: the piece's minos join the stack, holding is
     * allowed again and the lock delay ends; full lines are cleared, the next
     * piece spawns and the lock delay restarts.
     */
    method LockActiveTetromino(step: u64)
      requires active.Some? && NoFullRow(grid, stack.minos)
      modifies this, stack
      ensures State() == Locked(grid, deal, old(State()), step)
    {
      ghost var t := State();
      var minos := MinosOf(active.value);
      PlaceMinos(minos);
      allowedToHold := true;
      inLockDelay := false;
      executedLockDelays := 0;
      assert State() == TetrionStates.Placed(t);
      LockClearsAtMostFour(grid, t.minos, minos);
      ClearFullyOccupiedLines();
      SpawnNextTetromino(step);
      ResetLockDelay(step);
    }

    /** The loop of lock_active_tetromino that sets each mino of the piece on the stack. */
    method PlaceMinos(minos: seq<Mino>)
      modifies stack
      ensures stack.minos == SetAll(old(stack.minos), minos)
    {
      var i := 0;
      while i < |minos|
        invariant i <= |minos|
        invariant stack.minos == SetAll(old(stack.minos), minos[..i])
      {
        SetAllSnoc(old(stack.minos), minos[..i], minos[i]);
        assert minos[..i] + [minos[i]] == minos[..i + 1];
        stack.Set(minos[i].position, minos[i].kind);
        i := i + 1;
      }
      assert minos[..|minos|] == minos;
    }

    /**
     * clear_fully_occupied_lines: the loop clears the full rows, then the
     * lines cleared score at the new level. More than four lines at once
     * would make the score table lookup throw.
     */
    method ClearFullyOccupiedLines()
      requires ClearCount(grid, stack.minos) <= 4
      modifies this, stack
      ensures State() == ClearLines(grid, old(State()))
    {
      ghost var t := State();
      ghost var count := ClearCount(grid, t.minos);
      var before := linesCleared;
      ClearLoopCounts(grid, t);
      ClearRows();
      assert linesCleared == AddU32(before, count);
      SubAfterAddU32(before, count);
      var numLinesCleared := (linesCleared as int - before as int) % U32Modulus;
      assert numLinesCleared == count;
      score := AddU64(score, LineScore(numLinesCleared, level));
    }

    /** The do-while loop of clear_fully_occupied_lines: clear the first full row from the top until none is full. */
    method ClearRows()
      modifies this, stack
      ensures State() == ClearLoop(grid, old(State()))
    {
      ghost var t := State();
      var cleared := true;
      while cleared
        invariant ClearLoop(grid, State()) == ClearLoop(grid, t)
        invariant !cleared ==> FirstFullRow(grid, stack.minos, 0).None?
        decreases |stack.minos| + (if cleared then 1 else 0)
      {
        cleared := false;
        var row := FindFullRow();
        if row.Some? {
          ClearLoopUnfold(grid, State(), row.value);
          ClearRow(row.value);
          cleared := true;
        }
      }
      ClearLoopStops(grid, State());
    }

    /** One pass that found a full row: count the line, raise the level to lines / 10 when higher, clear the row. */
    method ClearRow(row: u8)
      requires FirstFullRow(grid, stack.minos, 0) == Some(row)
      modifies this, stack
      ensures State() == ClearStep(grid, old(State()), row)
    {
      linesCleared := AddU32(linesCleared, 1);
      var newLevel := linesCleared / 10;
      if newLevel > level {
        level := newLevel;
      }
      stack.ClearRowAndLetSink(row);
    }

    /** The row loop of clear_fully_occupied_lines: the first row from the top none of whose cells is empty. */
    method FindFullRow() returns (r: Option<u8>)
      ensures r == FirstFullRow(grid, stack.minos, 0)
    {
      var row: u8 := 0;
      while row as nat < grid.height
        invariant row as nat <= grid.height
        invariant FirstFullRow(grid, stack.minos, 0) == FirstFullRow(grid, stack.minos, row as nat)
      {
        var full := true;
        var column: u8 := 0;
        while column as nat < grid.width
          invariant column as nat <= grid.width
          invariant forall x: u8 :: x < column ==> Occupied(stack.minos, Point(x, row))
        {
          IsEmptyIffFree(stack, Point(column, row));
          if stack.IsEmpty(Point(column, row)) {
            full := false;
            break;
          }
          column := column + 1;
        }
        if full {
          return Some(row);
        }
        row := row + 1;
      }
      return None;
    }

    /**
     * hold_tetromino: the piece's type goes on hold; the type held before,
     * or else the next type from the bags, spawns.
     */
    method HoldTetromino(step: u64)
      modifies this, stack
      ensures State() == Held(grid, deal, old(State()), step)
    {
      if active.None? {
        return;
      }
      if hold.None? {
        hold := Some(active.value.kind);
        SpawnNextTetromino(step);
      } else {
        var onHold := hold.value;
        hold := Some(active.value.kind);
        SpawnNextTetrominoOf(onHold, step);
      }
    }

    // ----- commands and steps -----

    /**
     * handle_input_command (on a build that is not for Android): each movement
     * that succeeds restarts the lock delay; the result says whether the
     * command moved the piece.
     */
    method HandleInputCommand(command: Command, step: u64) returns (moved: bool)
      requires Valid()
      modifies this, stack
      ensures Valid()
      ensures State() == HandleCommand(grid, deal, old(State()), command, step).state
      ensures moved == HandleCommand(grid, deal, old(State()), command, step).moved
    {
      ghost var t := State();
      moved := SelectCommand(command, step);
      HandleCommandInv(grid, deal, t, command, step);
    }

    /** The switch of handle_input_command. */
    method SelectCommand(command: Command, step: u64) returns (moved: bool)
      requires Valid()
      modifies this, stack
      ensures State() == HandleCommand(grid, deal, old(State()), command, step).state
      ensures moved == HandleCommand(grid, deal, old(State()), command, step).moved
    {
      if command == RotateLeft || command == RotateRight || command == MoveLeft || command == MoveRight {
        moved := HandleMovement(command, step);
      } else if command == MoveDown {
        moved := HandleMoveDown(step);
      } else if command == Drop {
        lockDelayStepIndex := step;
        moved := DropTetromino(step);
      } else if command == ReleaseMoveDown {
        downKeyPressed := false;
        moved := false;
      } else {
        moved := HandleHold(step);
      }
    }

    /** The hold of handle_input_command: at most once a piece, and the lock delay restarts. */
    method HandleHold(step: u64) returns (moved: bool)
      requires Valid()
      modifies this, stack
      ensures State() == HandleCommand(grid, deal, old(State()), Hold, step).state
      ensures moved == HandleCommand(grid, deal, old(State()), Hold, step).moved
    {
      if allowedToHold {
        HoldTetromino(step);
        ResetLockDelay(step);
        allowedToHold := false;
        moved := true;
      } else {
        moved := false;
      }
    }

    /** The rotations and the moves of handle_input_command: the lock delay restarts when the piece moved. */
    method HandleMovement(command: Command, step: u64) returns (moved: bool)
      requires Valid()
      requires command == RotateLeft || command == RotateRight || command == MoveLeft || command == MoveRight
      modifies this
      ensures State() == HandleCommand(grid, deal, old(State()), command, step).state
      ensures moved == HandleCommand(grid, deal, old(State()), command, step).moved
    {
      if command == RotateLeft {
        moved := RotateTetrominoLeft();
      } else if command == RotateRight {
        moved := RotateTetrominoRight();
      } else if command == MoveLeft {
        moved := MoveTetrominoLeft();
      } else {
        moved := MoveTetrominoRight();
      }
      if moved {
        ResetLockDelay(step);
      }
    }

    /** The move down of handle_input_command: the key is down, the piece accelerates and is moved down. */
    method HandleMoveDown(step: u64) returns (moved: bool)
      requires Valid()
      modifies this, stack
      ensures State() == HandleCommand(grid, deal, old(State()), MoveDown, step).state
      ensures moved == HandleCommand(grid, deal, old(State()), MoveDown, step).moved
    {
      downKeyPressed := true;
      accelerated := true;
      nextGravityStep := AddU64(step, GravityDelayFrames(level, accelerated));
      moved := MoveTetrominoDown(Forced, step);
      if moved {
        ResetLockDelay(step);
      }
    }

    /**
     * update_step: while playing, at the gravity step the piece falls a row,
     * or an acceleration whose key has been let go of ends; then the next
     * gravity step is set from the current speed.
     */
    method UpdateStep(step: u64)
      requires Valid()
      modifies this, stack
      ensures Valid()
      ensures State() == TetrionStates.UpdateStep(grid, deal, old(State()), step)
    {
      UpdateStepInv(grid, deal, State(), step);
      match gameState
      case Playing =>
        if step >= nextGravityStep {
          if accelerated && !downKeyPressed {
            nextGravityStep := SubU64(nextGravityStep, GravityDelayFrames(level, true));
            accelerated := false;
          } else {
            var moved := MoveTetrominoDown(if accelerated then Forced else Gravity, step);
            if moved {
              ResetLockDelay(step);
            }
          }
          nextGravityStep := AddU64(nextGravityStep, GravityDelayFrames(level, accelerated));
        }
      case GameOver =>
    }
  }
}
