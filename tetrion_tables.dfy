// The constants and tables of SimulatedTetrion (src/game/simulated_tetrion.hpp)
// and the pure helpers over them in src/game/simulated_tetrion.cpp: the
// wall-kick translations of a rotation, the gravity speed of each level, the
// score of a number of cleared lines and the index of a rotation transition.

module TetrionTables {
  import opened Bytes
  import opened Wrappers
  import opened MinoStacks
  import opened Tetrominos

  /** Steps a piece may rest on the stack before it locks. */
  const LockDelay: nat := 30
  /** Movements a resting piece may make before it locks anyway. */
  const NumLockDelays: nat := 30
  const NumPreviewTetrominos: nat := 6

  /** A wall-kick translation, a pair of i8 offsets. */
  type Kick = (int, int)

  /** The wall-kick translations of J, L, T, S and Z, one row per rotation transition. */
  const WallKickJLTSZ: seq<seq<Kick>> := [
    [(0, 0), (-1, 0), (-1, -1), (0, 2), (-1, 2)],   // North -> East
    [(0, 0), (1, 0), (1, 1), (0, -2), (1, -2)],     // East -> North
    [(0, 0), (1, 0), (1, 1), (0, -2), (1, -2)],     // East -> South
    [(0, 0), (-1, 0), (-1, -1), (0, 2), (-1, 2)],   // South -> East
    [(0, 0), (1, 0), (1, -1), (0, 2), (1, 2)],      // South -> West
    [(0, 0), (-1, 0), (-1, 1), (0, -2), (-1, -2)],  // West -> South
    [(0, 0), (-1, 0), (-1, 1), (0, -2), (-1, -2)],  // West -> North
    [(0, 0), (1, 0), (1, -1), (0, 2), (1, 2)]       // North -> West
  ]

  /** The wall-kick translations of I. */
  const WallKickI: seq<seq<Kick>> := [
    [(0, 0), (-2, 0), (1, 0), (-2, 1), (1, -2)],    // North -> East
    [(0, 0), (2, 0), (-1, 0), (2, -1), (-1, 2)],    // East -> North
    [(0, 0), (-1, 0), (2, 0), (-1, -2), (2, 1)],    // East -> South
    [(0, 0), (1, 0), (-2, 0), (1, 2), (-2, -1)],    // South -> East
    [(0, 0), (2, 0), (-1, 0), (2, -1), (-1, 2)],    // South -> West
    [(0, 0), (-2, 0), (1, 0), (-2, 1), (1, -2)],    // West -> South
    [(0, 0), (1, 0), (-2, 0), (1, 2), (-2, -1)],    // West -> North
    [(0, 0), (-1, 0), (2, 0), (-1, -2), (2, 1)]     // North -> West
  ]

  /** The shape both tables share: eight rows of five small translations, the first of each row none at all. */
  predicate KickTableShape(table: seq<seq<Kick>>)
  {
    |table| == 8 &&
    forall k :: 0 <= k < 8 ==>
      |table[k]| == 5 && table[k][0] == (0, 0) &&
      forall j :: 0 <= j < 5 ==> -2 <= table[k][j].0 <= 2 && -2 <= table[k][j].1 <= 2
  }

  /** get_wall_kick_table: the I table for I, none for O, the shared table for the others. */
  function KickTable(kind: TetrominoType): (r: Option<seq<seq<Kick>>>)
    ensures r.None? <==> kind == O
    ensures r.Some? ==> KickTableShape(r.value)
  {
    match kind
    case I => Some(WallKickI)
    case O => None
    case _ => Some(WallKickJLTSZ)
  }

  /** The translations of a transition and of its reverse are opposite, in both tables. */
  lemma ReverseKicksOpposite(table: seq<seq<Kick>>, k: nat, j: nat)
    requires table == WallKickJLTSZ || table == WallKickI
    requires k < 4 && j < 5
    ensures table[2 * k + 1][j].0 == -table[2 * k][j].0
    ensures table[2 * k + 1][j].1 == -table[2 * k][j].1
  {
  }

  /** rotation_to_index: the eight transitions between neighbouring rotations, in table row order. */
  function RotationToIndex(from: Rotation, to: Rotation): (k: nat)
    requires to == Next(from) || to == Prev(from)
    ensures k < 8
    ensures TransitionAt(k).0 == from && TransitionAt(k).1 == to
  {
    match (from, to)
    case (North, East) => 0
    case (East, North) => 1
    case (East, South) => 2
    case (South, East) => 3
    case (South, West) => 4
    case (West, South) => 5
    case (West, North) => 6
    case (North, West) => 7
  }

  /** The transition a table row is for, the inverse of rotation_to_index. */
  function TransitionAt(k: nat): (t: (Rotation, Rotation))
    requires k < 8
    ensures t.1 == Next(t.0) || t.1 == Prev(t.0)
  {
    if k == 0 then (North, East)
    else if k == 1 then (East, North)
    else if k == 2 then (East, South)
    else if k == 3 then (South, East)
    else if k == 4 then (South, West)
    else if k == 5 then (West, South)
    else if k == 6 then (West, North)
    else (North, West)
  }

  /** rotation_to_index is a bijection from the eight transitions onto 0 .. 7. */
  lemma RotationToIndexBijective(k: nat, a: Rotation, b: Rotation, c: Rotation, d: Rotation)
    requires k < 8
    requires b == Next(a) || b == Prev(a)
    requires d == Next(c) || d == Prev(c)
    ensures RotationToIndex(TransitionAt(k).0, TransitionAt(k).1) == k
    ensures RotationToIndex(a, b) == RotationToIndex(c, d) ==> a == c && b == d
  {
    var t := TransitionAt(k);
    assert TransitionAt(RotationToIndex(t.0, t.1)) == t;
  }

  /** Turning clockwise from a rotation uses row 2 * index, turning back from there the row after it. */
  lemma TurnRows(r: Rotation)
    ensures RotationToIndex(r, Next(r)) == 2 * RotationIndex(r)
    ensures RotationToIndex(Next(r), r) == 2 * RotationIndex(r) + 1
  {
  }

  // ----- gravity -----

  /** frames_per_tile: the steps a piece takes to fall one row, by level. */
  const FramesPerTile: seq<nat> := [48, 43, 38, 33, 28, 23, 18, 13, 8, 6, 5, 5, 5, 4, 4,
                                    4, 3, 3, 3, 2, 2, 2, 2, 2, 2, 2, 2, 2, 2, 1]

  /** Thirty entries, from 48 down to 1, never rising. */
  lemma {:induction false} FramesPerTileShape(i: nat, j: nat)
    requires i <= j < |FramesPerTile|
    ensures |FramesPerTile| == 30 && FramesPerTile[0] == 48 && FramesPerTile[29] == 1
    ensures FramesPerTile[j] <= FramesPerTile[i]
    ensures 1 <= FramesPerTile[j]
    decreases j - i
  {
    if i < j {
      FramesPerTileShape(i + 1, j);
      assert FramesPerTile[i + 1] <= FramesPerTile[i] by {
        FramesPerTileStep(i);
      }
    }
  }

  lemma FramesPerTileStep(i: nat)
    requires i + 1 < |FramesPerTile|
    ensures FramesPerTile[i + 1] <= FramesPerTile[i]
  {
  }

  /** The frames of a level: the table entry, or its last entry from level 30 on. */
  function LevelFrames(level: nat): (f: nat)
    ensures 1 <= f <= 48
  {
    if level >= |FramesPerTile| then FramesPerTile[|FramesPerTile| - 1]
    else
      FramesPerTileShape(0, level);
      FramesPerTile[level]
  }

  /**
   * get_gravity_delay_frames: the level's frames, or a twentieth of them rounded
   * to the nearest integer (halves away from zero, as std::round does) and at
   * least one while the down key accelerates the piece.
   */
  function GravityDelayFrames(level: nat, accelerated: bool): (r: u64)
    ensures 1 <= r <= LevelFrames(level)
    ensures !accelerated ==> r == LevelFrames(level)
    ensures accelerated ==> r == 1 || 20 * r - 10 <= LevelFrames(level) < 20 * r + 10
  {
    var frames := LevelFrames(level);
    if accelerated then Max(1, (frames + 10) / 20) else frames
  }

  function Max(a: nat, b: nat): nat
  {
    if a < b then b else a
  }

  /** A higher level never falls slower, and the accelerated speed is never slower than the normal one. */
  lemma GravityNeverSlower(level: nat, higher: nat)
    requires level <= higher
    ensures GravityDelayFrames(higher, false) <= GravityDelayFrames(level, false)
    ensures GravityDelayFrames(higher, true) <= GravityDelayFrames(level, true)
    ensures GravityDelayFrames(level, true) <= GravityDelayFrames(level, false)
  {
    if higher < |FramesPerTile| {
      FramesPerTileShape(level, higher);
    } else if level < |FramesPerTile| {
      FramesPerTileShape(level, |FramesPerTile| - 1);
    }
  }

  // ----- scoring -----

  /** score_per_line_multiplier: the points of 0 .. 4 lines cleared at once, before the level factor. */
  const ScorePerLineMultiplier: seq<nat> := [0, 40, 100, 300, 1200]

  /** The points clear_fully_occupied_lines adds for k lines at a level (level + 1 is a u32 sum). */
  function LineScore(k: nat, level: u32): (points: nat)
    requires k <= 4
    ensures level < 0xFFFF_FFFF ==> points == ScorePerLineMultiplier[k] * (level + 1)
    ensures points == 0 <==> k == 0 || level == 0xFFFF_FFFF
  {
    ScorePerLineMultiplier[k] * ((level + 1) % 0x1_0000_0000)
  }

  /** More lines at once always score more, and four lines score thirty times a single one. */
  lemma MoreLinesScoreMore(k: nat, more: nat, level: u32)
    requires k < more <= 4 && level < 0xFFFF_FFFF
    ensures LineScore(k, level) < LineScore(more, level)
    ensures LineScore(4, level) == 30 * LineScore(1, level)
  {
  }
}
