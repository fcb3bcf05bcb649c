// TetrionSnapshot of src/libs/recordings/utility/tetrion_snapshot.cpp: the
// state of one tetrion at a simulation step, its byte layout in a recording,
// the reader of that layout and the comparison a replay performs.

module TetrionSnapshots {
  import opened Bytes
  import opened Wrappers
  import opened StreamIO
  import opened MinoStacks

  // The errors of from_istream for a field it cannot read.
  const NoTetrionIndex := "unable to read tetrion index from snapshot"
  const NoLevel := "unable to read level from snapshot"
  const NoScore := "unable to read score from snapshot"
  const NoLinesCleared := "unable to read lines cleared from snapshot"
  const NoStepIndex := "unable to read simulation step index from snapshot"
  const NoMinoCount := "unable to read number of minos from snapshot"
  const NoMinoX := "unable to read x coordinate of mino from snapshot"
  const NoMinoY := "unable to read y coordinate of mino from snapshot"
  const NoMinoType := "unable to read tetromino type of mino from snapshot"

  datatype Snapshot = Snapshot(
    tetrionIndex: u8,
    level: u32,
    score: u64,
    linesCleared: u32,
    stepIndex: u64,
    minos: seq<Mino>)

  /** TetrionCoreInformation: what a tetrion reports about itself, without the step. */
  datatype CoreInformation = CoreInformation(
    tetrionIndex: u8,
    level: u32,
    score: u64,
    linesCleared: u32,
    minos: seq<Mino>)

  /** The TetrionSnapshot constructor from core information and a step. */
  function SnapshotOf(info: CoreInformation, step: u64): Snapshot
  {
    Snapshot(info.tetrionIndex, info.level, info.score, info.linesCleared, step, info.minos)
  }

  /** The three bytes of one mino: x, y and the type's underlying value. */
  function MinoBytes(m: Mino): (r: seq<u8>)
    ensures |r| == 3
  {
    [m.position.x, m.position.y, TypeIndex(m.kind)]
  }

  function MinosBytes(minos: seq<Mino>): (r: seq<u8>)
    ensures |r| == 3 * |minos|
  {
    if |minos| == 0 then [] else MinoBytes(minos[0]) + MinosBytes(minos[1..])
  }

  /** The mino count to_bytes writes: num_minos() widened to u64. */
  function MinoCount(minos: seq<Mino>): u64
  {
    U32Cast(|minos|)
  }

  /** The layout to_bytes produces: six little-endian fields, then three bytes per mino. */
  function SnapshotBytes(s: Snapshot): (r: seq<u8>)
    ensures |r| == 33 + 3 * |s.minos|
  {
    ToLE(s.tetrionIndex, 1) + (ToLE(s.level, 4) + (ToLE(s.score, 8) + (ToLE(s.linesCleared, 4)
      + (ToLE(s.stepIndex, 8) + (ToLE(MinoCount(s.minos), 8) + MinosBytes(s.minos))))))
  }

  lemma {:induction false} MinosBytesSnoc(minos: seq<Mino>, m: Mino)
    ensures MinosBytes(minos + [m]) == MinosBytes(minos) + MinoBytes(m)
  {
    if |minos| == 0 {
      assert minos + [m] == [m];
    } else {
      assert (minos + [m])[1..] == minos[1..] + [m];
      MinosBytesSnoc(minos[1..], m);
    }
  }

  /** to_bytes: appends each field with append_value, then each mino's three bytes. */
  method ToBytes(s: Snapshot) returns (bytes: seq<u8>)
    ensures bytes == SnapshotBytes(s)
  {
    bytes := [];
    bytes := AppendValue(bytes, s.tetrionIndex, 1);
    bytes := AppendValue(bytes, s.level, 4);
    bytes := AppendValue(bytes, s.score, 8);
    bytes := AppendValue(bytes, s.linesCleared, 4);
    bytes := AppendValue(bytes, s.stepIndex, 8);
    var numMinos := U32Cast(|s.minos|);
    bytes := AppendValue(bytes, numMinos, 8);
    bytes := AppendMinos(bytes, s.minos);
    assert [] + ToLE(s.tetrionIndex, 1) == ToLE(s.tetrionIndex, 1);
    Assoc7(ToLE(s.tetrionIndex, 1), ToLE(s.level, 4), ToLE(s.score, 8), ToLE(s.linesCleared, 4),
      ToLE(s.stepIndex, 8), ToLE(numMinos, 8), MinosBytes(s.minos));
  }

  /** The loop of to_bytes over the stack's minos. */
  method AppendMinos(vector: seq<u8>, minos: seq<Mino>) returns (bytes: seq<u8>)
    ensures bytes == vector + MinosBytes(minos)
  {
    bytes := vector;
    var i := 0;
    while i < |minos|
      invariant i <= |minos|
      invariant bytes == vector + MinosBytes(minos[..i])
    {
      var mino := minos[i];
      bytes := AppendValue(bytes, mino.position.x, 1);
      bytes := AppendValue(bytes, mino.position.y, 1);
      bytes := AppendValue(bytes, TypeIndex(mino.kind), 1);
      ToLEOne(mino.position.x);
      ToLEOne(mino.position.y);
      ToLEOne(TypeIndex(mino.kind));
      MinosBytesSnoc(minos[..i], mino);
      assert minos[..i + 1] == minos[..i] + [mino];
      i := i + 1;
    }
    assert minos[..i] == minos;
  }

  lemma Assoc7(a: seq<u8>, b: seq<u8>, c: seq<u8>, d: seq<u8>, e: seq<u8>, f: seq<u8>, g: seq<u8>)
    ensures a + b + c + d + e + f + g == a + (b + (c + (d + (e + (f + g)))))
  {
  }

  // ----- from_istream -----

  /** The three reads of one mino and the enum check of its type. */
  function ReadMino(c: Cursor): (res: (Cursor, Result<Mino, string>))
    requires c.Valid()
    ensures res.0.Valid() && res.0.data == c.data && res.0.pos >= c.pos
  {
    var (c1, x) := ReadFromIstream(c, 1);
    if x.None? then (c1, Err(NoMinoX))
    else
      var (c2, y) := ReadFromIstream(c1, 1);
      if y.None? then (c2, Err(NoMinoY))
      else
        var (c3, t) := ReadFromIstream(c2, 1);
        if t.None? then (c3, Err(NoMinoType))
        else
          var kind := TypeFromIndex(t.value);
          if kind.None? then (c3, Err("got invalid enum value for TetrominoType: " + Decimal(t.value)))
          else (c3, Ok(Mino(Point(x.value, y.value), kind.value)))
  }

  /** The loop over minos i .. n - 1, each one set into the stack read so far. */
  function ReadMinos(c: Cursor, n: nat, i: nat, acc: seq<Mino>): (res: (Cursor, Result<seq<Mino>, string>))
    requires c.Valid() && i <= n
    ensures res.0.Valid() && res.0.data == c.data && res.0.pos >= c.pos
    decreases n - i
  {
    if i == n then (c, Ok(acc))
    else
      var r := ReadMino(c);
      if r.1.Err? then (r.0, Err(r.1.error))
      else ReadMinos(r.0, n, i + 1, SetMino(acc, r.1.value.position, r.1.value.kind))
  }

  /** from_istream: the six fields in layout order, then the minos; each failure names its field. */
  function ReadSnapshot(c: Cursor): (res: (Cursor, Result<Snapshot, string>))
    requires c.Valid()
    ensures res.0.Valid() && res.0.data == c.data && res.0.pos >= c.pos
  {
    var (c1, index) := ReadFromIstream(c, 1);
    if index.None? then (c1, Err(NoTetrionIndex))
    else
      var (c2, level) := ReadFromIstream(c1, 4);
      if level.None? then (c2, Err(NoLevel))
      else
        var (c3, score) := ReadFromIstream(c2, 8);
        if score.None? then (c3, Err(NoScore))
        else
          var (c4, lines) := ReadFromIstream(c3, 4);
          if lines.None? then (c4, Err(NoLinesCleared))
          else
            var (c5, step) := ReadFromIstream(c4, 8);
            if step.None? then (c5, Err(NoStepIndex))
            else
              var (c6, count) := ReadFromIstream(c5, 8);
              if count.None? then (c6, Err(NoMinoCount))
              else
                var (c7, minos) := ReadMinos(c6, count.value, 0, []);
                if minos.Err? then (c7, Err(minos.error))
                else (c7, Ok(Snapshot(index.value, level.value, score.value, lines.value, step.value, minos.value)))
  }

  /** from_istream on a stream: fills a fresh MinoStack with set, one mino at a time. */
  method FromIstream(input: InputStream) returns (r: Result<Snapshot, string>)
    requires input.Valid()
    modifies input
    ensures input.Valid()
    ensures input.State() == ReadSnapshot(old(input.State())).0
    ensures r == ReadSnapshot(old(input.State())).1
  {
    var index := input.ReadFromIstreamValue(1);
    if index.None? {
      return Err(NoTetrionIndex);
    }
    var level := input.ReadFromIstreamValue(4);
    if level.None? {
      return Err(NoLevel);
    }
    var score := input.ReadFromIstreamValue(8);
    if score.None? {
      return Err(NoScore);
    }
    var lines := input.ReadFromIstreamValue(4);
    if lines.None? {
      return Err(NoLinesCleared);
    }
    var step := input.ReadFromIstreamValue(8);
    if step.None? {
      return Err(NoStepIndex);
    }
    var count := input.ReadFromIstreamValue(8);
    if count.None? {
      return Err(NoMinoCount);
    }
    var minos := ReadMinosFrom(input, count.value);
    if minos.Err? {
      return Err(minos.error);
    }
    r := Ok(Snapshot(index.value, level.value, score.value, lines.value, step.value, minos.value));
  }

  /** The loop of from_istream over the mino count. */
  method ReadMinosFrom(input: InputStream, n: nat) returns (r: Result<seq<Mino>, string>)
    requires input.Valid()
    modifies input
    ensures input.Valid()
    ensures input.State() == ReadMinos(old(input.State()), n, 0, []).0
    ensures r == ReadMinos(old(input.State()), n, 0, []).1
  {
    var stack := new MinoStack();
    var i := 0;
    while i < n
      invariant input.Valid() && i <= n
      invariant ReadMinos(old(input.State()), n, 0, []) == ReadMinos(input.State(), n, i, stack.minos)
    {
      var mino := ReadMinoFrom(input);
      if mino.Err? {
        return Err(mino.error);
      }
      stack.Set(mino.value.position, mino.value.kind);
      i := i + 1;
    }
    r := Ok(stack.minos);
  }

  method ReadMinoFrom(input: InputStream) returns (r: Result<Mino, string>)
    requires input.Valid()
    modifies input
    ensures input.Valid()
    ensures input.State() == ReadMino(old(input.State())).0
    ensures r == ReadMino(old(input.State())).1
  {
    var x := input.ReadFromIstreamValue(1);
    if x.None? {
      return Err(NoMinoX);
    }
    var y := input.ReadFromIstreamValue(1);
    if y.None? {
      return Err(NoMinoY);
    }
    var t := input.ReadFromIstreamValue(1);
    if t.None? {
      return Err(NoMinoType);
    }
    var kind := TypeFromIndex(t.value);
    if kind.None? {
      return Err("got invalid enum value for TetrominoType: " + Decimal(t.value));
    }
    r := Ok(Mino(Point(x.value, y.value), kind.value));
  }

  // ----- round trip -----

  /** Reading a mino where its three bytes are gives it back. */
  lemma MinoBack(c: Cursor, m: Mino) returns (c1: Cursor)
    requires c.good && StartsWith(c, MinoBytes(m))
    ensures c1 == Cursor(c.data, c.pos + 3, true)
    ensures ReadMino(c).0 == c1 && ReadMino(c).1 == Ok(m)
  {
    var b := MinoBytes(m);
    ToLEOne(b[0]);
    ToLEOne(b[1]);
    ToLEOne(b[2]);
    StartsWithSplit(c, [b[0]], [b[1], b[2]]);
    var cy := Cursor(c.data, c.pos + 1, true);
    StartsWithSplit(cy, [b[1]], [b[2]]);
    var ct := Cursor(c.data, c.pos + 2, true);
    ReadFieldBack(c, b[0], 1);
    ReadFieldBack(cy, b[1], 1);
    ReadFieldBack(ct, b[2], 1);
    c1 := Cursor(c.data, c.pos + 3, true);
  }

  /** One step of the mino loop on the bytes of a duplicate-free list. */
  lemma MinoStep(minos: seq<Mino>, i: nat, c: Cursor) returns (c1: Cursor)
    requires DistinctPositions(minos) && i < |minos|
    requires c.good && StartsWith(c, MinosBytes(minos[i..]))
    ensures c1.good && c1.data == c.data && c1.pos == c.pos + 3
    ensures StartsWith(c1, MinosBytes(minos[i + 1..]))
    ensures ReadMinos(c, |minos|, i, minos[..i]) == ReadMinos(c1, |minos|, i + 1, minos[..i + 1])
  {
    var m := minos[i];
    assert minos[i..][1..] == minos[i + 1..];
    StartsWithSplit(c, MinoBytes(m), MinosBytes(minos[i + 1..]));
    c1 := MinoBack(c, m);
    assert !Occupied(minos[..i], m.position) by {
      forall j | 0 <= j < i
        ensures minos[..i][j].position != m.position
      {
        assert minos[..i][j] == minos[j];
      }
    }
    SetMinoAppends(minos[..i], m.position, m.kind);
    assert minos[..i] + [m] == minos[..i + 1];
  }

  lemma {:induction false} MinosRoundTrip(minos: seq<Mino>, i: nat, c: Cursor)
    requires DistinctPositions(minos) && i <= |minos|
    requires c.good && StartsWith(c, MinosBytes(minos[i..]))
    ensures ReadMinos(c, |minos|, i, minos[..i]).0 == Cursor(c.data, c.pos + 3 * (|minos| - i), true)
    ensures ReadMinos(c, |minos|, i, minos[..i]).1 == Ok(minos)
    decreases |minos| - i
  {
    if i == |minos| {
      assert minos[..i] == minos;
    } else {
      var c1 := MinoStep(minos, i, c);
      MinosRoundTrip(minos, i + 1, c1);
    }
  }

  /** The six header fields read back from their layout. */
  lemma HeaderBack(s: Snapshot, c: Cursor) returns (c6: Cursor)
    requires |s.minos| < U32Limit
    requires c.good && StartsWith(c, SnapshotBytes(s))
    ensures c6 == Cursor(c.data, c.pos + 33, true)
    ensures StartsWith(c6, MinosBytes(s.minos))
    ensures ReadSnapshot(c) == ReadSnapshotMinos(c6, s)
  {
    Pow256Widths();
    var count := MinoCount(s.minos);
    assert count == |s.minos|;
    var rest5 := ToLE(count, 8) + MinosBytes(s.minos);
    var rest4 := ToLE(s.stepIndex, 8) + rest5;
    var rest3 := ToLE(s.linesCleared, 4) + rest4;
    var rest2 := ToLE(s.score, 8) + rest3;
    var rest1 := ToLE(s.level, 4) + rest2;
    assert SnapshotBytes(s) == ToLE(s.tetrionIndex, 1) + rest1;
    var c1 := FieldStep(c, s.tetrionIndex, 1, rest1);
    var c2 := FieldStep(c1, s.level, 4, rest2);
    var c3 := FieldStep(c2, s.score, 8, rest3);
    var c4 := FieldStep(c3, s.linesCleared, 4, rest4);
    var c5 := FieldStep(c4, s.stepIndex, 8, rest5);
    c6 := FieldStep(c5, count, 8, MinosBytes(s.minos));
  }

  /** Reading a field where its layout is leaves the cursor at what follows it. */
  lemma FieldStep(c: Cursor, x: nat, n: nat, rest: seq<u8>) returns (c1: Cursor)
    requires c.good && x < Pow256(n) && StartsWith(c, ToLE(x, n) + rest)
    ensures c1 == Cursor(c.data, c.pos + n, true)
    ensures StartsWith(c1, rest)
    ensures ReadFromIstream(c, n).0 == c1 && ReadFromIstream(c, n).1 == Some(x)
  {
    StartsWithSplit(c, ToLE(x, n), rest);
    ReadFieldBack(c, x, n);
    c1 := Cursor(c.data, c.pos + n, true);
  }

  /** What from_istream returns once the header fields of s have been read. */
  function ReadSnapshotMinos(c6: Cursor, s: Snapshot): (Cursor, Result<Snapshot, string>)
    requires c6.Valid()
  {
    var (c7, minos) := ReadMinos(c6, |s.minos|, 0, []);
    if minos.Err? then (c7, Err(minos.error))
    else (c7, Ok(Snapshot(s.tetrionIndex, s.level, s.score, s.linesCleared, s.stepIndex, minos.value)))
  }

  /** from_istream reads back what to_bytes wrote, for a stack with one mino per cell. */
  lemma SnapshotRoundTrip(s: Snapshot, c: Cursor)
    requires DistinctPositions(s.minos)
    requires c.good && StartsWith(c, SnapshotBytes(s))
    ensures ReadSnapshot(c).1 == Ok(s)
    ensures ReadSnapshot(c).0 == Cursor(c.data, c.pos + |SnapshotBytes(s)|, true)
  {
    DistinctPositionsBound(s.minos);
    var c6 := HeaderBack(s, c);
    assert s.minos[0..] == s.minos && s.minos[..0] == [];
    MinosRoundTrip(s.minos, 0, c6);
  }

  // ----- error cases -----

  /** The error of from_istream on a stream that ends inside the six header fields. */
  function TruncatedHeaderError(remaining: nat): string
  {
    if remaining < 1 then NoTetrionIndex
    else if remaining < 5 then NoLevel
    else if remaining < 13 then NoScore
    else if remaining < 17 then NoLinesCleared
    else if remaining < 25 then NoStepIndex
    else NoMinoCount
  }

  /** A stream shorter than the 33 header bytes fails at the first field that does not fit. */
  lemma TruncatedHeader(c: Cursor)
    requires c.Valid() && c.good && c.Remaining() < 33
    ensures ReadSnapshot(c).1 == Err(TruncatedHeaderError(c.Remaining()))
  {
  }

  /** The error of reading one mino from the bytes that remain. */
  function MinoError(c: Cursor): Option<string>
    requires c.Valid() && c.good
  {
    if c.Remaining() < 1 then Some(NoMinoX)
    else if c.Remaining() < 2 then Some(NoMinoY)
    else if c.Remaining() < 3 then Some(NoMinoType)
    else if c.data[c.pos + 2] >= 7 then Some("got invalid enum value for TetrominoType: " + Decimal(c.data[c.pos + 2]))
    else None
  }

  /** A mino fails exactly on a truncated field or a type byte that names no TetrominoType. */
  lemma ReadMinoErrors(c: Cursor)
    requires c.Valid() && c.good
    ensures ReadMino(c).1.Err? <==> MinoError(c).Some?
    ensures ReadMino(c).1.Err? ==> ReadMino(c).1.error == MinoError(c).value
  {
    if c.Remaining() >= 3 {
      var b := c.data[c.pos..c.pos + 3];
      assert c.data[c.pos..c.pos + 1] == [b[0]];
      assert c.data[c.pos + 1..c.pos + 2] == [b[1]];
      assert c.data[c.pos + 2..c.pos + 3] == [b[2]];
      ToLEOne(b[0]);
      ToLEOne(b[1]);
      ToLEOne(b[2]);
      var (c1, x) := ReadFromIstream(c, 1);
      ToLEInjective(x.value, b[0], 1);
      var (c2, y) := ReadFromIstream(c1, 1);
      var (c3, t) := ReadFromIstream(c2, 1);
      ToLEInjective(t.value, b[2], 1);
    }
  }

  // ----- compare_to -----

  /** compare_values: a message naming the field and both values when they differ. */
  function CompareValues(name: string, mine: nat, theirs: nat): Result<(), string>
  {
    if mine != theirs then Err(name + " do not match:\n " + Decimal(mine) + " vs. " + Decimal(theirs))
    else Ok(())
  }

  /**
   * compare_to: the fields in layout order, then the mino stacks with MinoStack's operator==;
   * render stands for operator<< on a mino stack, which is not part of this model.
   */
  function CompareTo(a: Snapshot, b: Snapshot, render: seq<Mino> -> string): Result<(), string>
  {
    var r1 := CompareValues("tetrion indices", a.tetrionIndex, b.tetrionIndex);
    if r1.Err? then r1
    else
      var r2 := CompareValues("levels", a.level, b.level);
      if r2.Err? then r2
      else
        var r3 := CompareValues("scores", a.score, b.score);
        if r3.Err? then r3
        else
          var r4 := CompareValues("numbers of lines cleared", a.linesCleared, b.linesCleared);
          if r4.Err? then r4
          else
            var r5 := CompareValues("simulation step indices", a.stepIndex, b.stepIndex);
            if r5.Err? then r5
            else if !SameMinos(a.minos, b.minos) then
              Err("mino stacks do not match:\n " + render(a.minos) + " vs. " + render(b.minos))
            else Ok(())
  }

  /** The snapshots agree exactly when every field is equal and the stacks hold the same minos. */
  lemma CompareToOkIff(a: Snapshot, b: Snapshot, render: seq<Mino> -> string)
    ensures CompareTo(a, b, render).Ok? <==>
      a.tetrionIndex == b.tetrionIndex && a.level == b.level && a.score == b.score
      && a.linesCleared == b.linesCleared && a.stepIndex == b.stepIndex && SameMinos(a.minos, b.minos)
  {
  }

  /** The index of the first field, in layout order, on which the snapshots differ (6 when none). */
  function FirstMismatch(a: Snapshot, b: Snapshot): (k: nat)
    ensures k <= 6
  {
    if a.tetrionIndex != b.tetrionIndex then 0
    else if a.level != b.level then 1
    else if a.score != b.score then 2
    else if a.linesCleared != b.linesCleared then 3
    else if a.stepIndex != b.stepIndex then 4
    else if !SameMinos(a.minos, b.minos) then 5
    else 6
  }

  function FieldName(k: nat): string
    requires k < 6
  {
    ["tetrion indices", "levels", "scores", "numbers of lines cleared", "simulation step indices", "mino stacks"][k]
  }

  /** A failed comparison names the first differing field in its message. */
  lemma CompareToNamesFirstMismatch(a: Snapshot, b: Snapshot, render: seq<Mino> -> string)
    requires CompareTo(a, b, render).Err?
    ensures FirstMismatch(a, b) < 6
    ensures var name := FieldName(FirstMismatch(a, b)) + " do not match:\n ";
      CompareTo(a, b, render).error[..|name|] == name
  {
    var k := FirstMismatch(a, b);
    var name := FieldName(k) + " do not match:\n ";
    var mine, theirs :=
      if k == 0 then Decimal(a.tetrionIndex) else if k == 1 then Decimal(a.level)
      else if k == 2 then Decimal(a.score) else if k == 3 then Decimal(a.linesCleared)
      else if k == 4 then Decimal(a.stepIndex) else render(a.minos),
      if k == 0 then Decimal(b.tetrionIndex) else if k == 1 then Decimal(b.level)
      else if k == 2 then Decimal(b.score) else if k == 3 then Decimal(b.linesCleared)
      else if k == 4 then Decimal(b.stepIndex) else render(b.minos);
    assert CompareTo(a, b, render).error == name + mine + " vs. " + theirs;
    MessagePrefix(name, mine, " vs. ", theirs);
  }

  lemma MessagePrefix(name: string, x: string, y: string, z: string)
    ensures (name + x + y + z)[..|name|] == name
  {
    assert name + x + y + z == name + (x + y + z);
  }

  /** Whether the comparison succeeds does not depend on which snapshot is compared to which. */
  lemma CompareToSymmetric(a: Snapshot, b: Snapshot, render: seq<Mino> -> string)
    ensures CompareTo(a, b, render).Ok? <==> CompareTo(b, a, render).Ok?
  {
    CompareToOkIff(a, b, render);
    CompareToOkIff(b, a, render);
  }

  /** A snapshot read back from its own bytes compares equal to it. */
  lemma RoundTripCompares(s: Snapshot, c: Cursor, render: seq<Mino> -> string)
    requires DistinctPositions(s.minos)
    requires c.good && StartsWith(c, SnapshotBytes(s))
    ensures ReadSnapshot(c).1.Ok? && CompareTo(ReadSnapshot(c).1.value, s, render) == Ok(())
  {
    SnapshotRoundTrip(s, c);
  }
}
