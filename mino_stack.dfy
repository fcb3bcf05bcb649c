// MinoStack of src/libs/core/game/mino_stack.cpp: the minos that have come to
// rest on the playing field, a list of (position, tetromino type) pairs in the
// order they were set. Positions are u8 grid coordinates; y grows downwards.

module MinoStacks {
  import opened Bytes
  import opened Wrappers
  import opened Collections

  /** helper::TetrominoType, in declaration order. */
  datatype TetrominoType = I | J | L | O | S | T | Z

  /** The enumerator's underlying u8 value. */
  function TypeIndex(t: TetrominoType): (r: u8)
    ensures r < 7
    ensures TypeFromIndex(r) == Some(t)
  {
    match t
    case I => 0
    case J => 1
    case L => 2
    case O => 3
    case S => 4
    case T => 5
    case Z => 6
  }

  /** magic_enum::enum_cast<TetrominoType>: the enumerator with that value, if there is one. */
  function TypeFromIndex(b: nat): (r: Option<TetrominoType>)
    ensures r.Some? <==> b < 7
  {
    if b == 0 then Some(I)
    else if b == 1 then Some(J)
    else if b == 2 then Some(L)
    else if b == 3 then Some(O)
    else if b == 4 then Some(S)
    else if b == 5 then Some(T)
    else if b == 6 then Some(Z)
    else None
  }

  /** Every value enum_cast accepts is the underlying value of what it returns. */
  lemma TypeFromIndexInverse(b: nat)
    requires b < 7
    ensures TypeIndex(TypeFromIndex(b).value) == b
  {
  }

  datatype Point = Point(x: u8, y: u8)

  datatype Mino = Mino(position: Point, kind: TetrominoType)

  /** Some mino of the list is at p. */
  predicate Occupied(minos: seq<Mino>, p: Point)
  {
    exists i :: 0 <= i < |minos| && minos[i].position == p
  }

  /** No two minos share a position: what set keeps true. */
  predicate DistinctPositions(minos: seq<Mino>)
  {
    forall i, j :: 0 <= i < j < |minos| ==> minos[i].position != minos[j].position
  }

  // ----- clear_row_and_let_sink -----

  /** std::ranges::remove_if of the minos in row: the others, in their order. */
  function WithoutRow(minos: seq<Mino>, row: u8): (r: seq<Mino>)
    ensures |r| <= |minos|
    ensures forall m :: m in r <==> m in minos && m.position.y != row
  {
    if |minos| == 0 then []
    else
      var last := minos[|minos| - 1];
      assert minos == minos[..|minos| - 1] + [last];
      WithoutRow(minos[..|minos| - 1], row) + (if last.position.y == row then [] else [last])
  }

  /** A mino above the cleared row moves down one row; the others stay where they are. */
  function Lowered(m: Mino, row: u8): Mino
  {
    if m.position.y < row then Mino(Point(m.position.x, m.position.y + 1), m.kind) else m
  }

  function Sunk(minos: seq<Mino>, row: u8): (r: seq<Mino>)
    ensures |r| == |minos|
  {
    seq(|minos|, i requires 0 <= i < |minos| => Lowered(minos[i], row))
  }

  /** The stack after clear_row_and_let_sink(row). */
  function Cleared(minos: seq<Mino>, row: u8): seq<Mino>
  {
    Sunk(WithoutRow(minos, row), row)
  }

  /** What is left: each mino outside the row, moved down when it was above it. */
  lemma ClearedContents(minos: seq<Mino>, row: u8, m: Mino)
    ensures m in Cleared(minos, row) <==> exists m0 :: m0 in minos && m0.position.y != row && m == Lowered(m0, row)
  {
    var kept := WithoutRow(minos, row);
    if m in Cleared(minos, row) {
      var i :| 0 <= i < |kept| && Cleared(minos, row)[i] == m;
      assert kept[i] in kept;
    }
    if exists m0 :: m0 in minos && m0.position.y != row && m == Lowered(m0, row) {
      var m0 :| m0 in minos && m0.position.y != row && m == Lowered(m0, row);
      assert m0 in kept;
      var i :| 0 <= i < |kept| && kept[i] == m0;
      assert Cleared(minos, row)[i] == m;
    }
  }

  /**
   * Minos below the row are kept as they are, minos above it move down one
   * row, and the row's own minos go: what stands on the row afterwards is a
   * mino lowered from the row just above it.
   */
  lemma ClearedRows(minos: seq<Mino>, row: u8, m: Mino)
    requires m in minos
    ensures m.position.y > row ==> m in Cleared(minos, row)
    ensures m.position.y < row ==> Mino(Point(m.position.x, m.position.y + 1), m.kind) in Cleared(minos, row)
    ensures m.position.y == row && m in Cleared(minos, row) ==>
              row > 0 && Mino(Point(m.position.x, row - 1), m.kind) in minos
  {
    ClearedContents(minos, row, Lowered(m, row));
    ClearedContents(minos, row, m);
    if m.position.y == row && m in Cleared(minos, row) {
      var m0 :| m0 in minos && m0.position.y != row && m == Lowered(m0, row);
      assert m0 == Mino(Point(m.position.x, row - 1), m.kind);
    }
  }

  lemma WithoutRowDistinct(minos: seq<Mino>, row: u8)
    requires DistinctPositions(minos)
    ensures DistinctPositions(WithoutRow(minos, row))
  {
    if |minos| > 0 {
      var init := minos[..|minos| - 1];
      var last := minos[|minos| - 1];
      assert DistinctPositions(init);
      WithoutRowDistinct(init, row);
      var w := WithoutRow(init, row);
      forall i | 0 <= i < |w|
        ensures w[i].position != last.position
      {
        assert w[i] in init;
        var j :| 0 <= j < |init| && init[j] == w[i];
        assert minos[j] == w[i];
      }
    }
  }

  /** Moving rows down never puts two minos on one cell. */
  lemma ClearedKeepsDistinct(minos: seq<Mino>, row: u8)
    requires DistinctPositions(minos)
    ensures DistinctPositions(Cleared(minos, row))
  {
    var kept := WithoutRow(minos, row);
    WithoutRowDistinct(minos, row);
    forall i, j | 0 <= i < j < |kept|
      ensures Lowered(kept[i], row).position != Lowered(kept[j], row).position
    {
      assert kept[i] in kept && kept[j] in kept;
    }
  }

  /** std::ranges::remove_if followed by erase: the minos outside row, in their order. */
  method RemoveRow(minos: seq<Mino>, row: u8) returns (kept: seq<Mino>)
    ensures kept == WithoutRow(minos, row)
  {
    kept := [];
    var i := 0;
    while i < |minos|
      invariant i <= |minos|
      invariant kept == WithoutRow(minos[..i], row)
    {
      assert minos[..i + 1][..i] == minos[..i];
      if minos[i].position.y != row {
        kept := kept + [minos[i]];
      }
      i := i + 1;
    }
    assert minos[..i] == minos;
  }

  // ----- set -----

  /** The list after set(p, t): the first mino at p replaced, or a new mino appended. */
  function SetMino(minos: seq<Mino>, p: Point, t: TetrominoType): (r: seq<Mino>)
  {
    if |minos| == 0 then [Mino(p, t)]
    else if minos[0].position == p then [Mino(p, t)] + minos[1..]
    else [minos[0]] + SetMino(minos[1..], p, t)
  }

  /** When the first mino at p is at index i, set overwrites that entry. */
  lemma {:induction false} SetMinoAt(minos: seq<Mino>, p: Point, t: TetrominoType, i: nat)
    requires i < |minos| && minos[i].position == p
    requires forall j :: 0 <= j < i ==> minos[j].position != p
    ensures SetMino(minos, p, t) == minos[i := Mino(p, t)]
  {
    if i > 0 {
      SetMinoAt(minos[1..], p, t, i - 1);
      assert minos[i := Mino(p, t)] == [minos[0]] + minos[1..][i - 1 := Mino(p, t)];
    }
  }

  /** When no mino is at p, set appends. */
  lemma {:induction false} SetMinoAppends(minos: seq<Mino>, p: Point, t: TetrominoType)
    requires !Occupied(minos, p)
    ensures SetMino(minos, p, t) == minos + [Mino(p, t)]
  {
    if |minos| > 0 {
      assert !Occupied(minos[1..], p) by {
        forall j | 0 <= j < |minos[1..]|
          ensures minos[1..][j].position != p
        {
          assert minos[1..][j] == minos[j + 1];
        }
      }
      SetMinoAppends(minos[1..], p, t);
      assert minos == [minos[0]] + minos[1..];
    }
  }

  /** After set(p, t) the cell p holds t, and the list grows only when p was free. */
  lemma {:induction false} SetOccupies(minos: seq<Mino>, p: Point, t: TetrominoType)
    ensures Mino(p, t) in SetMino(minos, p, t)
    ensures Occupied(SetMino(minos, p, t), p)
    ensures |SetMino(minos, p, t)| == if Occupied(minos, p) then |minos| else |minos| + 1
  {
    if |minos| > 0 && minos[0].position != p {
      SetOccupies(minos[1..], p, t);
      var r := SetMino(minos, p, t);
      var k :| 0 <= k < |SetMino(minos[1..], p, t)| && SetMino(minos[1..], p, t)[k].position == p;
      assert r[k + 1].position == p;
      if Occupied(minos, p) {
        var j :| 0 <= j < |minos| && minos[j].position == p;
        assert minos[1..][j - 1].position == p;
      }
      if Occupied(minos[1..], p) {
        var j :| 0 <= j < |minos[1..]| && minos[1..][j].position == p;
        assert minos[j + 1].position == p;
      }
    } else if |minos| > 0 {
      assert SetMino(minos, p, t)[0] == Mino(p, t);
      assert minos[0].position == p;
    }
  }

  /** set(p, t) leaves every mino at another cell as it was. */
  lemma {:induction false} SetKeepsOthers(minos: seq<Mino>, p: Point, t: TetrominoType, m: Mino)
    requires m.position != p
    ensures m in SetMino(minos, p, t) <==> m in minos
  {
    if |minos| > 0 {
      if minos[0].position != p {
        SetKeepsOthers(minos[1..], p, t, m);
        assert minos == [minos[0]] + minos[1..];
      } else {
        assert minos == [minos[0]] + minos[1..];
      }
    }
  }

  /** set keeps positions distinct. */
  lemma {:induction false} SetKeepsDistinct(minos: seq<Mino>, p: Point, t: TetrominoType)
    requires DistinctPositions(minos)
    ensures DistinctPositions(SetMino(minos, p, t))
  {
    if |minos| > 0 {
      var rest := minos[1..];
      assert DistinctPositions(rest);
      if minos[0].position == p {
        var r := SetMino(minos, p, t);
        forall i, j | 0 <= i < j < |r|
          ensures r[i].position != r[j].position
        {
          assert r[j] == minos[j];
          if i > 0 {
            assert r[i] == minos[i];
          }
        }
      } else {
        SetKeepsDistinct(rest, p, t);
        var tail := SetMino(rest, p, t);
        forall j | 0 <= j < |tail|
          ensures tail[j].position != minos[0].position
        {
          if tail[j].position != p {
            SetKeepsOthers(rest, p, t, tail[j]);
            assert tail[j] in rest;
            var k :| 0 <= k < |rest| && rest[k] == tail[j];
            assert minos[k + 1] == tail[j];
          }
        }
      }
    }
  }

  // ----- operator== -----

  /** operator==: as many minos, and every mino of each list found in the other. */
  predicate SameMinos(a: seq<Mino>, b: seq<Mino>)
  {
    |a| == |b| && (forall m :: m in a ==> m in b) && (forall m :: m in b ==> m in a)
  }

  /** The comparison ignores order: a reordered list compares equal. */
  lemma PermutationIsSame(a: seq<Mino>, b: seq<Mino>)
    requires multiset(a) == multiset(b)
    ensures SameMinos(a, b)
  {
    assert |a| == |multiset(a)| && |b| == |multiset(b)|;
    forall m
      ensures m in a <==> m in b
    {
      assert m in a <==> m in multiset(a);
      assert m in b <==> m in multiset(b);
    }
  }

  /** On stacks whose positions are distinct, equal means a reordering of the same minos. */
  lemma SameMinosIsPermutation(a: seq<Mino>, b: seq<Mino>)
    requires DistinctPositions(a) && DistinctPositions(b)
    ensures SameMinos(a, b) <==> multiset(a) == multiset(b)
  {
    if SameMinos(a, b) {
      PositionsDistinct(a);
      PositionsDistinct(b);
      DistinctMultiset(a);
      DistinctMultiset(b);
      assert multiset(a) == multiset(b) by {
        forall m
          ensures multiset(a)[m] == multiset(b)[m]
        {
          assert m in a <==> m in b;
        }
      }
    } else if multiset(a) == multiset(b) {
      PermutationIsSame(a, b);
    }
  }

  lemma PositionsDistinct(a: seq<Mino>)
    requires DistinctPositions(a)
    ensures Distinct(a)
  {
  }

  // ----- num_minos -----

  /** A stack with distinct u8 positions has at most 256 * 256 minos. */
  lemma DistinctPositionsBound(minos: seq<Mino>)
    requires DistinctPositions(minos)
    ensures |minos| <= 0x1_0000
  {
    var codes := seq(|minos|, i requires 0 <= i < |minos| => minos[i].position.x * 256 + minos[i].position.y);
    assert Distinct(codes) by {
      forall i, j | 0 <= i < j < |codes|
        ensures codes[i] != codes[j]
      {
        assert minos[i].position != minos[j].position;
      }
    }
    DistinctCard(codes);
    assert Elems(codes) <= Range(0x1_0000);
    SubsetCard(Elems(codes), Range(0x1_0000));
  }

  /** The integers 0 .. n - 1. */
  function Range(n: nat): (r: set<int>)
    ensures forall i :: i in r <==> 0 <= i < n
    ensures |r| == n
  {
    if n == 0 then {} else Range(n - 1) + {n - 1}
  }

  lemma SubsetCard(a: set<int>, b: set<int>)
    requires a <= b
    ensures |a| <= |b|
  {
    assert b == a + (b - a);
  }

  // ----- the stack itself -----

  class MinoStack {
    var minos: seq<Mino>

    /** The invariant set and clear_row_and_let_sink keep: one mino per cell. */
    predicate Valid()
      reads this
    {
      DistinctPositions(minos)
    }

    constructor ()
      ensures Valid() && minos == []
    {
      minos := [];
    }

    /** clear_row_and_let_sink: the row's minos are erased, then those above it move down. */
    method ClearRowAndLetSink(row: u8)
      modifies this
      ensures minos == Cleared(old(minos), row)
      ensures old(Valid()) ==> Valid()
    {
      if Valid() {
        ClearedKeepsDistinct(minos, row);
      }
      minos := RemoveRow(minos, row);
      LetSink(row);
    }

    /** The loop of clear_row_and_let_sink that moves every mino above row down by one. */
    method LetSink(row: u8)
      modifies this
      ensures minos == Sunk(old(minos), row)
    {
      var j := 0;
      while j < |minos|
        invariant j <= |minos| == |old(minos)|
        invariant forall q :: 0 <= q < j ==> minos[q] == Lowered(old(minos)[q], row)
        invariant forall q :: j <= q < |minos| ==> minos[q] == old(minos)[q]
      {
        if minos[j].position.y < row {
          minos := minos[j := Mino(Point(minos[j].position.x, minos[j].position.y + 1), minos[j].kind)];
        }
        j := j + 1;
      }
    }

    /** is_empty: no mino is at p. */
    predicate IsEmpty(p: Point)
      reads this
    {
      forall i :: 0 <= i < |minos| ==> minos[i].position != p
    }

    /** set: the mino at p gets type t, or a new mino is appended. */
    method Set(p: Point, t: TetrominoType)
      modifies this
      ensures minos == SetMino(old(minos), p, t)
      ensures old(Valid()) ==> Valid()
    {
      if Valid() {
        SetKeepsDistinct(minos, p, t);
      }
      var toInsert := Mino(p, t);
      var i := 0;
      while i < |minos|
        invariant i <= |minos| && minos == old(minos)
        invariant forall j :: 0 <= j < i ==> minos[j].position != p
      {
        if minos[i].position == p {
          SetMinoAt(minos, p, t, i);
          minos := minos[i := toInsert];
          return;
        }
        i := i + 1;
      }
      SetMinoAppends(minos, p, t);
      minos := minos + [toInsert];
    }

    /** num_minos: the list length as a u32, which is the length itself on a valid stack. */
    function NumMinos(): (r: u32)
      reads this
      ensures Valid() ==> r == |minos|
    {
      if Valid() then
        DistinctPositionsBound(minos);
        U32Cast(|minos|)
      else U32Cast(|minos|)
    }

    /** operator==. */
    predicate Equals(other: MinoStack)
      reads this, other
    {
      SameMinos(minos, other.minos)
    }
  }

  /** is_empty(p) holds exactly when no mino of the stack is at p. */
  lemma IsEmptyIffFree(stack: MinoStack, p: Point)
    ensures stack.IsEmpty(p) <==> !Occupied(stack.minos, p)
  {
  }
}
