// The stream readers and byte writers of
// src/libs/recordings/utility/helper.hpp. An input stream is a byte sequence,
// a read position and the stream's good flag: a read of n bytes when fewer
// remain consumes what is left and makes the stream bad, as std::istream::read
// does; nothing can be read from a bad stream.

module StreamIO {
  import opened Bytes
  import opened Wrappers

  datatype ReadErrorType = EndOfFile | Incomplete | InvalidStream

  datatype ReadError = ReadError(kind: ReadErrorType, message: string)

  /** A snapshot of an input stream's state. */
  datatype Cursor = Cursor(data: seq<u8>, pos: nat, good: bool)
  {
    ghost predicate Valid() { pos <= |data| }
    function Remaining(): nat requires Valid() { |data| - pos }
  }

  /** std::istream::read of n bytes. */
  function ReadRaw(c: Cursor, n: nat): (res: (Cursor, Option<seq<u8>>))
    requires c.Valid()
    ensures res.0.Valid() && res.0.data == c.data && res.0.pos >= c.pos
    ensures res.1.Some? <==> c.good && n <= c.Remaining()
    ensures res.1.Some? ==> res.1.value == c.data[c.pos..c.pos + n] && res.0 == Cursor(c.data, c.pos + n, true)
    ensures res.1.None? ==> !res.0.good
    ensures !c.good ==> res.0 == c
  {
    if !c.good then (c, None)
    else if n <= |c.data| - c.pos then (Cursor(c.data, c.pos + n, true), Some(c.data[c.pos..c.pos + n]))
    else (Cursor(c.data, |c.data|, false), None)
  }

  /** reader::read_integral_from_file for an integral type of n bytes. */
  function ReadIntegral(c: Cursor, n: nat): (res: (Cursor, Result<nat, ReadError>))
    requires c.Valid()
    ensures res.0 == ReadRaw(c, n).0
    ensures !c.good <==> res.1.Err? && res.1.error.kind == InvalidStream
    ensures c.good && n > c.Remaining() <==> res.1.Err? && res.1.error.kind == Incomplete
    ensures res.1.Ok? ==> res.1.value < Pow256(n) && ToLE(res.1.value, n) == c.data[c.pos..c.pos + n]
  {
    if !c.good then
      (c, Err(ReadError(InvalidStream, "failed to read data from file (before reading)")))
    else
      var (c', b) := ReadRaw(c, n);
      if b.None? then
        (c', Err(ReadError(Incomplete, "failed to read data from file (after reading)")))
      else
        ToFromLE(b.value);
        (c', Ok(FromLE(b.value)))
  }

  /** reader::read_from_istream: the same read, reporting failure without a reason. */
  function ReadFromIstream(c: Cursor, n: nat): (res: (Cursor, Option<nat>))
    requires c.Valid()
    ensures res.0 == ReadRaw(c, n).0
    ensures res.1.Some? <==> c.good && n <= c.Remaining()
    ensures res.1.Some? ==> res.1.value < Pow256(n) && ToLE(res.1.value, n) == c.data[c.pos..c.pos + n]
  {
    var (c', b) := ReadRaw(c, n);
    if b.None? then (c', None)
    else
      ToFromLE(b.value);
      (c', Some(FromLE(b.value)))
  }

  /** The number of bytes in count fields of n bytes each: count * n. */
  function Span(count: nat, n: nat): nat
  {
    if count == 0 then 0 else n + Span(count - 1, n)
  }

  lemma {:induction false} SpanIsProduct(count: nat, n: nat)
    ensures Span(count, n) == count * n
  {
    if count > 0 {
      SpanIsProduct(count - 1, n);
      assert count * n == n + (count - 1) * n;
    }
  }

  /** The values of count consecutive n-byte little-endian fields of data from pos on. */
  function FieldsAt(data: seq<u8>, pos: nat, count: nat, n: nat): (r: seq<nat>)
    requires pos + Span(count, n) <= |data|
    ensures |r| == count
    decreases count
  {
    if count == 0 then [] else [FromLE(data[pos..pos + n])] + FieldsAt(data, pos + n, count - 1, n)
  }

  /** The layouts of the values, one after another. */
  function ConcatLE(values: seq<nat>, n: nat): (r: seq<u8>)
    ensures |r| == Span(|values|, n)
  {
    if |values| == 0 then [] else ToLE(values[0], n) + ConcatLE(values[1..], n)
  }

  /** Reading count fields one at a time: the array readers' loop. */
  function ReadFields(c: Cursor, count: nat, n: nat): (res: (Cursor, Option<seq<nat>>))
    requires c.Valid()
    ensures res.0.Valid() && res.0.data == c.data && res.0.pos >= c.pos
    decreases count
  {
    if count == 0 then
      if c.good then (c, Some([])) else (c, None)
    else
      var first := ReadFromIstream(c, n);
      if first.1.None? then (first.0, None)
      else
        var rest := ReadFields(first.0, count - 1, n);
        if rest.1.None? then (rest.0, None) else (rest.0, Some([first.1.value] + rest.1.value))
  }

  /**
   * The fields are read exactly when the stream is good and holds them all,
   * and the stream then stays good just past them. A failed read leaves the
   * stream bad.
   */
  lemma {:induction false} ReadFieldsSpec(c: Cursor, count: nat, n: nat)
    requires c.Valid()
    ensures ReadFields(c, count, n).1.Some? <==> c.good && Span(count, n) <= c.Remaining()
    ensures ReadFields(c, count, n).1.Some? ==> ReadFields(c, count, n).0 == Cursor(c.data, c.pos + Span(count, n), true)
    ensures ReadFields(c, count, n).1.None? ==> !ReadFields(c, count, n).0.good
    decreases count
  {
    if count > 0 {
      var first := ReadFromIstream(c, n);
      if first.1.Some? {
        ReadFieldsSpec(first.0, count - 1, n);
      }
    }
  }

  /** The values read are the fields' little-endian values. */
  lemma {:induction false} ReadFieldsValues(c: Cursor, count: nat, n: nat)
    requires c.Valid() && c.good && Span(count, n) <= c.Remaining()
    ensures ReadFields(c, count, n).1 == Some(FieldsAt(c.data, c.pos, count, n))
    decreases count
  {
    if count > 0 {
      var c1 := Cursor(c.data, c.pos + n, true);
      ReadFieldsValues(c1, count - 1, n);
    }
  }

  /** Decoding the concatenated layouts of values below 256^n gives them back. */
  lemma {:induction false} FieldsOfConcat(values: seq<nat>, n: nat, data: seq<u8>, pos: nat)
    requires forall i :: 0 <= i < |values| ==> values[i] < Pow256(n)
    requires pos + Span(|values|, n) <= |data| && data[pos..pos + Span(|values|, n)] == ConcatLE(values, n)
    ensures FieldsAt(data, pos, |values|, n) == values
  {
    if |values| > 0 {
      var rest := values[1..];
      HeadOfConcat(values, n, data, pos);
      FromToLE(values[0], n);
      forall i | 0 <= i < |rest|
        ensures rest[i] < Pow256(n)
      {
        assert rest[i] == values[i + 1];
      }
      FieldsOfConcat(rest, n, data, pos + n);
      FieldsAtStep(data, pos, |values|, n);
      assert values == [values[0]] + rest;
    }
  }

  /** The concatenation starts with the first value's layout; the others follow it. */
  lemma HeadOfConcat(values: seq<nat>, n: nat, data: seq<u8>, pos: nat)
    requires |values| > 0
    requires pos + Span(|values|, n) <= |data| && data[pos..pos + Span(|values|, n)] == ConcatLE(values, n)
    ensures data[pos..pos + n] == ToLE(values[0], n)
    ensures pos + n + Span(|values[1..]|, n) <= |data|
    ensures data[pos + n..pos + n + Span(|values[1..]|, n)] == ConcatLE(values[1..], n)
  {
    var rest := values[1..];
    var first := ToLE(values[0], n);
    var tail := ConcatLE(rest, n);
    var span := Span(|rest|, n);
    assert Span(|values|, n) == n + span;
    assert ConcatLE(values, n) == first + tail;
    SliceSplit(data, pos, first, tail, n, span);
  }

  lemma FieldsAtStep(data: seq<u8>, pos: nat, count: nat, n: nat)
    requires count > 0 && pos + Span(count, n) <= |data|
    ensures FieldsAt(data, pos, count, n) == [FromLE(data[pos..pos + n])] + FieldsAt(data, pos + n, count - 1, n)
  {
  }

  /** The outcome of reading some fields after values were already read. */
  function Prepend(values: seq<nat>, res: (Cursor, Option<seq<nat>>)): (Cursor, Option<seq<nat>>)
  {
    (res.0, if res.1.None? then None else Some(values + res.1.value))
  }

  lemma PrependNothing(res: (Cursor, Option<seq<nat>>))
    ensures Prepend([], res) == res
  {
    if res.1.Some? {
      assert [] + res.1.value == res.1.value;
    }
  }

  /** One step of ReadFields: a failed first read ends it, otherwise the rest follows. */
  lemma ReadFieldsStep(c: Cursor, k: nat, n: nat, values: seq<nat>)
    requires c.Valid() && c.good && k > 0
    ensures ReadFromIstream(c, n).1.None? ==> ReadFields(c, k, n) == (ReadFromIstream(c, n).0, None)
    ensures ReadFromIstream(c, n).1.Some? ==>
      Prepend(values, ReadFields(c, k, n))
      == Prepend(values + [ReadFromIstream(c, n).1.value], ReadFields(ReadFromIstream(c, n).0, k - 1, n))
  {
    var (c1, v) := ReadFromIstream(c, n);
    if v.Some? {
      var res := ReadFields(c1, k - 1, n);
      if res.1.Some? {
        assert values + ([v.value] + res.1.value) == (values + [v.value]) + res.1.value;
      }
    }
  }

  /** The data at the cursor begins with b. */
  ghost predicate StartsWith(c: Cursor, b: seq<u8>)
  {
    c.Valid() && |b| <= c.Remaining() && c.data[c.pos..c.pos + |b|] == b
  }

  lemma StartsWithSplit(c: Cursor, a: seq<u8>, b: seq<u8>)
    requires StartsWith(c, a + b)
    ensures StartsWith(c, a)
    ensures StartsWith(Cursor(c.data, c.pos + |a|, c.good), b)
  {
    assert c.data[c.pos..c.pos + |a|] == (a + b)[..|a|];
    assert c.data[c.pos + |a|..c.pos + |a| + |b|] == (a + b)[|a|..];
  }

  /** Reading a field of n bytes from its layout gives back the field. */
  lemma ReadFieldBack(c: Cursor, x: nat, n: nat)
    requires c.good && x < Pow256(n) && StartsWith(c, ToLE(x, n))
    ensures ReadFromIstream(c, n).0 == Cursor(c.data, c.pos + n, true)
    ensures ReadFromIstream(c, n).1 == Some(x)
  {
    var (c1, y) := ReadFromIstream(c, n);
    ToLEInjective(x, y.value, n);
  }

  /** A mutable input stream (std::istream / std::ifstream). */
  class InputStream {
    var data: seq<u8>
    var pos: nat
    var good: bool

    ghost predicate Valid()
      reads this
    {
      pos <= |data|
    }

    function State(): (c: Cursor)
      reads this
      ensures Valid() ==> c.Valid()
    {
      Cursor(data, pos, good)
    }

    constructor (bytes: seq<u8>)
      ensures Valid() && State() == Cursor(bytes, 0, true)
    {
      data := bytes;
      pos := 0;
      good := true;
    }

    /** Reads n raw bytes. */
    method Read(n: nat) returns (b: Option<seq<u8>>)
      requires Valid()
      modifies this
      ensures Valid()
      ensures State() == ReadRaw(old(State()), n).0
      ensures b == ReadRaw(old(State()), n).1
    {
      var res := ReadRaw(State(), n);
      pos := res.0.pos;
      good := res.0.good;
      b := res.1;
    }

    /** reader::read_integral_from_file. */
    method ReadIntegralFromFile(n: nat) returns (r: Result<nat, ReadError>)
      requires Valid()
      modifies this
      ensures Valid()
      ensures State() == ReadIntegral(old(State()), n).0
      ensures r == ReadIntegral(old(State()), n).1
    {
      if !good {
        return Err(ReadError(InvalidStream, "failed to read data from file (before reading)"));
      }
      var b := Read(n);
      if !good {
        return Err(ReadError(Incomplete, "failed to read data from file (after reading)"));
      }
      r := Ok(FromLE(b.value));
    }

    /** reader::read_from_istream. */
    method ReadFromIstreamValue(n: nat) returns (r: Option<nat>)
      requires Valid()
      modifies this
      ensures Valid()
      ensures State() == ReadFromIstream(old(State()), n).0
      ensures r == ReadFromIstream(old(State()), n).1
    {
      if !good {
        return None;
      }
      var b := Read(n);
      if !good {
        return None;
      }
      r := Some(FromLE(b.value));
    }

    /** reader::read_array_from_istream: count values of n bytes each. */
    method ReadArrayFromIstream(count: nat, n: nat) returns (r: Option<seq<nat>>)
      requires Valid()
      modifies this
      ensures Valid()
      ensures State() == ReadFields(old(State()), count, n).0
      ensures r == ReadFields(old(State()), count, n).1
    {
      if !good {
        return None;
      }
      var start := State();
      var values: seq<nat> := [];
      var i := 0;
      PrependNothing(ReadFields(start, count, n));
      while i < count
        invariant Valid() && i <= count && good && data == start.data
        invariant ReadFields(start, count, n) == Prepend(values, ReadFields(State(), count - i, n))
      {
        ReadFieldsStep(State(), count - i, n, values);
        var v := ReadFromIstreamValue(n);
        if v.None? {
          return None;
        }
        values := values + [v.value];
        i := i + 1;
      }
      assert values + [] == values;
      r := Some(values);
    }

    /**
     * reader::read_array_from_file: count values of n bytes each, failing with
     * the first failing read's error.
     */
    method ReadArrayFromFile(count: nat, n: nat) returns (r: Result<seq<nat>, ReadError>)
      requires Valid()
      modifies this
      ensures Valid()
      ensures State() == ReadFieldsFromFile(old(State()), count, n).0
      ensures r == ReadFieldsFromFile(old(State()), count, n).1
    {
      if !good {
        return Err(ReadError(InvalidStream, "failed to read data from file (before reading)"));
      }
      var start := State();
      var values: seq<nat> := [];
      var i := 0;
      PrependNothing(ReadFields(start, count, n));
      while i < count
        invariant Valid() && i <= count && good && data == start.data
        invariant ReadFields(start, count, n) == Prepend(values, ReadFields(State(), count - i, n))
      {
        ReadFieldsStep(State(), count - i, n, values);
        var v := ReadIntegralFromFile(n);
        if v.Err? {
          return Err(v.error);
        }
        values := values + [v.value];
        i := i + 1;
      }
      assert values + [] == values;
      r := Ok(values);
    }
  }

  /**
   * The outcome of read_array_from_file: on a bad stream the "before reading"
   * error, otherwise the fields, or the "after reading" error of the read that
   * came up short.
   */
  function ReadFieldsFromFile(c: Cursor, count: nat, n: nat): (res: (Cursor, Result<seq<nat>, ReadError>))
    requires c.Valid()
  {
    if !c.good then (c, Err(ReadError(InvalidStream, "failed to read data from file (before reading)")))
    else
      var (c1, values) := ReadFields(c, count, n);
      (c1, if values.None? then Err(ReadError(Incomplete, "failed to read data from file (after reading)"))
           else Ok(values.value))
  }

  /** A mutable output stream (std::ofstream): the bytes written so far and its good flag. */
  class OutputStream {
    var written: seq<u8>
    var good: bool

    constructor (isOpen: bool)
      ensures written == [] && good == isOpen
    {
      written := [];
      good := isOpen;
    }

    /** writer::write_integral_to_file. */
    method WriteIntegral(value: nat, n: nat) returns (r: Result<bool, string>)
      modifies this
      ensures good == old(good)
      ensures old(good) ==> r == Ok(true) && written == old(written) + ToLE(value, n)
      ensures !old(good) ==> r == Err("failed to write data \"" + Decimal(value) + "\"") && written == old(written)
    {
      if !good {
        return Err("failed to write data \"" + Decimal(value) + "\"");
      }
      written := written + ToLE(value, n);
      r := Ok(true);
    }

    /** writer::write_vector_to_file: writes every value, stopping at the first error. */
    method WriteVector(values: seq<nat>, n: nat) returns (r: Result<bool, string>)
      modifies this
      ensures good == old(good)
      ensures old(good) ==> r == Ok(true) && written == old(written) + ConcatLE(values, n)
      ensures !old(good) && |values| > 0 ==>
        r == Err("failed to write data \"" + Decimal(values[0]) + "\"") && written == old(written)
      ensures !old(good) && |values| == 0 ==> r == Ok(true) && written == old(written)
    {
      r := Ok(true);
      var i := 0;
      while i < |values|
        invariant i <= |values| && good == old(good) && r == Ok(true)
        invariant good ==> written == old(written) + ConcatLE(values[..i], n)
        invariant !good ==> i == 0 && written == old(written)
      {
        r := WriteIntegral(values[i], n);
        if r.Err? {
          return Err(r.error);
        }
        ConcatSnoc(values[..i], values[i], n);
        assert values[..i + 1] == values[..i] + [values[i]];
        i := i + 1;
      }
      assert values[..i] == values;
    }
  }

  lemma {:induction false} ConcatSnoc(values: seq<nat>, x: nat, n: nat)
    ensures ConcatLE(values + [x], n) == ConcatLE(values, n) + ToLE(x, n)
  {
    if |values| == 0 {
      assert values + [x] == [x];
    } else {
      assert (values + [x])[1..] == values[1..] + [x];
      ConcatSnoc(values[1..], x, n);
    }
  }

  /** Bytes written one byte each are the bytes themselves. */
  lemma {:induction false} ConcatOneByte(bytes: seq<u8>)
    ensures ConcatLE(bytes, 1) == bytes
  {
    if |bytes| > 0 {
      ToLEOne(bytes[0]);
      ConcatOneByte(bytes[1..]);
      assert bytes == [bytes[0]] + bytes[1..];
    }
  }

  /** Reading |bytes| one-byte fields where those bytes are gives them back. */
  lemma {:induction false} BytesBack(c: Cursor, bytes: seq<u8>)
    requires c.Valid() && c.good && |bytes| <= c.Remaining() && c.data[c.pos..c.pos + |bytes|] == bytes
    ensures ReadFields(c, |bytes|, 1).0 == Cursor(c.data, c.pos + |bytes|, true)
    ensures ReadFields(c, |bytes|, 1).1 == Some(bytes)
    decreases |bytes|
  {
    if |bytes| > 0 {
      var b := bytes[0];
      var rest := bytes[1..];
      ToLEOne(b);
      assert c.data[c.pos..c.pos + 1] == [b];
      ReadFieldBack(c, b, 1);
      var c1 := Cursor(c.data, c.pos + 1, true);
      assert c1.data[c1.pos..c1.pos + |rest|] == rest;
      BytesBack(c1, rest);
      var tail := ReadFields(c1, |rest|, 1);
      assert ReadFields(c, |bytes|, 1) == (tail.0, Some([b] + rest));
      assert [b] + rest == bytes;
    }
  }

  /** writer::append_value: pushes the n little-endian bytes of value, one at a time. */
  method AppendValue(vector: seq<u8>, value: nat, n: nat) returns (r: seq<u8>)
    ensures r == vector + ToLE(value, n)
  {
    var le := ToLE(value, n);
    r := vector;
    var i := 0;
    while i < n
      invariant i <= n
      invariant r == vector + le[..i]
    {
      r := r + [le[i]];
      assert le[..i + 1] == le[..i] + [le[i]];
      i := i + 1;
    }
    assert le[..n] == le;
  }

  /** writer::append_bytes: appends every value in order. */
  method AppendBytes(vector: seq<u8>, values: seq<nat>, n: nat) returns (r: seq<u8>)
    ensures |r| == |vector| + Span(|values|, n)
    ensures r == vector + ConcatLE(values, n)
  {
    r := vector;
    var i := 0;
    while i < |values|
      invariant i <= |values|
      invariant r == vector + ConcatLE(values[..i], n)
    {
      r := AppendValue(r, values[i], n);
      ConcatSnoc(values[..i], values[i], n);
      assert values[..i + 1] == values[..i] + [values[i]];
      i := i + 1;
    }
    assert values[..i] == values;
  }
}
