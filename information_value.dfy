// recorder::InformationValue of src/recordings/additional_information.cpp:
// a tagged, possibly nested value, its byte encoding (one tag byte, then the
// payload) and the stream reader for it. Floating-point payloads are kept as
// their raw bit patterns, which is all the encoding looks at.

module InformationValues {
  import opened Bytes
  import opened Wrappers
  import opened StreamIO

  /** max_recursion_depth: the deepest vector nesting either direction accepts. */
  const MaxRecursionDepth: nat := 15

  // The ValueType tags.
  const TagString: u8 := 0
  const TagFloat: u8 := 1
  const TagDouble: u8 := 2
  const TagBool: u8 := 3
  const TagU8: u8 := 4
  const TagI8: u8 := 5
  const TagU32: u8 := 6
  const TagI32: u8 := 7
  const TagU64: u8 := 8
  const TagI64: u8 := 9
  const TagVector: u8 := 10

  datatype Value =
    | Str(chars: seq<u8>)
    | Float(floatBits: u32)
    | Double(doubleBits: u64)
    | Bool(flag: bool)
    | U8(u8Value: u8)
    | I8(i8Value: i8)
    | U32(u32Value: u32)
    | I32(i32Value: i32)
    | U64(u64Value: u64)
    | I64(i64Value: i64)
    | Vector(elems: seq<Value>)

  function TagOf(v: Value): u8
  {
    match v
    case Str(_) => TagString
    case Float(_) => TagFloat
    case Double(_) => TagDouble
    case Bool(_) => TagBool
    case U8(_) => TagU8
    case I8(_) => TagI8
    case U32(_) => TagU32
    case I32(_) => TagI32
    case U64(_) => TagU64
    case I64(_) => TagI64
    case Vector(_) => TagVector
  }

  /** How deeply vectors are nested inside v (0 for a scalar). */
  function Nesting(v: Value): nat
  {
    match v
    case Vector(elems) => 1 + NestingFrom(v, 0)
    case _ => 0
  }

  /** The deepest nesting among v.elems[j..]. */
  function NestingFrom(v: Value, j: nat): nat
    requires v.Vector? && j <= |v.elems|
    decreases v, |v.elems| - j
  {
    if j == |v.elems| then 0
    else
      var a := Nesting(v.elems[j]);
      var b := NestingFrom(v, j + 1);
      if a < b then b else a
  }

  /** Every string and vector in v is shorter than 2^32, so its u32 length prefix is exact. */
  predicate WellSized(v: Value)
  {
    match v
    case Str(chars) => |chars| < U32Limit
    case Vector(elems) => |elems| < U32Limit && WellSizedFrom(v, 0)
    case _ => true
  }

  predicate WellSizedFrom(v: Value, j: nat)
    requires v.Vector? && j <= |v.elems|
    decreases v, |v.elems| - j
  {
    j == |v.elems| || (WellSized(v.elems[j]) && WellSizedFrom(v, j + 1))
  }

  // ----- Encoding -----

  /** string_to_bytes: a u32 little-endian length, then the characters. */
  function StringBytes(s: seq<u8>): seq<u8>
  {
    ToLE(U32Cast(|s|), 4) + s
  }

  /** The payload of a scalar value. */
  function ScalarPayload(v: Value): seq<u8>
    requires !v.Vector?
  {
    match v
    case Str(chars) => StringBytes(chars)
    case Float(bits) => ToLE(bits, 4)
    case Double(bits) => ToLE(bits, 8)
    case Bool(b) => [if b then 1 else 0]
    case U8(x) => [x]
    case I8(x) => ToLE(UnsignedFromSigned(x, 1), 1)
    case U32(x) => ToLE(x, 4)
    case I32(x) => ToLE(UnsignedFromSigned(x, 4), 4)
    case U64(x) => ToLE(x, 8)
    case I64(x) => ToLE(UnsignedFromSigned(x, 8), 8)
  }

  const DepthErrorSerializing: string :=
    "Reached maximum recursion depth of 15 while serializing vectors!"
  const DepthErrorDeserializing: string :=
    "Reached maximum recursion depth of 15 while de-serializing vectors!"

  /** InformationValue::to_bytes at the given recursion depth. */
  function Encoding(v: Value, depth: nat): Result<seq<u8>, string>
    decreases v
  {
    if !v.Vector? then Ok([TagOf(v)] + ScalarPayload(v))
    else if depth >= MaxRecursionDepth then Err(DepthErrorSerializing)
    else EncodeFrom(v, 0, depth, [TagVector] + ToLE(U32Cast(|v.elems|), 4))
  }

  /** Appends the encodings of v.elems[j..] (at depth + 1) to acc, stopping at the first error. */
  function EncodeFrom(v: Value, j: nat, depth: nat, acc: seq<u8>): Result<seq<u8>, string>
    requires v.Vector? && j <= |v.elems|
    decreases v, |v.elems| - j
  {
    if j == |v.elems| then Ok(acc)
    else
      match Encoding(v.elems[j], depth + 1)
      case Err(e) => Err("Error while converting to bytes: " + e)
      case Ok(b) => EncodeFrom(v, j + 1, depth, acc + b)
  }

  /** The encoding succeeds exactly when the vectors fit under the depth limit. */
  lemma {:induction false} EncodingOkIffShallow(v: Value, depth: nat)
    requires depth <= MaxRecursionDepth
    ensures Encoding(v, depth).Ok? <==> depth + Nesting(v) <= MaxRecursionDepth
    decreases v
  {
    if v.Vector? {
      if depth < MaxRecursionDepth {
        EncodeFromOkIffShallow(v, 0, depth, [TagVector] + ToLE(U32Cast(|v.elems|), 4));
      }
    }
  }

  lemma {:induction false} EncodeFromOkIffShallow(v: Value, j: nat, depth: nat, acc: seq<u8>)
    requires v.Vector? && j <= |v.elems| && depth < MaxRecursionDepth
    ensures EncodeFrom(v, j, depth, acc).Ok? <==> depth + 1 + NestingFrom(v, j) <= MaxRecursionDepth
    decreases v, |v.elems| - j
  {
    if j < |v.elems| {
      EncodingOkIffShallow(v.elems[j], depth + 1);
      match Encoding(v.elems[j], depth + 1)
      case Err(_) =>
      case Ok(b) => EncodeFromOkIffShallow(v, j + 1, depth, acc + b);
    }
  }

  /** A successful encoding keeps what was accumulated as its prefix. */
  lemma {:induction false} EncodeFromExtends(v: Value, j: nat, depth: nat, acc: seq<u8>)
    requires v.Vector? && j <= |v.elems|
    requires EncodeFrom(v, j, depth, acc).Ok?
    ensures |EncodeFrom(v, j, depth, acc).value| >= |acc|
    ensures EncodeFrom(v, j, depth, acc).value[..|acc|] == acc
    decreases |v.elems| - j
  {
    if j < |v.elems| {
      var b := Encoding(v.elems[j], depth + 1).value;
      EncodeFromExtends(v, j + 1, depth, acc + b);
      assert (acc + b)[..|acc|] == acc;
    }
  }

  /** Parts after the accumulator do not depend on the accumulator. */
  lemma {:induction false} EncodeFromShift(v: Value, j: nat, depth: nat, acc: seq<u8>, more: seq<u8>)
    requires v.Vector? && j <= |v.elems|
    ensures EncodeFrom(v, j, depth, more + acc).Ok? == EncodeFrom(v, j, depth, acc).Ok?
    ensures EncodeFrom(v, j, depth, acc).Ok? ==>
      EncodeFrom(v, j, depth, more + acc).value == more + EncodeFrom(v, j, depth, acc).value
    decreases |v.elems| - j
  {
    if j < |v.elems| {
      match Encoding(v.elems[j], depth + 1)
      case Err(_) =>
      case Ok(b) =>
        assert (more + acc) + b == more + (acc + b);
        EncodeFromShift(v, j + 1, depth, acc + b, more);
    }
  }

  // ----- Decoding -----

  /** read_string_from_istream. */
  function ReadString(c: Cursor): (res: (Cursor, Result<seq<u8>, string>))
    requires c.Valid()
    ensures res.0.Valid() && res.0.data == c.data && res.0.pos >= c.pos
  {
    var (c1, size) := ReadFromIstream(c, 4);
    if size.None? then (c1, Err("unable to read string size"))
    else if size.value <= c1.Remaining() then
      (Cursor(c1.data, c1.pos + size.value, true), Ok(c1.data[c1.pos..c1.pos + size.value]))
    else
      // each character is read on its own; the first one past the end fails
      (Cursor(c1.data, |c1.data|, false),
       Err("unable to read char in string at index " + Decimal(c1.Remaining())))
  }

  function Budget(depth: nat): nat
  {
    if depth < MaxRecursionDepth then MaxRecursionDepth - depth else 0
  }

  /** read_value_from_istream at the given recursion depth: the tag, then its payload. */
  function ReadValue(c: Cursor, depth: nat): (res: (Cursor, Result<Value, string>))
    requires c.Valid()
    ensures res.0.Valid() && res.0.data == c.data && res.0.pos >= c.pos
    decreases Budget(depth), 2, 0
  {
    var (c1, tag) := ReadFromIstream(c, 1);
    if tag.None? then (c1, Err("unable to read magic byte"))
    else ReadPayload(c1, tag.value, depth)
  }

  /** The part of read_value_from_istream after the tag byte t. */
  function ReadPayload(c1: Cursor, t: nat, depth: nat): (res: (Cursor, Result<Value, string>))
    requires c1.Valid()
    ensures res.0.Valid() && res.0.data == c1.data && res.0.pos >= c1.pos
    decreases Budget(depth), 1, 0
  {
    if t == TagString as nat then
      var (c2, s) := ReadString(c1);
      (c2, if s.Err? then Err(s.error) else Ok(Str(s.value)))
    else if t == TagFloat as nat then
      var (c2, x) := ReadFromIstream(c1, 4);
      (c2, if x.None? then Err("unable to read float value") else Ok(Float(x.value)))
    else if t == TagDouble as nat then
      var (c2, x) := ReadFromIstream(c1, 8);
      (c2, if x.None? then Err("unable to read double value") else Ok(Double(x.value)))
    else if t == TagBool as nat then
      var (c2, x) := ReadFromIstream(c1, 1);
      (c2, if x.None? then Err("unable to read bool value") else Ok(Bool(x.value != 0)))
    else if t == TagU8 as nat then
      var (c2, x) := ReadFromIstream(c1, 1);
      (c2, if x.None? then Err("unable to read u8 value") else Ok(U8(x.value)))
    else if t == TagI8 as nat then
      var (c2, x) := ReadFromIstream(c1, 1);
      (c2, if x.None? then Err("unable to read i8 value") else Ok(I8(SignedFromUnsigned(x.value, 1))))
    else if t == TagU32 as nat then
      var (c2, x) := ReadFromIstream(c1, 4);
      (c2, if x.None? then Err("unable to read u32 value") else Ok(U32(x.value)))
    else if t == TagI32 as nat then
      var (c2, x) := ReadFromIstream(c1, 4);
      (c2, if x.None? then Err("unable to read i32 value") else Ok(I32(SignedFromUnsigned(x.value, 4))))
    else if t == TagU64 as nat then
      var (c2, x) := ReadFromIstream(c1, 8);
      (c2, if x.None? then Err("unable to read u64 value") else Ok(U64(x.value)))
    else if t == TagI64 as nat then
      var (c2, x) := ReadFromIstream(c1, 8);
      (c2, if x.None? then Err("unable to read i64 value") else Ok(I64(SignedFromUnsigned(x.value, 8))))
    else if t == TagVector as nat then
      if depth >= MaxRecursionDepth then (c1, Err(DepthErrorDeserializing))
      else
        var (c2, size) := ReadFromIstream(c1, 4);
        if size.None? then (c2, Err("unable to read vector size"))
        else ReadElements(c2, size.value, 0, depth, [])
    else
      (c1, Err("invalid magic byte: " + Decimal(t)))
  }

  /**
   * The vector loop: reads elements i..count-1 at depth + 1 after the
   * elements acc, failing at the first element that cannot be read.
   */
  function ReadElements(c: Cursor, count: nat, i: nat, depth: nat, acc: seq<Value>)
    : (res: (Cursor, Result<Value, string>))
    requires c.Valid() && i <= count && depth < MaxRecursionDepth
    ensures res.0.Valid() && res.0.data == c.data && res.0.pos >= c.pos
    decreases Budget(depth), 0, count - i
  {
    if i == count then (c, Ok(Vector(acc)))
    else
      var (c1, x) := ReadValue(c, depth + 1);
      if x.Err? then (c1, Err("unable to read value in vector at index " + Decimal(i) + ": " + x.error))
      else ReadElements(c1, count, i + 1, depth, acc + [x.value])
  }

  /** InformationValue::read_from_istream: a key string followed by a value. */
  function ReadPair(c: Cursor): (res: (Cursor, Result<(seq<u8>, Value), string>))
    requires c.Valid()
    ensures res.0.Valid() && res.0.data == c.data && res.0.pos >= c.pos
  {
    var (c1, key) := ReadString(c);
    if key.Err? then (c1, Err(key.error))
    else
      var (c2, value) := ReadValue(c1, 0);
      if value.Err? then (c2, Err(value.error)) else (c2, Ok((key.value, value.value)))
  }

  // ----- Round trips -----

  /** read_string_from_istream undoes string_to_bytes. */
  lemma StringRoundTrip(c: Cursor, s: seq<u8>)
    requires c.good && |s| < U32Limit && StartsWith(c, StringBytes(s))
    ensures ReadString(c).0 == Cursor(c.data, c.pos + |StringBytes(s)|, true)
    ensures ReadString(c).1 == Ok(s)
  {
    StartsWithSplit(c, ToLE(|s|, 4), s);
    ReadFieldBack(c, |s|, 4);
  }

  /** read_from_istream undoes a key's string_to_bytes followed by a value's to_bytes. */
  lemma PairRoundTrip(c: Cursor, key: seq<u8>, v: Value)
    requires |key| < U32Limit && WellSized(v) && Encoding(v, 0).Ok?
    requires c.good && StartsWith(c, StringBytes(key) + Encoding(v, 0).value)
    ensures ReadPair(c).0 == Cursor(c.data, c.pos + |StringBytes(key)| + |Encoding(v, 0).value|, true)
    ensures ReadPair(c).1 == Ok((key, v))
  {
    StartsWithSplit(c, StringBytes(key), Encoding(v, 0).value);
    StringRoundTrip(c, key);
    ValueRoundTrip(v, 0, Cursor(c.data, c.pos + |StringBytes(key)|, true));
  }

  /** Decoding an encoded value gives it back and consumes exactly its bytes. */
  lemma {:induction false} ValueRoundTrip(v: Value, depth: nat, c: Cursor)
    requires WellSized(v) && Encoding(v, depth).Ok?
    requires c.good && StartsWith(c, Encoding(v, depth).value)
    ensures ReadValue(c, depth).0 == Cursor(c.data, c.pos + |Encoding(v, depth).value|, true)
    ensures ReadValue(c, depth).1 == Ok(v)
    decreases v
  {
    var enc := Encoding(v, depth).value;
    EncodingStartsWithTag(v, depth);
    SplitTag(c, enc);
    ReadValueAfterTag(c, enc[0], depth);
    var c1 := Cursor(c.data, c.pos + 1, true);
    if v.Vector? {
      VectorRoundTrip(v, depth, c1);
    } else {
      assert enc[1..] == ScalarPayload(v);
      ScalarRoundTrip(v, depth, c1);
    }
  }

  lemma SplitTag(c: Cursor, enc: seq<u8>)
    requires |enc| >= 1 && StartsWith(c, enc)
    ensures StartsWith(c, [enc[0]])
    ensures StartsWith(Cursor(c.data, c.pos + 1, c.good), enc[1..])
  {
    assert enc == [enc[0]] + enc[1..];
    StartsWithSplit(c, [enc[0]], enc[1..]);
  }

  /** After a tag byte t that is there, the value reader goes on with that tag's payload. */
  lemma ReadValueAfterTag(c: Cursor, t: u8, depth: nat)
    requires c.good && StartsWith(c, [t])
    ensures ReadValue(c, depth) == ReadPayload(Cursor(c.data, c.pos + 1, true), t as nat, depth)
  {
    ToLEOne(t);
    ReadFieldBack(c, t as nat, 1);
  }

  /** An encoding begins with the value's tag. */
  lemma EncodingStartsWithTag(v: Value, depth: nat)
    requires Encoding(v, depth).Ok?
    ensures |Encoding(v, depth).value| >= 1 && Encoding(v, depth).value[0] == TagOf(v)
  {
    if v.Vector? {
      EncodeFromExtends(v, 0, depth, [TagVector] + ToLE(U32Cast(|v.elems|), 4));
    }
  }

  lemma ScalarRoundTrip(v: Value, depth: nat, c1: Cursor)
    requires !v.Vector? && WellSized(v)
    requires c1.good && StartsWith(c1, ScalarPayload(v))
    ensures ReadPayload(c1, TagOf(v) as nat, depth).0 == Cursor(c1.data, c1.pos + |ScalarPayload(v)|, true)
    ensures ReadPayload(c1, TagOf(v) as nat, depth).1 == Ok(v)
  {
    match v
    case Str(s) => StringRoundTrip(c1, s);
    case Float(x) => ReadFieldBack(c1, x, 4);
    case Double(x) => ReadFieldBack(c1, x, 8);
    case Bool(b) => ToLEOne(if b then 1 else 0); ReadFieldBack(c1, if b then 1 else 0, 1);
    case U8(x) => ToLEOne(x); ReadFieldBack(c1, x, 1);
    case I8(x) => ReadFieldBack(c1, UnsignedFromSigned(x, 1), 1);
    case U32(x) => ReadFieldBack(c1, x, 4);
    case I32(x) => ReadFieldBack(c1, UnsignedFromSigned(x, 4), 4);
    case U64(x) => ReadFieldBack(c1, x, 8);
    case I64(x) => ReadFieldBack(c1, UnsignedFromSigned(x, 8), 8);
  }

  lemma {:induction false} VectorRoundTrip(v: Value, depth: nat, c1: Cursor)
    requires v.Vector? && WellSized(v) && Encoding(v, depth).Ok? && |Encoding(v, depth).value| >= 1
    requires c1.good && StartsWith(c1, Encoding(v, depth).value[1..])
    ensures ReadPayload(c1, TagVector as nat, depth).0 == Cursor(c1.data, c1.pos + |Encoding(v, depth).value| - 1, true)
    ensures ReadPayload(c1, TagVector as nat, depth).1 == Ok(v)
    decreases v, 2
  {
    VectorEncodingLayout(v, depth);
    var elems := EncodeFrom(v, 0, depth, []).value;
    StartsWithSplit(c1, ToLE(|v.elems|, 4), elems);
    ReadVectorSize(c1, |v.elems|, depth);
    ElementsRoundTrip(v, 0, depth, Cursor(c1.data, c1.pos + 4, true), []);
    assert [] + v.elems[0..] == v.elems;
  }

  /** A vector encodes as its tag, its u32 size and then its elements' encodings. */
  lemma VectorEncodingLayout(v: Value, depth: nat)
    requires v.Vector? && |v.elems| < U32Limit && Encoding(v, depth).Ok?
    ensures depth < MaxRecursionDepth && EncodeFrom(v, 0, depth, []).Ok?
    ensures Encoding(v, depth).value == [TagVector] + ToLE(|v.elems|, 4) + EncodeFrom(v, 0, depth, []).value
    ensures Encoding(v, depth).value[1..] == ToLE(|v.elems|, 4) + EncodeFrom(v, 0, depth, []).value
  {
    var head := [TagVector] + ToLE(|v.elems|, 4);
    assert head + [] == head;
    EncodeFromShift(v, 0, depth, [], head);
    var enc := Encoding(v, depth).value;
    assert enc[1..] == ToLE(|v.elems|, 4) + EncodeFrom(v, 0, depth, []).value;
  }

  /** Below the depth limit, a vector payload is its u32 size followed by that many elements. */
  lemma ReadVectorSize(c1: Cursor, n: nat, depth: nat)
    requires c1.good && n < U32Limit && depth < MaxRecursionDepth && StartsWith(c1, ToLE(n, 4))
    ensures ReadPayload(c1, TagVector as nat, depth)
      == ReadElements(Cursor(c1.data, c1.pos + 4, true), n, 0, depth, [])
  {
    ReadFieldBack(c1, n, 4);
  }

  lemma {:induction false} ElementsRoundTrip(v: Value, j: nat, depth: nat, c: Cursor, done: seq<Value>)
    requires v.Vector? && j <= |v.elems| && depth < MaxRecursionDepth
    requires WellSizedFrom(v, j) && EncodeFrom(v, j, depth, []).Ok?
    requires c.good && StartsWith(c, EncodeFrom(v, j, depth, []).value)
    ensures ReadElements(c, |v.elems|, j, depth, done).0
      == Cursor(c.data, c.pos + |EncodeFrom(v, j, depth, []).value|, true)
    ensures ReadElements(c, |v.elems|, j, depth, done).1 == Ok(Vector(done + v.elems[j..]))
    decreases v, 1, |v.elems| - j
  {
    if j == |v.elems| {
      assert done + v.elems[j..] == done;
    } else {
      var x := v.elems[j];
      var b := Encoding(x, depth + 1).value;
      var rest := EncodeFrom(v, j + 1, depth, []);
      EncodeFromStep(v, j, depth);
      StartsWithSplit(c, b, rest.value);
      ValueRoundTrip(x, depth + 1, c);
      var c1 := Cursor(c.data, c.pos + |b|, true);
      ReadElementsStep(c, |v.elems|, j, depth, done, c1, x);
      ElementsRoundTrip(v, j + 1, depth, c1, done + [x]);
      SnocSlice(done, v.elems, j);

    }
  }

  lemma SnocSlice<T>(done: seq<T>, s: seq<T>, j: nat)
    requires j < |s|
    ensures (done + [s[j]]) + s[j + 1..] == done + s[j..]
  {
    assert s[j..] == [s[j]] + s[j + 1..];
  }

  /** A successfully read element is appended and the loop goes on after it. */
  lemma ReadElementsStep(c: Cursor, count: nat, i: nat, depth: nat, done: seq<Value>, c1: Cursor, x: Value)
    requires c.Valid() && i < count && depth < MaxRecursionDepth
    requires ReadValue(c, depth + 1).0 == c1 && ReadValue(c, depth + 1).1 == Ok(x)
    ensures c1.Valid()
    ensures ReadElements(c, count, i, depth, done) == ReadElements(c1, count, i + 1, depth, done + [x])
  {
  }

  /** The elements from j on encode as element j's encoding, then those after it. */
  lemma EncodeFromStep(v: Value, j: nat, depth: nat)
    requires v.Vector? && j < |v.elems| && EncodeFrom(v, j, depth, []).Ok?
    ensures Encoding(v.elems[j], depth + 1).Ok? && WellSizedFrom(v, j) ==> WellSized(v.elems[j]) && WellSizedFrom(v, j + 1)
    ensures Encoding(v.elems[j], depth + 1).Ok? && EncodeFrom(v, j + 1, depth, []).Ok?
    ensures EncodeFrom(v, j, depth, []).value
      == Encoding(v.elems[j], depth + 1).value + EncodeFrom(v, j + 1, depth, []).value
  {
    var b := Encoding(v.elems[j], depth + 1).value;
    assert [] + b == b + [];
    EncodeFromShift(v, j + 1, depth, [], b);
  }

  /** A bool is one byte and decodes as "byte is not zero". */
  lemma BoolDecoding(c: Cursor, b: u8)
    requires c.good && StartsWith(c, [TagBool, b])
    ensures ReadValue(c, 0).1 == Ok(Bool(b != 0))
  {
    StartsWithSplit(c, [TagBool], [b]);
    ReadValueAfterTag(c, TagBool, 0);
    var c1 := Cursor(c.data, c.pos + 1, true);
    ToLEOne(b);
    ReadFieldBack(c1, b as nat, 1);
    assert ReadPayload(c1, TagBool as nat, 0).1 == Ok(Bool(b != 0));
  }

  /** A tag byte past Vector is rejected. */
  lemma UnknownTagRejected(c: Cursor, t: u8, depth: nat)
    requires c.good && StartsWith(c, [t]) && t > TagVector
    ensures ReadValue(c, depth).1 == Err("invalid magic byte: " + Decimal(t))
  {
    ReadFieldBack(c, t, 1);
  }

  /** A vector tag at the depth limit is rejected before anything else is read. */
  lemma DeepVectorRejected(c: Cursor, depth: nat)
    requires c.good && StartsWith(c, [TagVector]) && depth >= MaxRecursionDepth
    ensures ReadValue(c, depth).1 == Err(DepthErrorDeserializing)
  {
    ReadFieldBack(c, TagVector as nat, 1);
  }

  // ----- The imperative serializer and reader -----

  /** string_to_bytes: the length, then each character appended one at a time. */
  method StringToBytes(s: seq<u8>) returns (bytes: seq<u8>)
    ensures bytes == StringBytes(s)
  {
    bytes := AppendValue([], U32Cast(|s|), 4);
    var i := 0;
    while i < |s|
      invariant i <= |s|
      invariant bytes == ToLE(U32Cast(|s|), 4) + s[..i]
    {
      bytes := AppendValue(bytes, s[i], 1);
      assert ToLE(s[i], 1) == [s[i]];
      assert s[..i + 1] == s[..i] + [s[i]];
      i := i + 1;
    }
    assert s[..i] == s;
  }

  /** InformationValue::to_bytes. */
  method ToBytes(v: Value, depth: nat) returns (r: Result<seq<u8>, string>)
    ensures r == Encoding(v, depth)
    decreases v
  {
    var bytes: seq<u8> := AppendValue([], TagOf(v), 1);
    ToLEOne(TagOf(v));
    assert bytes == [TagOf(v)];
    match v {
      case Str(chars) =>
        var payload := StringToBytes(chars);
        bytes := bytes + payload;
      case Float(x) => bytes := AppendValue(bytes, x, 4);
      case Double(x) => bytes := AppendValue(bytes, x, 8);
      case Bool(b) =>
        bytes := AppendValue(bytes, if b then 1 else 0, 1);
        ToLEOne(if b then 1 else 0);
      case U8(x) =>
        bytes := AppendValue(bytes, x, 1);
        ToLEOne(x);
      case I8(x) => bytes := AppendValue(bytes, UnsignedFromSigned(x, 1), 1);
      case U32(x) => bytes := AppendValue(bytes, x, 4);
      case I32(x) => bytes := AppendValue(bytes, UnsignedFromSigned(x, 4), 4);
      case U64(x) => bytes := AppendValue(bytes, x, 8);
      case I64(x) => bytes := AppendValue(bytes, UnsignedFromSigned(x, 8), 8);
      case Vector(elems) =>
        if depth >= MaxRecursionDepth {
          return Err(DepthErrorSerializing);
        }
        bytes := AppendValue(bytes, U32Cast(|elems|), 4);
        assert bytes == [TagVector] + ToLE(U32Cast(|elems|), 4);
        var i := 0;
        while i < |elems|
          invariant i <= |elems|
          invariant Encoding(v, depth) == EncodeFrom(v, i, depth, bytes)
        {
          var element := ToBytes(elems[i], depth + 1);
          if element.Err? {
            return Err("Error while converting to bytes: " + element.error);
          }
          bytes := bytes + element.value;
          i := i + 1;
        }
        return Ok(bytes);
    }
    return Ok(bytes);
  }

  /** read_string_from_istream: the length, then each character read on its own. */
  method ReadStringFrom(input: InputStream) returns (r: Result<seq<u8>, string>)
    requires input.Valid()
    modifies input
    ensures input.Valid()
    ensures input.State() == ReadString(old(input.State())).0
    ensures r == ReadString(old(input.State())).1
  {
    var size := input.ReadFromIstreamValue(4);
    if size.None? {
      return Err("unable to read string size");
    }
    var start := input.State();
    var chars: seq<u8> := [];
    var i := 0;
    while i < size.value
      invariant input.Valid() && input.data == start.data && input.good
      invariant i <= size.value && i <= start.Remaining()
      invariant input.pos == start.pos + i
      invariant chars == start.data[start.pos..start.pos + i]
    {
      var ch := input.ReadFromIstreamValue(1);
      if ch.None? {
        return Err("unable to read char in string at index " + Decimal(i));
      }
      ToLEOne(ch.value);
      chars := chars + [ch.value];
      assert start.data[start.pos..start.pos + i + 1] == start.data[start.pos..start.pos + i] + [start.data[start.pos + i]];
      i := i + 1;
    }
    r := Ok(chars);
  }

  /** read_value_from_istream. */
  method ReadValueFrom(input: InputStream, depth: nat) returns (r: Result<Value, string>)
    requires input.Valid()
    modifies input
    ensures input.Valid()
    ensures input.State() == ReadValue(old(input.State()), depth).0
    ensures r == ReadValue(old(input.State()), depth).1
    decreases Budget(depth)
  {
    var tag := input.ReadFromIstreamValue(1);
    if tag.None? {
      return Err("unable to read magic byte");
    }
    var t := tag.value;
    if t == TagString as nat {
      var s := ReadStringFrom(input);
      r := if s.Err? then Err(s.error) else Ok(Str(s.value));
    } else if t == TagFloat as nat {
      var x := input.ReadFromIstreamValue(4);
      r := if x.None? then Err("unable to read float value") else Ok(Float(x.value));
    } else if t == TagDouble as nat {
      var x := input.ReadFromIstreamValue(8);
      r := if x.None? then Err("unable to read double value") else Ok(Double(x.value));
    } else if t == TagBool as nat {
      var x := input.ReadFromIstreamValue(1);
      r := if x.None? then Err("unable to read bool value") else Ok(Bool(x.value != 0));
    } else if t == TagU8 as nat {
      var x := input.ReadFromIstreamValue(1);
      r := if x.None? then Err("unable to read u8 value") else Ok(U8(x.value));
    } else if t == TagI8 as nat {
      var x := input.ReadFromIstreamValue(1);
      r := if x.None? then Err("unable to read i8 value") else Ok(I8(SignedFromUnsigned(x.value, 1)));
    } else if t == TagU32 as nat {
      var x := input.ReadFromIstreamValue(4);
      r := if x.None? then Err("unable to read u32 value") else Ok(U32(x.value));
    } else if t == TagI32 as nat {
      var x := input.ReadFromIstreamValue(4);
      r := if x.None? then Err("unable to read i32 value") else Ok(I32(SignedFromUnsigned(x.value, 4)));
    } else if t == TagU64 as nat {
      var x := input.ReadFromIstreamValue(8);
      r := if x.None? then Err("unable to read u64 value") else Ok(U64(x.value));
    } else if t == TagI64 as nat {
      var x := input.ReadFromIstreamValue(8);
      r := if x.None? then Err("unable to read i64 value") else Ok(I64(SignedFromUnsigned(x.value, 8)));
    } else if t == TagVector as nat {
      if depth >= MaxRecursionDepth {
        return Err(DepthErrorDeserializing);
      }
      var size := input.ReadFromIstreamValue(4);
      if size.None? {
        return Err("unable to read vector size");
      }
      r := ReadElementsFrom(input, size.value, depth);
    } else {
      r := Err("invalid magic byte: " + Decimal(t));
    }
  }

  /** The vector loop of read_value_from_istream. */
  method ReadElementsFrom(input: InputStream, count: nat, depth: nat) returns (r: Result<Value, string>)
    requires input.Valid() && depth < MaxRecursionDepth
    modifies input
    ensures input.Valid()
    ensures input.State() == ReadElements(old(input.State()), count, 0, depth, []).0
    ensures r == ReadElements(old(input.State()), count, 0, depth, []).1
    decreases Budget(depth), 0
  {
    var result: seq<Value> := [];
    var i := 0;
    while i < count
      invariant input.Valid() && i <= count
      invariant ReadElements(old(input.State()), count, 0, depth, []) == ReadElements(input.State(), count, i, depth, result)
    {
      var element := ReadValueFrom(input, depth + 1);
      if element.Err? {
        return Err("unable to read value in vector at index " + Decimal(i) + ": " + element.error);
      }
      result := result + [element.value];
      i := i + 1;
    }
    r := Ok(Vector(result));
  }

  /** InformationValue::read_from_istream. */
  method ReadPairFrom(input: InputStream) returns (r: Result<(seq<u8>, Value), string>)
    requires input.Valid()
    modifies input
    ensures input.Valid()
    ensures input.State() == ReadPair(old(input.State())).0
    ensures r == ReadPair(old(input.State())).1
  {
    var key := ReadStringFrom(input);
    if key.Err? {
      return Err(key.error);
    }
    var value := ReadValueFrom(input, 0);
    if value.Err? {
      return Err(value.error);
    }
    r := Ok((key.value, value.value));
  }
}
