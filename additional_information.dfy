// recorder::AdditionalInformation of src/recordings/additional_information.cpp:
// string keys mapped to information values. Its byte form is a magic word,
// the number of pairs, each pair (key string, value) in the map's iteration
// order, and a SHA-256 checksum over the pair count and the pairs in ascending
// key order. The hash function is a parameter, and so is the iteration order of
// the unordered map (any list of its keys without repetition); the checksum
// does not depend on that order.

module AdditionalInformations {
  import opened Bytes
  import opened Wrappers
  import opened StreamIO
  import opened InformationValues
  import opened KeyOrder
  import opened Collections

  const MagicStartByte: u32 := 0xABCDEF01
  const ChecksumSize: nat := 32

  /** A SHA-256 checksum: 32 bytes. */
  type Digest = s: seq<u8> | |s| == 32 witness seq(32, i => 0)

  type Info = map<seq<u8>, Value>

  /** Every key listed is in the map. */
  predicate KeysIn(keys: seq<seq<u8>>, m: Info)
  {
    forall j :: 0 <= j < |keys| ==> keys[j] in m
  }

  /** order lists every key of m exactly once: a possible iteration order of the map. */
  predicate IsEnumeration(order: seq<seq<u8>>, m: Info)
  {
    Distinct(order) && KeysIn(order, m) && Elems(order) == m.Keys
  }

  /** What the serialized form can represent exactly: u32 counts and lengths. */
  predicate Storable(m: Info)
  {
    |m| < U32Limit && forall k :: k in m ==> |k| < U32Limit && WellSized(m[k])
  }

  /** A key as the characters of an error message. */
  function Chars(b: seq<u8>): (r: string)
    ensures |r| == |b|
  {
    seq(|b|, i requires 0 <= i < |b| => b[i] as char)
  }

  /** Adding a new key at the end of an enumeration enumerates the extended map. */
  lemma EnumerationInsert(keys: seq<seq<u8>>, m: Info, k: seq<u8>, v: Value)
    requires IsEnumeration(keys, m) && k !in m
    ensures IsEnumeration(keys + [k], m[k := v])
  {
    var keys' := keys + [k];
    assert Elems(keys') == Elems(keys) + {k};
    assert Distinct(keys') by {
      forall i, j | 0 <= i < j < |keys'|
        ensures keys'[i] != keys'[j]
      {
        if j == |keys| {
          assert keys'[i] in Elems(keys);
        }
      }
    }
  }

  lemma SortKeysIn(keys: seq<seq<u8>>, m: Info)
    requires KeysIn(keys, m)
    ensures KeysIn(SortKeys(keys), m)
  {
    var s := SortKeys(keys);
    forall j | 0 <= j < |s|
      ensures s[j] in m
    {
      assert s[j] in multiset(keys);
    }
  }

  // ----- Serializing -----

  /**
   * The pairs keys[i..] appended to acc: each key's string_to_bytes, then its
   * value's to_bytes. Fails with the error of the first value that cannot be
   * encoded.
   */
  function PairsFrom(m: Info, keys: seq<seq<u8>>, i: nat, acc: seq<u8>): Result<seq<u8>, string>
    requires i <= |keys| && KeysIn(keys, m)
    decreases |keys| - i
  {
    if i == |keys| then Ok(acc)
    else
      var e := Encoding(m[keys[i]], 0);
      if e.Err? then Err(e.error)
      else PairsFrom(m, keys, i + 1, acc + StringBytes(keys[i]) + e.value)
  }

  /** The bytes get_checksum feeds the hash: the u32 pair count, then the pairs by ascending key. */
  function ChecksumInput(m: Info, order: seq<seq<u8>>): Result<seq<u8>, string>
    requires KeysIn(order, m)
  {
    SortKeysIn(order, m);
    PairsFrom(m, SortKeys(order), 0, ToLE(U32Cast(|m|), 4))
  }

  /** get_checksum. */
  function Checksum(hash: seq<u8> -> Digest, m: Info, order: seq<seq<u8>>): Result<Digest, string>
    requires KeysIn(order, m)
  {
    var input := ChecksumInput(m, order);
    if input.Err? then Err(input.error) else Ok(hash(input.value))
  }

  /** The magic word and the u32 pair count that open the byte form. */
  function Header(m: Info): seq<u8>
  {
    ToLE(MagicStartByte, 4) + ToLE(U32Cast(|m|), 4)
  }

  /** to_bytes, with the pairs in the iteration order given. */
  function Serialize(hash: seq<u8> -> Digest, m: Info, order: seq<seq<u8>>): Result<seq<u8>, string>
    requires KeysIn(order, m)
  {
    var pairs := PairsFrom(m, order, 0, Header(m));
    if pairs.Err? then Err("Error while getting bytes for value: " + pairs.error)
    else
      var checksum := Checksum(hash, m, order);
      if checksum.Err? then Err("Error while getting checksum: " + checksum.error)
      else Ok(pairs.value + checksum.value)
  }

  /** The checksum is the same whichever order the map is iterated in. */
  lemma ChecksumOrderIndependent(hash: seq<u8> -> Digest, m: Info, a: seq<seq<u8>>, b: seq<seq<u8>>)
    requires IsEnumeration(a, m) && IsEnumeration(b, m)
    ensures Checksum(hash, m, a) == Checksum(hash, m, b)
  {
    SortKeysOrderIndependent(a, b);
  }

  /** Serializing succeeds exactly when every value fits under the vector depth limit. */
  lemma {:induction false} PairsFromOkIffShallow(m: Info, keys: seq<seq<u8>>, i: nat, acc: seq<u8>)
    requires i <= |keys| && KeysIn(keys, m)
    ensures PairsFrom(m, keys, i, acc).Ok? <==>
      forall j :: i <= j < |keys| ==> Nesting(m[keys[j]]) <= MaxRecursionDepth
    decreases |keys| - i
  {
    if i < |keys| {
      var e := Encoding(m[keys[i]], 0);
      EncodingOkIffShallow(m[keys[i]], 0);
      if e.Ok? {
        var next := acc + StringBytes(keys[i]) + e.value;
        assert PairsFrom(m, keys, i, acc) == PairsFrom(m, keys, i + 1, next);
        PairsFromOkIffShallow(m, keys, i + 1, next);
        assert (forall j :: i <= j < |keys| ==> Nesting(m[keys[j]]) <= MaxRecursionDepth)
          <==> (forall j :: i + 1 <= j < |keys| ==> Nesting(m[keys[j]]) <= MaxRecursionDepth);
      } else {
        assert PairsFrom(m, keys, i, acc).Err?;
        assert !(Nesting(m[keys[i]]) <= MaxRecursionDepth);
      }
    }
  }

  lemma SerializeOkIffShallow(hash: seq<u8> -> Digest, m: Info, order: seq<seq<u8>>)
    requires IsEnumeration(order, m)
    ensures Serialize(hash, m, order).Ok? <==> forall k :: k in m ==> Nesting(m[k]) <= MaxRecursionDepth
  {
    SortKeysIn(order, m);
    PairsFromOkIffShallow(m, order, 0, Header(m));
    PairsFromOkIffShallow(m, SortKeys(order), 0, ToLE(U32Cast(|m|), 4));
    assert forall k :: k in m ==> k in Elems(order);
    assert forall k :: k in m ==> k in multiset(SortKeys(order));
  }

  /** The later pairs do not depend on what was accumulated before them. */
  lemma {:induction false} PairsFromShift(m: Info, keys: seq<seq<u8>>, i: nat, acc: seq<u8>, more: seq<u8>)
    requires i <= |keys| && KeysIn(keys, m)
    ensures PairsFrom(m, keys, i, more + acc).Ok? == PairsFrom(m, keys, i, acc).Ok?
    ensures PairsFrom(m, keys, i, acc).Ok? ==>
      PairsFrom(m, keys, i, more + acc).value == more + PairsFrom(m, keys, i, acc).value
    decreases |keys| - i
  {
    if i < |keys| {
      var e := Encoding(m[keys[i]], 0);
      if e.Ok? {
        assert more + acc + StringBytes(keys[i]) + e.value == more + (acc + StringBytes(keys[i]) + e.value);
        PairsFromShift(m, keys, i + 1, acc + StringBytes(keys[i]) + e.value, more);
      }
    }
  }

  /** The pairs from i on are pair i, then the pairs after it. */
  lemma PairsFromStep(m: Info, keys: seq<seq<u8>>, i: nat)
    requires i < |keys| && KeysIn(keys, m) && PairsFrom(m, keys, i, []).Ok?
    ensures Encoding(m[keys[i]], 0).Ok? && PairsFrom(m, keys, i + 1, []).Ok?
    ensures PairsFrom(m, keys, i, []).value
      == StringBytes(keys[i]) + Encoding(m[keys[i]], 0).value + PairsFrom(m, keys, i + 1, []).value
  {
    var b := StringBytes(keys[i]) + Encoding(m[keys[i]], 0).value;
    assert [] + StringBytes(keys[i]) + Encoding(m[keys[i]], 0).value == b + [];
    PairsFromShift(m, keys, i + 1, [], b);
  }

  // ----- Reading -----

  /**
   * The from_istream loop from pair i of n on, into m, whose keys so far are keys;
   * fails on the first pair that cannot be read or whose key is already there.
   */
  function ReadPairs(c: Cursor, n: nat, i: nat, m: Info, keys: seq<seq<u8>>)
    : (res: (Cursor, Result<(Info, seq<seq<u8>>), string>))
    requires c.Valid() && i <= n
    ensures res.0.Valid() && res.0.data == c.data && res.0.pos >= c.pos
    decreases n - i
  {
    if i == n then (c, Ok((m, keys)))
    else
      var r := ReadPair(c);
      if r.1.Err? then (r.0, Err("failed to read value from AdditionalInformation: " + r.1.error))
      else if r.1.value.0 in m then
        (r.0, Err("AdditionalInformation already contains key '" + Chars(r.1.value.0) + "'"))
      else ReadPairs(r.0, n, i + 1, m[r.1.value.0 := r.1.value.1], keys + [r.1.value.0])
  }

  /** from_istream: the magic word, the pair count, then the pairs and the checksum. */
  function ReadInfo(c: Cursor, hash: seq<u8> -> Digest): (res: (Cursor, Result<Info, string>))
    requires c.Valid()
    ensures res.0.Valid() && res.0.data == c.data && res.0.pos >= c.pos
  {
    var magic := ReadFromIstream(c, 4);
    if magic.1.None? then (magic.0, Err("unable to read magic file bytes from recorded game"))
    else if magic.1.value != MagicStartByte as nat then
      (magic.0, Err("magic start bytes are not correct, the data is probably corrupted"))
    else
      var count := ReadFromIstream(magic.0, 4);
      if count.1.None? then (count.0, Err("unable to read number of pairs"))
      else ReadBody(count.0, count.1.value, hash)
  }

  /** The part of from_istream after the pair count n. */
  function ReadBody(c: Cursor, n: nat, hash: seq<u8> -> Digest): (res: (Cursor, Result<Info, string>))
    requires c.Valid()
    ensures res.0.Valid() && res.0.data == c.data && res.0.pos >= c.pos
  {
    var pairs := ReadPairs(c, n, 0, map[], []);
    if pairs.1.Err? then (pairs.0, Err(pairs.1.error))
    else
      ReadPairsEnumerates(c, n, 0, map[], []);
      ReadChecksum(pairs.0, hash, pairs.1.value.0, pairs.1.value.1)
  }

  const ChecksumUncomputable := "unable to calculate the checksum from AdditionalInformation"
  const ChecksumUnreadable := "unable to read the checksum from AdditionalInformation"

  /** The error for a stored checksum that differs from the calculated one. */
  function MismatchMessage(calculated: Digest, stored: seq<nat>): string
  {
    "value checksum mismatch, the AdditionalInformation was altered: expected "
      + HexJoin(calculated) + " but got " + HexJoin(stored)
  }

  /** The end of from_istream: the checksum of the pairs read, compared with the stored one. */
  function ReadChecksum(c: Cursor, hash: seq<u8> -> Digest, m: Info, keys: seq<seq<u8>>)
    : (res: (Cursor, Result<Info, string>))
    requires c.Valid() && KeysIn(keys, m)
    ensures res.0.Valid() && res.0.data == c.data && res.0.pos >= c.pos
  {
    var calculated := Checksum(hash, m, keys);
    if calculated.Err? then (c, Err(ChecksumUncomputable))
    else
      var stored := ReadFields(c, ChecksumSize, 1);
      if stored.1.None? then (stored.0, Err(ChecksumUnreadable))
      else if stored.1.value != calculated.value then
        (stored.0, Err(MismatchMessage(calculated.value, stored.1.value)))
      else (stored.0, Ok(m))
  }

  /** A pair with a new key is added and the loop goes on after it. */
  lemma ReadPairsStep(c: Cursor, n: nat, i: nat, m: Info, keys: seq<seq<u8>>, c1: Cursor, k: seq<u8>, v: Value)
    requires c.Valid() && i < n && k !in m
    requires ReadPair(c).0 == c1 && ReadPair(c).1.Ok? && ReadPair(c).1.value.0 == k && ReadPair(c).1.value.1 == v
    ensures c1.Valid()
    ensures ReadPairs(c, n, i, m, keys) == ReadPairs(c1, n, i + 1, m[k := v], keys + [k])
  {
  }



  /** The keys read list the map read, each once. */
  lemma {:induction false} ReadPairsEnumerates(c: Cursor, n: nat, i: nat, m: Info, keys: seq<seq<u8>>)
    requires c.Valid() && i <= n && IsEnumeration(keys, m)
    ensures ReadPairs(c, n, i, m, keys).1.Ok? ==>
      IsEnumeration(ReadPairs(c, n, i, m, keys).1.value.1, ReadPairs(c, n, i, m, keys).1.value.0)
    decreases n - i
  {
    if i < n {
      var r := ReadPair(c);
      if r.1.Ok? && r.1.value.0 !in m {
        EnumerationInsert(keys, m, r.1.value.0, r.1.value.1);
        ReadPairsEnumerates(r.0, n, i + 1, m[r.1.value.0 := r.1.value.1], keys + [r.1.value.0]);
      }
    }
  }

  /** A first u32 other than the magic word is rejected before anything else is read. */
  lemma WrongMagicRejected(c: Cursor, hash: seq<u8> -> Digest, w: nat)
    requires c.good && w < U32Limit && w != MagicStartByte as nat && StartsWith(c, ToLE(w, 4))
    ensures ReadInfo(c, hash).1 == Err("magic start bytes are not correct, the data is probably corrupted")
  {
    Pow256Widths();
    ReadFieldBack(c, w, 4);
  }

  /** A pair whose key was read before ends the loop with the duplicate-key error. */
  lemma RepeatedKeyRejected(c: Cursor, n: nat, i: nat, m: Info, keys: seq<seq<u8>>, k: seq<u8>, v: Value)
    requires i < n && k in m && |k| < U32Limit && WellSized(v) && Encoding(v, 0).Ok?
    requires c.good && StartsWith(c, StringBytes(k) + Encoding(v, 0).value)
    ensures ReadPairs(c, n, i, m, keys).1 == Err("AdditionalInformation already contains key '" + Chars(k) + "'")
  {
    PairRoundTrip(c, k, v);
  }

  /** The first two pairs sharing a key end the pair loop with the duplicate-key error. */
  lemma DuplicatePairsRejected(c: Cursor, n: nat, k: seq<u8>, v: Value, w: Value)
    requires 2 <= n && |k| < U32Limit && WellSized(v) && WellSized(w)
    requires Encoding(v, 0).Ok? && Encoding(w, 0).Ok?
    requires c.good && StartsWith(c, (StringBytes(k) + Encoding(v, 0).value) + (StringBytes(k) + Encoding(w, 0).value))
    ensures ReadPairs(c, n, 0, map[], []).1 == Err("AdditionalInformation already contains key '" + Chars(k) + "'")
  {
    var first := StringBytes(k) + Encoding(v, 0).value;
    StartsWithSplit(c, first, StringBytes(k) + Encoding(w, 0).value);
    PairRoundTrip(c, k, v);
    var c1 := ReadPair(c).0;
    assert c1 == Cursor(c.data, c.pos + |first|, c.good);
    var m: Info := map[];
    var keys: seq<seq<u8>> := [];
    ReadPairsStep(c, n, 0, m, keys, c1, k, v);
    RepeatedKeyRejected(c1, n, 1, m[k := v], keys + [k], k, w);
  }

  /** Two pairs with the same key at the start of the pairs make from_istream fail. */
  lemma DuplicateKeyRejected(c: Cursor, hash: seq<u8> -> Digest, n: nat, k: seq<u8>, v: Value, w: Value)
    requires 2 <= n < U32Limit && |k| < U32Limit && WellSized(v) && WellSized(w)
    requires Encoding(v, 0).Ok? && Encoding(w, 0).Ok?
    requires c.good
    requires StartsWith(c, ToLE(MagicStartByte, 4) + ToLE(n, 4)
      + ((StringBytes(k) + Encoding(v, 0).value) + (StringBytes(k) + Encoding(w, 0).value)))
    ensures ReadInfo(c, hash).1 == Err("AdditionalInformation already contains key '" + Chars(k) + "'")
  {
    var pairs := (StringBytes(k) + Encoding(v, 0).value) + (StringBytes(k) + Encoding(w, 0).value);
    StartsWithSplit(c, ToLE(MagicStartByte, 4) + ToLE(n, 4), pairs);
    HeaderBack(c, n, hash);
    DuplicatePairsRejected(Cursor(c.data, c.pos + 8, true), n, k, v, w);
  }

  // ----- Round trip -----

  /** The map restricted to the keys order[..i]: what the reader has after i pairs. */
  function Prefix(m: Info, order: seq<seq<u8>>, i: nat): Info
    requires i <= |order|
  {
    map k | k in m && k in order[..i] :: m[k]
  }

  lemma PrefixStep(m: Info, order: seq<seq<u8>>, i: nat)
    requires i < |order| && order[i] in m && Distinct(order)
    ensures order[i] !in Prefix(m, order, i)
    ensures Prefix(m, order, i + 1) == Prefix(m, order, i)[order[i] := m[order[i]]]
    ensures order[..i] + [order[i]] == order[..i + 1]
  {
    assert order[..i + 1] == order[..i] + [order[i]];
    forall j | 0 <= j < i
      ensures order[..i][j] != order[i]
    {
      assert order[..i][j] == order[j];
    }
  }

  lemma PrefixEnds(m: Info, order: seq<seq<u8>>)
    requires IsEnumeration(order, m)
    ensures Prefix(m, order, 0) == map[] && order[..0] == []
    ensures Prefix(m, order, |order|) == m
  {
    assert order[..|order|] == order;
    assert forall k :: k in order <==> k in Elems(order);
  }

  /** Reading the pairs order[i..] written by PairsFrom gives them back, in order. */
  lemma {:induction false} PairsRoundTrip(m: Info, order: seq<seq<u8>>, i: nat, c: Cursor)
    requires KeysIn(order, m) && Distinct(order) && i <= |order| && Storable(m)
    requires PairsFrom(m, order, i, []).Ok?
    requires c.good && StartsWith(c, PairsFrom(m, order, i, []).value)
    ensures ReadPairs(c, |order|, i, Prefix(m, order, i), order[..i]).0
      == Cursor(c.data, c.pos + |PairsFrom(m, order, i, []).value|, true)
    ensures ReadPairs(c, |order|, i, Prefix(m, order, i), order[..i]).1.Ok?
    ensures ReadPairs(c, |order|, i, Prefix(m, order, i), order[..i]).1.value.0 == Prefix(m, order, |order|)
    ensures ReadPairs(c, |order|, i, Prefix(m, order, i), order[..i]).1.value.1 == order
    decreases |order| - i
  {
    if i == |order| {
      assert order[..i] == order;
    } else {
      var c1 := PairBack(m, order, i, c);
      PairsRoundTrip(m, order, i + 1, c1);
    }
  }

  /** Pair i read back: the cursor moves over it and the reader's map gains it. */
  lemma PairBack(m: Info, order: seq<seq<u8>>, i: nat, c: Cursor) returns (c1: Cursor)
    requires KeysIn(order, m) && Distinct(order) && i < |order| && Storable(m)
    requires PairsFrom(m, order, i, []).Ok?
    requires c.good && StartsWith(c, PairsFrom(m, order, i, []).value)
    ensures PairsFrom(m, order, i + 1, []).Ok?
    ensures c1.good && StartsWith(c1, PairsFrom(m, order, i + 1, []).value)
    ensures c1.data == c.data
    ensures c1.pos + |PairsFrom(m, order, i + 1, []).value| == c.pos + |PairsFrom(m, order, i, []).value|
    ensures ReadPairs(c, |order|, i, Prefix(m, order, i), order[..i])
      == ReadPairs(c1, |order|, i + 1, Prefix(m, order, i + 1), order[..i + 1])
  {
    var k := order[i];
    PairsFromStep(m, order, i);
    var pair := StringBytes(k) + Encoding(m[k], 0).value;
    StartsWithSplit(c, pair, PairsFrom(m, order, i + 1, []).value);
    PairRoundTrip(c, k, m[k]);
    PrefixStep(m, order, i);
    c1 := Cursor(c.data, c.pos + |pair|, true);
    ReadPairsStep(c, |order|, i, Prefix(m, order, i), order[..i], c1, k, m[k]);
  }

  /** A successful to_bytes is the header, the pairs and the checksum. */
  lemma SerializeLayout(hash: seq<u8> -> Digest, m: Info, order: seq<seq<u8>>)
    requires KeysIn(order, m) && Serialize(hash, m, order).Ok?
    ensures PairsFrom(m, order, 0, []).Ok? && Checksum(hash, m, order).Ok?
    ensures Serialize(hash, m, order).value
      == Header(m) + (PairsFrom(m, order, 0, []).value + Checksum(hash, m, order).value)
  {
    PairsFromShift(m, order, 0, [], Header(m));
    assert Header(m) + [] == Header(m);
    ConcatAssociative(Header(m), PairsFrom(m, order, 0, []).value, Checksum(hash, m, order).value);
  }

  lemma ConcatAssociative<T>(a: seq<T>, b: seq<T>, c: seq<T>)
    ensures (a + b) + c == a + (b + c)
  {
  }

  /** With the magic word and a count n there, from_istream goes on with n pairs. */
  lemma HeaderBack(c: Cursor, n: nat, hash: seq<u8> -> Digest)
    requires c.good && n < U32Limit && StartsWith(c, ToLE(MagicStartByte, 4) + ToLE(n, 4))
    ensures ReadInfo(c, hash) == ReadBody(Cursor(c.data, c.pos + 8, true), n, hash)
  {
    StartsWithSplit(c, ToLE(MagicStartByte, 4), ToLE(n, 4));
    ReadFieldBack(c, MagicStartByte, 4);
    ReadFieldBack(Cursor(c.data, c.pos + 4, true), n, 4);
  }

  /** from_istream undoes to_bytes: it gives back the map and consumes exactly its bytes. */
  lemma InfoRoundTrip(hash: seq<u8> -> Digest, m: Info, order: seq<seq<u8>>, c: Cursor)
    requires IsEnumeration(order, m) && Storable(m)
    requires Serialize(hash, m, order).Ok?
    requires c.good && StartsWith(c, Serialize(hash, m, order).value)
    ensures ReadInfo(c, hash).0 == Cursor(c.data, c.pos + |Serialize(hash, m, order).value|, true)
    ensures ReadInfo(c, hash).1 == Ok(m)
  {
    SerializeLayout(hash, m, order);
    HeaderThenBody(hash, m, order, c);
  }

  lemma HeaderThenBody(hash: seq<u8> -> Digest, m: Info, order: seq<seq<u8>>, c: Cursor)
    requires IsEnumeration(order, m) && Storable(m)
    requires PairsFrom(m, order, 0, []).Ok? && Checksum(hash, m, order).Ok?
    requires c.good && StartsWith(c, Header(m) + (PairsFrom(m, order, 0, []).value + Checksum(hash, m, order).value))
    ensures ReadInfo(c, hash).0
      == Cursor(c.data, c.pos + |Header(m)| + |PairsFrom(m, order, 0, []).value| + ChecksumSize, true)
    ensures ReadInfo(c, hash).1 == Ok(m)
  {
    StartsWithSplit(c, Header(m), PairsFrom(m, order, 0, []).value + Checksum(hash, m, order).value);
    DistinctCard(order);
    HeaderBack(c, |order|, hash);
    BodyRoundTrip(Cursor(c.data, c.pos + 8, true), m, order, hash);
  }

  /** The pairs and the checksum read back as the map. */
  lemma BodyRoundTrip(c: Cursor, m: Info, order: seq<seq<u8>>, hash: seq<u8> -> Digest)
    requires IsEnumeration(order, m) && Storable(m) && c.good
    requires PairsFrom(m, order, 0, []).Ok? && Checksum(hash, m, order).Ok?
    requires StartsWith(c, PairsFrom(m, order, 0, []).value + Checksum(hash, m, order).value)
    ensures ReadBody(c, |order|, hash).0
      == Cursor(c.data, c.pos + |PairsFrom(m, order, 0, []).value| + ChecksumSize, true)
    ensures ReadBody(c, |order|, hash).1 == Ok(m)
  {
    StartsWithSplit(c, PairsFrom(m, order, 0, []).value, Checksum(hash, m, order).value);
    PairsRoundTrip(m, order, 0, c);
    PrefixEnds(m, order);
    BodyBack(c, m, order, hash);
  }

  /** The pairs and the checksum after the header read back as the map. */
  lemma BodyBack(c: Cursor, m: Info, order: seq<seq<u8>>, hash: seq<u8> -> Digest)
    requires IsEnumeration(order, m) && c.good
    requires PairsFrom(m, order, 0, []).Ok? && Checksum(hash, m, order).Ok?
    requires StartsWith(c, PairsFrom(m, order, 0, []).value + Checksum(hash, m, order).value)
    requires ReadPairs(c, |order|, 0, map[], []).0 == Cursor(c.data, c.pos + |PairsFrom(m, order, 0, []).value|, true)
    requires ReadPairs(c, |order|, 0, map[], []).1.Ok?
    requires ReadPairs(c, |order|, 0, map[], []).1.value.0 == m && ReadPairs(c, |order|, 0, map[], []).1.value.1 == order
    ensures ReadBody(c, |order|, hash).0
      == Cursor(c.data, c.pos + |PairsFrom(m, order, 0, []).value| + ChecksumSize, true)
    ensures ReadBody(c, |order|, hash).1 == Ok(m)
  {
    var pairs := PairsFrom(m, order, 0, []).value;
    var digest := Checksum(hash, m, order).value;
    StartsWithSplit(c, pairs, digest);
    var c3 := Cursor(c.data, c.pos + |pairs|, true);
    var r := ReadPairs(c, |order|, 0, map[], []);
    assert r.0 == c3;
    assert ReadBody(c, |order|, hash) == ReadChecksum(c3, hash, m, order);
    ChecksumBack(c3, digest);
    assert ReadChecksum(c3, hash, m, order).0 == Cursor(c.data, c3.pos + ChecksumSize, true);
  }

  /** Reading the 32 checksum bytes that are there gives them back. */
  lemma ChecksumBack(c: Cursor, digest: Digest)
    requires c.good && StartsWith(c, digest)
    ensures ReadFields(c, ChecksumSize, 1).0 == Cursor(c.data, c.pos + ChecksumSize, true)
    ensures ReadFields(c, ChecksumSize, 1).1.Some? && ReadFields(c, ChecksumSize, 1).1.value == digest
  {
    BytesBack(c, digest);
  }

  /** The information: its map, changed in place by add_value. */
  class AdditionalInformation {
    var values: Info

    constructor ()
      ensures values == map[]
    {
      values := map[];
    }

    /** The private constructor from a filled map. */
    constructor FromValues(m: Info)
      ensures values == m
    {
      values := m;
    }

    predicate Has(key: seq<u8>)
      reads this
    {
      key in values
    }

    function Get(key: seq<u8>): (r: Option<Value>)
      reads this
      ensures r.Some? <==> Has(key)
      ensures r.Some? ==> r.value == values[key]
    {
      if !Has(key) then None else Some(values[key])
    }

    /** add_value: refuses to replace an existing key unless asked to. */
    method AddValue(key: seq<u8>, value: Value, overwrite: bool) returns (r: Result<(), string>)
      modifies this
      ensures old(Has(key)) && !overwrite ==>
        r == Err("Can't overwrite already existing key") && values == old(values)
      ensures !(old(Has(key)) && !overwrite) ==> r == Ok(()) && values == old(values)[key := value]
      ensures r.Ok? ==> Get(key) == Some(value)
      ensures forall k :: k != key ==> Get(k) == old(Get(k))
    {
      if key in values && !overwrite {
        return Err("Can't overwrite already existing key");
      }
      values := values[key := value];
      r := Ok(());
    }

    /** get_checksum, iterating the map in the given order. */
    method GetChecksum(hash: seq<u8> -> Digest, order: seq<seq<u8>>) returns (r: Result<Digest, string>)
      requires IsEnumeration(order, values)
      ensures r == Checksum(hash, values, order)
    {
      var fed := AppendValue([], U32Cast(|values|), 4);
      assert fed == ToLE(U32Cast(|values|), 4);
      var keys: seq<seq<u8>> := [];
      var i := 0;
      while i < |order|
        invariant i <= |order| && keys == order[..i]
      {
        keys := keys + [order[i]];
        i := i + 1;
      }
      assert keys == order;
      keys := SortKeys(keys);
      SortKeysIn(order, values);
      assert keys == SortKeys(order);
      i := 0;
      while i < |keys|
        invariant i <= |keys|
        invariant ChecksumInput(values, order) == PairsFrom(values, keys, i, fed)
      {
        var keyBytes := StringToBytes(keys[i]);
        fed := fed + keyBytes;
        var bytes := InformationValues.ToBytes(values[keys[i]], 0);
        if bytes.Err? {
          return Err(bytes.error);
        }
        fed := fed + bytes.value;
        i := i + 1;
      }
      r := Ok(hash(fed));
    }

    /** to_bytes, iterating the map in the given order. */
    method ToBytes(hash: seq<u8> -> Digest, order: seq<seq<u8>>) returns (r: Result<seq<u8>, string>)
      requires IsEnumeration(order, values)
      ensures r == Serialize(hash, values, order)
    {
      var bytes := AppendValue([], MagicStartByte, 4);
      bytes := AppendValue(bytes, U32Cast(|values|), 4);
      assert bytes == Header(values);
      var i := 0;
      while i < |order|
        invariant i <= |order|
        invariant PairsFrom(values, order, 0, Header(values)) == PairsFrom(values, order, i, bytes)
      {
        var keyBytes := StringToBytes(order[i]);
        bytes := AppendBytes(bytes, keyBytes, 1);
        ConcatOneByte(keyBytes);
        var valueBytes := InformationValues.ToBytes(values[order[i]], 0);
        if valueBytes.Err? {
          return Err("Error while getting bytes for value: " + valueBytes.error);
        }
        bytes := AppendBytes(bytes, valueBytes.value, 1);
        ConcatOneByte(valueBytes.value);
        i := i + 1;
      }
      var checksum := GetChecksum(hash, order);
      if checksum.Err? {
        return Err("Error while getting checksum: " + checksum.error);
      }
      bytes := AppendBytes(bytes, checksum.value, 1);
      ConcatOneByte(checksum.value);
      r := Ok(bytes);
    }

    /** from_istream: a new AdditionalInformation read from the stream. */
    static method FromIstream(input: InputStream, hash: seq<u8> -> Digest) returns (r: Result<AdditionalInformation, string>)
      requires input.Valid()
      modifies input
      ensures input.Valid()
      ensures input.State() == ReadInfo(old(input.State()), hash).0
      ensures r.Ok? <==> ReadInfo(old(input.State()), hash).1.Ok?
      ensures r.Ok? ==> fresh(r.value) && r.value.values == ReadInfo(old(input.State()), hash).1.value
      ensures r.Err? ==> r.error == ReadInfo(old(input.State()), hash).1.error
    {
      var magic := input.ReadFromIstreamValue(4);
      if magic.None? {
        return Err("unable to read magic file bytes from recorded game");
      }
      if magic.value != MagicStartByte as nat {
        return Err("magic start bytes are not correct, the data is probably corrupted");
      }
      var numPairs := input.ReadFromIstreamValue(4);
      if numPairs.None? {
        return Err("unable to read number of pairs");
      }
      r := ReadBodyFrom(input, numPairs.value, hash);
    }

    /** from_istream after the pair count: the pairs, then the checksum. */
    static method ReadBodyFrom(input: InputStream, n: nat, hash: seq<u8> -> Digest) returns (r: Result<AdditionalInformation, string>)
      requires input.Valid()
      modifies input
      ensures input.Valid()
      ensures input.State() == ReadBody(old(input.State()), n, hash).0
      ensures r.Ok? <==> ReadBody(old(input.State()), n, hash).1.Ok?
      ensures r.Ok? ==> fresh(r.value) && r.value.values == ReadBody(old(input.State()), n, hash).1.value
      ensures r.Err? ==> r.error == ReadBody(old(input.State()), n, hash).1.error
    {
      ghost var start := input.State();
      var pairs := ReadPairsFrom(input, n);
      if pairs.Err? {
        return Err(pairs.error);
      }
      ReadPairsEnumerates(start, n, 0, map[], []);
      var information := new AdditionalInformation.FromValues(pairs.value.0);
      r := information.ReadStoredChecksum(input, hash, pairs.value.1);
    }

    /** The from_istream loop over the n pairs. */
    static method ReadPairsFrom(input: InputStream, n: nat) returns (r: Result<(Info, seq<seq<u8>>), string>)
      requires input.Valid()
      modifies input
      ensures input.Valid()
      ensures input.State() == ReadPairs(old(input.State()), n, 0, map[], []).0
      ensures r == ReadPairs(old(input.State()), n, 0, map[], []).1
    {
      var values: Info := map[];
      var keys: seq<seq<u8>> := [];
      var i := 0;
      while i < n
        invariant input.Valid() && i <= n
        invariant ReadPairs(old(input.State()), n, 0, map[], []) == ReadPairs(input.State(), n, i, values, keys)
      {
        var pair := ReadPairFrom(input);
        if pair.Err? {
          return Err("failed to read value from AdditionalInformation: " + pair.error);
        }
        var key := pair.value.0;
        if key in values {
          return Err("AdditionalInformation already contains key '" + Chars(key) + "'");
        }
        values := values[key := pair.value.1];
        keys := keys + [key];
        i := i + 1;
      }
      r := Ok((values, keys));
    }

    /** The end of from_istream, on the information just read. */
    method ReadStoredChecksum(input: InputStream, hash: seq<u8> -> Digest, keys: seq<seq<u8>>)
      returns (r: Result<AdditionalInformation, string>)
      requires input.Valid() && IsEnumeration(keys, values)
      modifies input
      ensures input.Valid()
      ensures input.State() == ReadChecksum(old(input.State()), hash, values, keys).0
      ensures r.Ok? <==> ReadChecksum(old(input.State()), hash, values, keys).1.Ok?
      ensures r.Ok? ==> r.value == this
      ensures r.Err? ==> r.error == ReadChecksum(old(input.State()), hash, values, keys).1.error
    {
      var calculated := GetChecksum(hash, keys);
      if calculated.Err? {
        return Err(ChecksumUncomputable);
      }
      var stored := input.ReadArrayFromIstream(ChecksumSize, 1);
      if stored.None? {
        return Err(ChecksumUnreadable);
      }
      if stored.value != calculated.value {
        return Err(MismatchMessage(calculated.value, stored.value));
      }
      r := Ok(this);
    }
  }
}
