// The ordering std::sort puts std::string keys in (operator<: byte-wise
// lexicographic, a proper prefix first) and the sorted key list that
// AdditionalInformation::get_checksum feeds to the hash.

module KeyOrder {
  import opened Bytes
  import opened Collections

  /** std::string operator< on byte strings. */
  predicate Less(a: seq<u8>, b: seq<u8>)
    decreases |a|
  {
    |b| > 0 && (|a| == 0 || a[0] < b[0] || (a[0] == b[0] && Less(a[1..], b[1..])))
  }

  lemma {:induction false} LessIrreflexive(a: seq<u8>)
    ensures !Less(a, a)
    decreases |a|
  {
    if |a| > 0 {
      LessIrreflexive(a[1..]);
    }
  }

  lemma {:induction false} LessTransitive(a: seq<u8>, b: seq<u8>, c: seq<u8>)
    requires Less(a, b) && Less(b, c)
    ensures Less(a, c)
    decreases |a|
  {
    if |a| > 0 && a[0] == b[0] && b[0] == c[0] {
      LessTransitive(a[1..], b[1..], c[1..]);
    }
  }

  /** Two different strings are always ordered one way or the other. */
  lemma {:induction false} LessTotal(a: seq<u8>, b: seq<u8>)
    requires a != b
    ensures Less(a, b) || Less(b, a)
    decreases |a|
  {
    if |a| > 0 && |b| > 0 && a[0] == b[0] {
      assert a == [a[0]] + a[1..] && b == [b[0]] + b[1..];
      LessTotal(a[1..], b[1..]);
    }
  }

  lemma LessAsymmetric(a: seq<u8>, b: seq<u8>)
    requires Less(a, b)
    ensures !Less(b, a)
  {
    if Less(b, a) {
      LessTransitive(a, b, a);
      LessIrreflexive(a);
    }
  }

  predicate StrictlySorted(s: seq<seq<u8>>)
  {
    forall i, j :: 0 <= i < j < |s| ==> Less(s[i], s[j])
  }

  /** Inserts k in front of the first element not below it. */
  function Insert(k: seq<u8>, s: seq<seq<u8>>): (r: seq<seq<u8>>)
    ensures multiset(r) == multiset(s) + multiset{k}
  {
    if |s| == 0 then [k]
    else if Less(s[0], k) then
      assert s == [s[0]] + s[1..];
      [s[0]] + Insert(k, s[1..])
    else [k] + s
  }

  /** std::sort of the key list (an insertion sort; any correct sort gives the same result on distinct keys). */
  function SortKeys(keys: seq<seq<u8>>): (r: seq<seq<u8>>)
    ensures multiset(r) == multiset(keys)
  {
    if |keys| == 0 then []
    else
      assert keys == [keys[0]] + keys[1..];
      Insert(keys[0], SortKeys(keys[1..]))
  }

  lemma {:induction false} InsertSorted(k: seq<u8>, s: seq<seq<u8>>)
    requires StrictlySorted(s) && k !in s
    ensures StrictlySorted(Insert(k, s))
  {
    if |s| > 0 {
      if Less(s[0], k) {
        InsertSorted(k, s[1..]);
        var r := Insert(k, s[1..]);
        forall j | 0 <= j < |r|
          ensures Less(s[0], r[j])
        {
          assert r[j] in multiset(r);
          if r[j] != k {
            assert r[j] in s[1..];
          }
        }
      } else {
        LessTotal(k, s[0]);
        forall j | 0 < j < |s|
          ensures Less(k, s[j])
        {
          LessTransitive(k, s[0], s[j]);
        }
      }
    }
  }

  /** The sorted list of distinct keys is strictly ascending and holds exactly those keys. */
  lemma {:induction false} SortKeysSorted(keys: seq<seq<u8>>)
    requires Distinct(keys)
    ensures StrictlySorted(SortKeys(keys))
    ensures Elems(SortKeys(keys)) == Elems(keys)
  {
    ElemsOfMultiset(SortKeys(keys), keys);
    if |keys| > 0 {
      SortKeysSorted(keys[1..]);
      var rest := SortKeys(keys[1..]);
      assert keys[0] !in keys[1..] by {
        forall j | 0 <= j < |keys[1..]|
          ensures keys[1..][j] != keys[0]
        {
          assert keys[1..][j] == keys[j + 1];
        }
      }
      assert keys[0] !in multiset(rest);
      InsertSorted(keys[0], rest);
    }
  }

  /** Two strictly ascending lists with the same elements are the same list. */
  lemma {:induction false} SortedUnique(s: seq<seq<u8>>, t: seq<seq<u8>>)
    requires StrictlySorted(s) && StrictlySorted(t) && Elems(s) == Elems(t)
    ensures s == t
    decreases |s|
  {
    if |s| == 0 {
      ElemsEmpty(t);
    } else {
      assert s[0] in Elems(t);
      assert |t| > 0;
      assert t[0] in Elems(s);
      var i :| 0 <= i < |s| && s[i] == t[0];
      var j :| 0 <= j < |t| && t[j] == s[0];
      if i > 0 && j > 0 {
        LessAsymmetric(s[0], s[i]);
      }
      assert s[0] == t[0];
      forall x
        ensures x in Elems(s[1..]) <==> x in Elems(t[1..])
      {
        TailElems(s, x);
        TailElems(t, x);
      }
      SortedUnique(s[1..], t[1..]);
      assert s == [s[0]] + s[1..] && t == [t[0]] + t[1..];
    }
  }

  /** In a strictly ascending list the tail holds every element but the first. */
  lemma TailElems(s: seq<seq<u8>>, x: seq<u8>)
    requires StrictlySorted(s) && |s| > 0
    ensures x in Elems(s[1..]) <==> x in Elems(s) && x != s[0]
  {
    if x in Elems(s[1..]) {
      var j :| 0 <= j < |s[1..]| && s[1..][j] == x;
      assert Less(s[0], s[j + 1]);
      if x == s[0] {
        LessIrreflexive(x);
      }
    }
    if x in Elems(s) && x != s[0] {
      var j :| 0 <= j < |s| && s[j] == x;
      assert s[1..][j - 1] == x;
    }
  }

  /** Sorting two orderings of the same distinct keys gives the same list. */
  lemma SortKeysOrderIndependent(a: seq<seq<u8>>, b: seq<seq<u8>>)
    requires Distinct(a) && Distinct(b) && Elems(a) == Elems(b)
    ensures SortKeys(a) == SortKeys(b)
  {
    SortKeysSorted(a);
    SortKeysSorted(b);
    SortedUnique(SortKeys(a), SortKeys(b));
  }
}
