// Sequence helpers shared by the models: duplicate-free lists and the set of a
// list's elements.

module Collections {

  /** No element occurs twice. */
  predicate Distinct<T(==)>(s: seq<T>)
  {
    forall i, j :: 0 <= i < j < |s| ==> s[i] != s[j]
  }

  function Elems<T(==)>(s: seq<T>): set<T>
  {
    set x | x in s
  }

  lemma ElemsOfMultiset<T>(a: seq<T>, b: seq<T>)
    requires multiset(a) == multiset(b)
    ensures Elems(a) == Elems(b)
  {
    forall x
      ensures x in Elems(a) <==> x in Elems(b)
    {
      assert x in a <==> x in multiset(a);
      assert x in b <==> x in multiset(b);
    }
  }

  lemma ElemsEmpty<T>(t: seq<T>)
    ensures Elems(t) == {} ==> |t| == 0
  {
    if |t| > 0 {
      assert t[0] in Elems(t);
    }
  }

  /** A list without repetition has as many elements as its set. */
  lemma {:induction false} DistinctCard<T>(s: seq<T>)
    requires Distinct(s)
    ensures |Elems(s)| == |s|
  {
    if |s| > 0 {
      var t := s[..|s| - 1];
      var x := s[|s| - 1];
      assert Distinct(t);
      DistinctCard(t);
      assert s == t + [x];
      assert Elems(s) == Elems(t) + {x};
      assert x !in Elems(t) by {
        forall j | 0 <= j < |t|
          ensures t[j] != x
        {
          assert t[j] == s[j];
        }
      }
    }
  }

  /** In a list without repetition every element occurs once. */
  lemma {:induction false} DistinctMultiset<T>(s: seq<T>)
    requires Distinct(s)
    ensures forall x :: multiset(s)[x] == if x in s then 1 else 0
  {
    if |s| > 0 {
      var t := s[..|s| - 1];
      var y := s[|s| - 1];
      assert Distinct(t);
      DistinctMultiset(t);
      assert s == t + [y];
      assert multiset(s) == multiset(t) + multiset{y};
      assert y !in t by {
        forall j | 0 <= j < |t|
          ensures t[j] != y
        {
          assert t[j] == s[j];
        }
      }
    }
  }
}
