// StaticString<data_size> (src/libs/core/helper/static_string.hpp): a
// compile-time string held in a std::array<char, data_size> whose last
// element is the terminator. The model is the array's contents; data_size
// is its length, at least 1 as for any C string literal.

module StaticStrings {

  /** The std::array<char, data_size> of a StaticString. */
  type StaticString = s: seq<char> | |s| >= 1 witness ['\0']

  /** size() (and length()): data_size - 1, the characters before the terminator. */
  function Size(s: StaticString): nat
  {
    |s| - 1
  }

  /** string(): the characters from begin() to end(). */
  function String(s: StaticString): string
  {
    s[..Size(s)]
  }

  /** string() holds exactly size() characters, the array's first ones. */
  lemma StringContents(s: StaticString)
    ensures |String(s)| == Size(s) && Size(s) + 1 == |s|
    ensures forall i :: 0 <= i < Size(s) ==> String(s)[i] == s[i]
  {
  }

  /** The array of a StaticString whose last character is the terminator. */
  predicate Terminated(s: StaticString)
  {
    s[|s| - 1] == '\0'
  }

  /**
   * The constructor from a character array of data_size elements: all of
   * them are copied, the last included.
   */
  method FromChars(chars: array<char>) returns (s: StaticString)
    requires chars.Length >= 1
    ensures s == chars[..]
  {
    var data := new char[chars.Length](_ => '\0');
    for i := 0 to chars.Length
      invariant forall k :: 0 <= k < i ==> data[k] == chars[k]
    {
      data[i] := chars[i];
    }
    s := data[..];
  }

  /**
   * operator+: a StaticString of data_size + other_data_size - 1 elements
   * holding the characters of a, then those of b, then the terminator.
   */
  function Plus(a: StaticString, b: StaticString): StaticString
  {
    String(a) + String(b) + ['\0']
  }

  /** a + b has size a.size() + b.size(), holds a followed by b, and is terminated. */
  lemma PlusContents(a: StaticString, b: StaticString)
    ensures |Plus(a, b)| == |a| + |b| - 1
    ensures Size(Plus(a, b)) == Size(a) + Size(b)
    ensures String(Plus(a, b)) == String(a) + String(b)
    ensures Terminated(Plus(a, b))
  {
    var p := Plus(a, b);
    assert p[..Size(p)] == String(a) + String(b);
  }

  /** Concatenation does not depend on how it is grouped. */
  lemma PlusAssociative(a: StaticString, b: StaticString, c: StaticString)
    ensures Plus(Plus(a, b), c) == Plus(a, Plus(b, c))
  {
    PlusContents(a, b);
    PlusContents(b, c);
    assert String(a) + String(b) + String(c) == String(a) + (String(b) + String(c));
  }

  /** The empty literal "" is a neutral element for terminated strings. */
  lemma PlusEmpty(a: StaticString)
    requires Terminated(a)
    ensures Plus(a, ['\0']) == a && Plus(['\0'], a) == a
  {
    assert String(['\0']) == [];
    assert String(a) + [] + ['\0'] == a;
    assert [] + String(a) + ['\0'] == a;
  }

  /**
   * operator+ as the source computes it: a value-initialised array of the
   * result's size, a's characters copied to its front, b's after them, and
   * the terminator stored in the last element.
   */
  method Concat(a: StaticString, b: StaticString) returns (r: StaticString)
    ensures r == Plus(a, b)
  {
    var result := new char[|a| + |b| - 1](_ => '\0');
    var n := Size(a);
    for i := 0 to n
      invariant forall k :: 0 <= k < i ==> result[k] == a[k]
    {
      result[i] := a[i];
    }
    for i := 0 to Size(b)
      invariant forall k :: 0 <= k < n ==> result[k] == a[k]
      invariant forall k :: 0 <= k < i ==> result[n + k] == b[k]
    {
      result[n + i] := b[i];
    }
    result[result.Length - 1] := '\0';
    r := result[..];
    assert r == Plus(a, b);
  }

  /**
   * operator== (and its negation operator!=): the arrays compared element by
   * element; the source only compiles it for two strings of the same
   * data_size.
   */
  predicate Equal(a: StaticString, b: StaticString)
    requires |a| == |b|
  {
    forall i :: 0 <= i < |a| ==> a[i] == b[i]
  }

  /** Two strings of one size are equal exactly when their strings and their last elements are. */
  lemma EqualIff(a: StaticString, b: StaticString)
    requires |a| == |b|
    ensures Equal(a, b) <==> String(a) == String(b) && a[Size(a)] == b[Size(b)]
    ensures Equal(a, b) <==> a == b
  {
    if String(a) == String(b) && a[Size(a)] == b[Size(b)] {
      forall i | 0 <= i < |a|
        ensures a[i] == b[i]
      {
        if i < Size(a) {
          assert String(a)[i] == String(b)[i];
        }
      }
    }
    if Equal(a, b) {
      assert a == b;
    }
  }

  /**
   * join, called on the separator: a single part is returned as it is, and
   * otherwise the first part, the separator and the join of the others are
   * concatenated.
   */
  function Join(sep: StaticString, parts: seq<StaticString>): StaticString
    requires |parts| >= 1
    decreases |parts|
  {
    if |parts| == 1 then parts[0] else Plus(Plus(parts[0], sep), Join(sep, parts[1..]))
  }

  /** The strings joined with a separator between each two of them. */
  function Interleave(strings: seq<string>, sep: string): string
    requires |strings| >= 1
    decreases |strings|
  {
    if |strings| == 1 then strings[0] else strings[0] + sep + Interleave(strings[1..], sep)
  }

  /** The string() of each part. */
  function Strings(parts: seq<StaticString>): (r: seq<string>)
    ensures |r| == |parts|
    ensures forall i :: 0 <= i < |parts| ==> r[i] == String(parts[i])
  {
    if |parts| == 0 then [] else [String(parts[0])] + Strings(parts[1..])
  }

  /**
   * join of one part is that part; join of several is terminated and its
   * string is the parts' strings with the separator's string between them.
   */
  lemma {:induction false} JoinContents(sep: StaticString, parts: seq<StaticString>)
    requires |parts| >= 1
    ensures |parts| == 1 ==> Join(sep, parts) == parts[0]
    ensures |parts| >= 2 ==> Terminated(Join(sep, parts))
    ensures String(Join(sep, parts)) == Interleave(Strings(parts), String(sep))
    decreases |parts|
  {
    if |parts| >= 2 {
      var rest := Join(sep, parts[1..]);
      JoinContents(sep, parts[1..]);
      PlusContents(parts[0], sep);
      PlusContents(Plus(parts[0], sep), rest);
      assert Strings(parts)[1..] == Strings(parts[1..]);
      assert String(Join(sep, parts)) == String(parts[0]) + String(sep) + String(rest);
    }
  }

  /** The size of a join: the parts' sizes and one separator between each two of them. */
  lemma {:induction false} JoinSize(sep: StaticString, parts: seq<StaticString>)
    requires |parts| >= 1
    ensures Size(Join(sep, parts)) == TotalSize(parts) + (|parts| - 1) * Size(sep)
    decreases |parts|
  {
    if |parts| >= 2 {
      JoinSize(sep, parts[1..]);
      PlusContents(parts[0], sep);
      PlusContents(Plus(parts[0], sep), Join(sep, parts[1..]));
    }
  }

  /** The sum of the parts' sizes. */
  function TotalSize(parts: seq<StaticString>): nat
  {
    if |parts| == 0 then 0 else Size(parts[0]) + TotalSize(parts[1..])
  }
}
