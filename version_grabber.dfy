// tools/version_grabber.py: reads the package entries of a vcpkg status
// file and prints them as `name[:version]:deps` lines, ordered by their
// number of dependencies. A parsed YAML entry is a map from field names to
// strings; Python exceptions are the PyError values of a Result.

module VersionGrabber {
  import opened Wrappers
  import Strings

  /** The exceptions the script raises: ValueError and KeyError, with their argument. */
  datatype PyError = ValueError(message: string) | KeyError(message: string)

  /** str() of an exception: the message of a ValueError, the quoted key of a KeyError. */
  function Describe(e: PyError): string
  {
    match e
    case ValueError(m) => m
    case KeyError(m) => "'" + m + "'"
  }

  function MissingKey(key: string): string
  {
    "key '" + key + "' has to be present, but wasn't"
  }

  /**
   * parse_value: the parser applied to the value under key; a missing key
   * gives the default, and is an error when there is none.
   */
  function ParseValue<A>(input: map<string, string>, key: string, default: Option<A>,
                         parser: string -> Result<A, PyError>): Result<A, PyError>
  {
    if key !in input then
      if default.None? then Err(ValueError(MissingKey(key))) else Ok(default.value)
    else parser(input[key])
  }

  /** parse_value fails on a missing key only without a default, and otherwise defers to the parser. */
  lemma ParseValueCases<A>(input: map<string, string>, key: string, default: Option<A>,
                           parser: string -> Result<A, PyError>)
    ensures key !in input && default.None? ==> ParseValue(input, key, default, parser) == Err(ValueError(MissingKey(key)))
    ensures key !in input && default.Some? ==> ParseValue(input, key, default, parser) == Ok(default.value)
    ensures key in input ==> ParseValue(input, key, default, parser) == parser(input[key])
  {
  }

  /** The parser `str`: the value itself. */
  function Text(s: string): Result<string, PyError>
  {
    Ok(s)
  }

  /** has_to_be, the parser required_to_be(value) returns. */
  function HasToBe(value: string, input: string): Result<(), PyError>
  {
    if value != input then Err(ValueError("value has to be '" + value + "' but was '" + input + "'")) else Ok(())
  }

  /** required_to_be: a parser that accepts exactly the given value. */
  function RequiredToBe(value: string): string -> Result<(), PyError>
  {
    input => HasToBe(value, input)
  }

  /** The parser accepts its value and nothing else, naming both in its error. */
  lemma RequiredToBeIff(value: string, input: string)
    ensures RequiredToBe(value)(input).Ok? <==> input == value
    ensures input != value ==> RequiredToBe(value)(input)
                               == Err(ValueError("value has to be '" + value + "' but was '" + input + "'"))
  {
  }

  /**
   * str.isspace for one character: the ASCII white space and separators
   * (tab to carriage return, the four information separators, space) and
   * the Unicode spaces.
   */
  predicate PySpace(c: char)
  {
    var n := c as int;
    (0x09 <= n <= 0x0d) || (0x1c <= n <= 0x20) || n == 0x85 || n == 0xa0 || n == 0x1680
    || (0x2000 <= n <= 0x200a) || n == 0x2028 || n == 0x2029 || n == 0x202f || n == 0x205f
    || n == 0x3000
  }

  /** The string without its leading white space. */
  function StripStart(s: string): (r: string)
    ensures |r| <= |s| && r == s[|s| - |r|..]
    ensures |r| > 0 ==> !PySpace(r[0])
    ensures forall k :: 0 <= k < |s| - |r| ==> PySpace(s[k])
  {
    if |s| > 0 && PySpace(s[0]) then StripStart(s[1..]) else s
  }

  /** The string without its trailing white space. */
  function StripEnd(s: string): (r: string)
    ensures |r| <= |s| && r == s[..|r|]
    ensures |r| > 0 ==> !PySpace(r[|r| - 1])
    ensures forall k :: |r| <= k < |s| ==> PySpace(s[k])
  {
    if |s| > 0 && PySpace(s[|s| - 1]) then StripEnd(s[..|s| - 1]) else s
  }

  /** str.strip(): the string without white space at either end. */
  function Strip(s: string): string
  {
    StripEnd(StripStart(s))
  }

  /** Stripping removes white space at the ends and only there: a string without any is kept. */
  lemma StripContents(s: string)
    ensures |Strip(s)| > 0 ==> !PySpace(Strip(s)[0]) && !PySpace(Strip(s)[|Strip(s)| - 1])
    ensures (|s| > 0 ==> !PySpace(s[0]) && !PySpace(s[|s| - 1])) ==> Strip(s) == s
  {
    var t := StripStart(s);
    var r := StripEnd(t);
    if |r| > 0 {
      assert r[0] == t[0];
    }
    if |s| > 0 && !PySpace(s[0]) && !PySpace(s[|s| - 1]) {
      assert t == s;
    }
  }

  /** A list item as parse_list reads it: neither empty nor white space at its ends, nor the separator. */
  predicate Item(s: string, separator: char)
  {
    |s| > 0 && !PySpace(s[0]) && !PySpace(s[|s| - 1]) && separator !in s
  }

  /**
   * The loop of the function parse_list returns, from piece i on, with the
   * items parsed so far: each piece is stripped when trim is set, skipped
   * when empty and ignoreEmpty is set, and parsed otherwise; the first
   * parser error ends it.
   */
  function ItemsFrom<B>(values: seq<string>, i: nat, parser: string -> Result<B, PyError>,
                        trim: bool, ignoreEmpty: bool, acc: seq<B>): Result<seq<B>, PyError>
    requires i <= |values|
    decreases |values| - i
  {
    if i == |values| then Ok(acc)
    else
      var value := if trim then Strip(values[i]) else values[i];
      if ignoreEmpty && value == "" then ItemsFrom(values, i + 1, parser, trim, ignoreEmpty, acc)
      else
        var parsed := parser(value);
        if parsed.Err? then Err(parsed.error)
        else ItemsFrom(values, i + 1, parser, trim, ignoreEmpty, acc + [parsed.value])
  }

  /** The KeyError that parse_list's function raises for an error of its parser. */
  function NotAList(e: PyError): PyError
  {
    KeyError("not a list: " + Describe(e))
  }

  /**
   * The function parse_list(parser, separator, trim_whitespace,
   * ignore_empty_cases) returns, applied to input: the pieces between the
   * separators, read in order; a parser error becomes a KeyError.
   */
  function ParseListOf<B>(input: string, parser: string -> Result<B, PyError>, separator: char,
                          trim: bool, ignoreEmpty: bool): Result<seq<B>, PyError>
  {
    var items := ItemsFrom(Strings.Split(input, separator), 0, parser, trim, ignoreEmpty, []);
    if items.Err? then Err(NotAList(items.error)) else items
  }

  /** parse_list with its default arguments: comma separated, trimmed, empty items dropped. */
  function ListOf<B>(parser: string -> Result<B, PyError>): string -> Result<seq<B>, PyError>
  {
    input => ParseListOf(input, parser, ',', true, true)
  }

  /** The loop of parse_list's function: each piece is stripped, skipped when empty, parsed and appended. */
  method ParseList<B>(input: string, parser: string -> Result<B, PyError>, separator: char,
                      trim: bool, ignoreEmpty: bool) returns (r: Result<seq<B>, PyError>)
    ensures r == ParseListOf(input, parser, separator, trim, ignoreEmpty)
  {
    var result: seq<B> := [];
    var values := Strings.Split(input, separator);
    ghost var items := ItemsFrom(values, 0, parser, trim, ignoreEmpty, []);
    for i := 0 to |values|
      invariant ItemsFrom(values, i, parser, trim, ignoreEmpty, result) == items
    {
      var value := if trim then Strip(values[i]) else values[i];
      ItemsStep(values, i, parser, trim, ignoreEmpty, result, value);
      if !(ignoreEmpty && value == "") {
        var parsed := parser(value);
        if parsed.Err? {
          return Err(NotAList(parsed.error));
        }
        result := result + [parsed.value];
      }
    }
    return Ok(result);
  }

  /** One turn of the loop of parse_list's function: piece i is skipped, ends it with an error, or is appended. */
  lemma ItemsStep<B>(values: seq<string>, i: nat, parser: string -> Result<B, PyError>,
                     trim: bool, ignoreEmpty: bool, acc: seq<B>, value: string)
    requires i < |values| && value == if trim then Strip(values[i]) else values[i]
    ensures ignoreEmpty && value == ""
            ==> ItemsFrom(values, i, parser, trim, ignoreEmpty, acc) == ItemsFrom(values, i + 1, parser, trim, ignoreEmpty, acc)
    ensures !(ignoreEmpty && value == "") && parser(value).Err?
            ==> ItemsFrom(values, i, parser, trim, ignoreEmpty, acc) == Err(parser(value).error)
    ensures !(ignoreEmpty && value == "") && parser(value).Ok?
            ==> ItemsFrom(values, i, parser, trim, ignoreEmpty, acc)
                == ItemsFrom(values, i + 1, parser, trim, ignoreEmpty, acc + [parser(value).value])
  {
  }

  /** Items read from pieces that are all items: the pieces themselves, after those parsed so far. */
  lemma {:induction false} ItemsOfItems(values: seq<string>, i: nat, acc: seq<string>)
    requires i <= |values| && forall k :: 0 <= k < |values| ==> Item(values[k], ',')
    ensures ItemsFrom(values, i, Text, true, true, acc) == Ok(acc + values[i..])
    decreases |values| - i
  {
    if i < |values| {
      var v := values[i];
      assert Item(v, ',');
      StripContents(v);
      assert Strip(v) == v && v != "";
      assert Text(v) == Ok(v);
      assert ItemsFrom(values, i, Text, true, true, acc) == ItemsFrom(values, i + 1, Text, true, true, acc + [v]);
      ItemsOfItems(values, i + 1, acc + [v]);
      SliceStep(values, i, acc);
    } else {
      SliceStep(values, i, acc);
    }
  }

  /** Appending s[i], then the rest of s, is appending s from i on. */
  lemma SliceStep<T>(s: seq<T>, i: nat, acc: seq<T>)
    requires i <= |s|
    ensures i < |s| ==> acc + [s[i]] + s[i + 1..] == acc + s[i..]
    ensures i == |s| ==> acc + s[i..] == acc
  {
    if i < |s| {
      assert s[i..] == [s[i]] + s[i + 1..];
    }
  }

  /** ",".join of a list; the empty list gives the empty string. */
  function JoinComma(parts: seq<string>): string
  {
    if |parts| == 0 then "" else Strings.Join(parts, ',')
  }

  /** Items joined with commas are read back by parse_list as the same list. */
  lemma ListRoundTrip(items: seq<string>)
    requires forall k :: 0 <= k < |items| ==> Item(items[k], ',')
    ensures ListOf(Text)(JoinComma(items)) == Ok(items)
  {
    if |items| == 0 {
      assert Strings.Split("", ',') == [""];
      StripContents("");
    } else {
      Strings.SplitJoin(items, ',');
      ItemsOfItems(items, 0, []);
      assert [] + items[0..] == items;
    }
  }

  /** A package entry: a package, or one of its features; version and feature are "" when absent. */
  datatype Package = Package(name: string, version: string, depends: seq<string>, feature: string,
                             defaultFeatures: seq<string>)

  const Installed := "install ok installed"

  /**
   * parse_entry: the Status field must be "install ok installed" and the
   * Package field present; Version and Feature default to "", Depends and
   * Default-Features, comma separated lists, to the empty list.
   */
  function ParseEntry(raw: map<string, string>): Result<Package, PyError>
  {
    var status := ParseValue(raw, "Status", None, RequiredToBe(Installed));
    if status.Err? then Err(status.error)
    else
      var name := ParseValue(raw, "Package", None, Text);
      if name.Err? then Err(name.error)
      else
        var version := ParseValue(raw, "Version", Some(""), Text);
        var depends := ParseValue(raw, "Depends", Some([]), ListOf(Text));
        if depends.Err? then Err(depends.error)
        else
          var feature := ParseValue(raw, "Feature", Some(""), Text);
          var defaults := ParseValue(raw, "Default-Features", Some([]), ListOf(Text));
          if defaults.Err? then Err(defaults.error)
          else Ok(Package(name.value, version.value, depends.value, feature.value, defaults.value))
  }

  /** An entry is rejected without an installed status or without a package name, with the script's messages. */
  lemma EntryErrors(raw: map<string, string>)
    ensures "Status" !in raw ==> ParseEntry(raw) == Err(ValueError(MissingKey("Status")))
    ensures "Status" in raw && raw["Status"] != Installed
            ==> ParseEntry(raw) == Err(ValueError("value has to be '" + Installed + "' but was '" + raw["Status"] + "'"))
    ensures "Status" in raw && raw["Status"] == Installed && "Package" !in raw
            ==> ParseEntry(raw) == Err(ValueError(MissingKey("Package")))
  {
  }

  /** The fields of a status file entry describing the package (empty fields left out). */
  function EntryOf(p: Package): map<string, string>
  {
    var base := map["Status" := Installed, "Package" := p.name];
    var withVersion := if p.version != "" then base["Version" := p.version] else base;
    var withDepends := if |p.depends| > 0 then withVersion["Depends" := JoinComma(p.depends)] else withVersion;
    var withFeature := if p.feature != "" then withDepends["Feature" := p.feature] else withDepends;
    if |p.defaultFeatures| > 0 then withFeature["Default-Features" := JoinComma(p.defaultFeatures)] else withFeature
  }

  predicate Items(parts: seq<string>)
  {
    forall k :: 0 <= k < |parts| ==> Item(parts[k], ',')
  }

  /** Each field of the written entry is there exactly when the package has it, and holds it. */
  lemma EntryFields(p: Package)
    ensures "Status" in EntryOf(p) && EntryOf(p)["Status"] == Installed
    ensures "Package" in EntryOf(p) && EntryOf(p)["Package"] == p.name
    ensures ("Version" in EntryOf(p) <==> p.version != "") && (p.version != "" ==> EntryOf(p)["Version"] == p.version)
    ensures ("Depends" in EntryOf(p) <==> |p.depends| > 0)
            && (|p.depends| > 0 ==> EntryOf(p)["Depends"] == JoinComma(p.depends))
    ensures ("Feature" in EntryOf(p) <==> p.feature != "") && (p.feature != "" ==> EntryOf(p)["Feature"] == p.feature)
    ensures ("Default-Features" in EntryOf(p) <==> |p.defaultFeatures| > 0)
            && (|p.defaultFeatures| > 0 ==> EntryOf(p)["Default-Features"] == JoinComma(p.defaultFeatures))
  {
    var keys := ["Status", "Package", "Version", "Depends", "Feature", "Default-Features"];
    assert keys[0][0] == 'S' && keys[1][0] == 'P' && keys[2][0] == 'V' && keys[3][0] == 'D';
    assert keys[4][0] == 'F' && keys[5][0] == 'D' && |keys[3]| != |keys[5]|;
    assert forall a, b :: 0 <= a < b < |keys| ==> keys[a] != keys[b];
  }

  /** An entry written from a package is parsed back to that package. */
  lemma EntryRoundTrip(p: Package)
    requires Items(p.depends) && Items(p.defaultFeatures)
    ensures ParseEntry(EntryOf(p)) == Ok(p)
  {
    var raw := EntryOf(p);
    EntryFields(p);
    ListRoundTrip(p.depends);
    ListRoundTrip(p.defaultFeatures);
    assert ParseValue(raw, "Status", None, RequiredToBe(Installed)) == Ok(());
    assert ParseValue(raw, "Package", None, Text) == Ok(p.name);
    assert ParseValue(raw, "Version", Some(""), Text) == Ok(p.version);
    assert ParseValue(raw, "Depends", Some([]), ListOf(Text)) == Ok(p.depends);
    assert ParseValue(raw, "Feature", Some(""), Text) == Ok(p.feature);
    assert ParseValue(raw, "Default-Features", Some([]), ListOf(Text)) == Ok(p.defaultFeatures);
  }

  // PackageDescription.sorted

  /** The build helpers that are neither listed nor counted as dependencies. */
  const WrongDependencies: seq<string> := ["vcpkg-cmake", "vcpkg-cmake-config"]

  /** Every dependency of sub is one of deps. */
  predicate Includes(deps: seq<string>, sub: seq<string>)
  {
    forall d :: d in sub ==> d in deps
  }

  /** A list includes its prefixes, and what a prefix includes. */
  lemma PrefixIncludes(deps: seq<string>, longer: seq<string>, sub: seq<string>)
    requires deps <= longer
    ensures Includes(longer, deps)
    ensures Includes(deps, sub) ==> Includes(longer, sub)
  {
    forall d | d in deps
      ensures d in longer
    {
      var i :| 0 <= i < |deps| && deps[i] == d;
      assert longer[i] == d;
    }
  }

  /** The entry pkgs[k] is the feature `feature` of package `name`. */
  predicate Matches(p: Package, name: string, feature: string)
  {
    p.name == name && p.feature == feature
  }

  /**
   * The innermost loop of the merge, from entry k on: the dependency list of
   * entry j is extended, in place, by that of every entry that is its
   * feature `feature`; the entry itself among them extends it by a copy of
   * itself.
   */
  function ExtendFrom(pkgs: seq<Package>, j: nat, feature: string, k: nat): (r: seq<Package>)
    requires j < |pkgs| && k <= |pkgs|
    ensures |r| == |pkgs|
    ensures forall i :: 0 <= i < |pkgs| && i != j ==> r[i] == pkgs[i]
    ensures r[j] == pkgs[j].(depends := r[j].depends) && pkgs[j].depends <= r[j].depends
    decreases |pkgs| - k
  {
    if k == |pkgs| then pkgs
    else
      var next := if Matches(pkgs[k], pkgs[j].name, feature)
                  then pkgs[j := pkgs[j].(depends := pkgs[j].depends + pkgs[k].depends)] else pkgs;
      ExtendFrom(next, j, feature, k + 1)
  }

  /** The loop over the default features of entry j, from the f-th on. */
  function ExtendFeatures(pkgs: seq<Package>, j: nat, f: nat): (r: seq<Package>)
    requires j < |pkgs| && f <= |pkgs[j].defaultFeatures|
    ensures |r| == |pkgs|
    ensures forall i :: 0 <= i < |pkgs| && i != j ==> r[i] == pkgs[i]
    ensures r[j] == pkgs[j].(depends := r[j].depends) && pkgs[j].depends <= r[j].depends
    decreases |pkgs[j].defaultFeatures| - f
  {
    if f == |pkgs[j].defaultFeatures| then pkgs
    else ExtendFeatures(ExtendFrom(pkgs, j, pkgs[j].defaultFeatures[f], 0), j, f + 1)
  }

  /** The loop over the entries, from the j-th on: each one with default features takes in their dependencies. */
  function MergeFrom(pkgs: seq<Package>, j: nat): (r: seq<Package>)
    requires j <= |pkgs|
    ensures |r| == |pkgs|
    ensures forall i :: 0 <= i < j ==> r[i] == pkgs[i]
    ensures forall i :: 0 <= i < |pkgs| ==> r[i] == pkgs[i].(depends := r[i].depends) && pkgs[i].depends <= r[i].depends
    decreases |pkgs| - j
  {
    if j == |pkgs| then pkgs
    else MergeFrom(if |pkgs[j].defaultFeatures| != 0 then ExtendFeatures(pkgs, j, 0) else pkgs, j + 1)
  }

  /** The innermost loop leaves entry j including each matching entry's dependencies. */
  lemma {:induction false} ExtendFromIncludes(pkgs: seq<Package>, j: nat, feature: string, k: nat)
    requires j < |pkgs| && k <= |pkgs|
    ensures forall i :: k <= i < |pkgs| && Matches(pkgs[i], pkgs[j].name, feature)
                        ==> Includes(ExtendFrom(pkgs, j, feature, k)[j].depends, pkgs[i].depends)
    decreases |pkgs| - k
  {
    if k < |pkgs| {
      var next := if Matches(pkgs[k], pkgs[j].name, feature)
                  then pkgs[j := pkgs[j].(depends := pkgs[j].depends + pkgs[k].depends)] else pkgs;
      var r := ExtendFrom(next, j, feature, k + 1);
      assert r == ExtendFrom(pkgs, j, feature, k);
      ExtendFromIncludes(next, j, feature, k + 1);
      PrefixIncludes(pkgs[j].depends, r[j].depends, []);
      if Matches(pkgs[k], pkgs[j].name, feature) {
        PrefixIncludes(next[j].depends, r[j].depends, pkgs[k].depends);
        assert next[j].depends == pkgs[j].depends + pkgs[k].depends;
        assert Includes(next[j].depends, pkgs[k].depends);
      }
    }
  }

  /** The loop over the default features leaves entry j including the dependencies of each of its features. */
  lemma {:induction false} ExtendFeaturesIncludes(pkgs: seq<Package>, j: nat, f: nat)
    requires j < |pkgs| && f <= |pkgs[j].defaultFeatures|
    ensures forall g, i :: f <= g < |pkgs[j].defaultFeatures| && 0 <= i < |pkgs|
                           && Matches(pkgs[i], pkgs[j].name, pkgs[j].defaultFeatures[g])
                           ==> Includes(ExtendFeatures(pkgs, j, f)[j].depends, pkgs[i].depends)
    decreases |pkgs[j].defaultFeatures| - f
  {
    if f < |pkgs[j].defaultFeatures| {
      var features := pkgs[j].defaultFeatures;
      var next := ExtendFrom(pkgs, j, features[f], 0);
      var r := ExtendFeatures(next, j, f + 1);
      assert r == ExtendFeatures(pkgs, j, f);
      ExtendFromIncludes(pkgs, j, features[f], 0);
      ExtendFeaturesIncludes(next, j, f + 1);
      PrefixIncludes(pkgs[j].depends, r[j].depends, []);
      forall g, i | f <= g < |features| && 0 <= i < |pkgs| && Matches(pkgs[i], pkgs[j].name, features[g])
        ensures Includes(r[j].depends, pkgs[i].depends)
      {
        if g == f {
          PrefixIncludes(next[j].depends, r[j].depends, pkgs[i].depends);
        } else if i != j {
          assert next[i] == pkgs[i];
        }
      }
    }
  }

  /**
   * After the merge, every entry with default features includes the
   * dependencies of each entry that is one of those features of the same
   * package.
   */
  lemma {:induction false} MergeIncludes(pkgs: seq<Package>, j: nat)
    requires j <= |pkgs|
    ensures forall i, g, k :: j <= i < |pkgs| && 0 <= g < |pkgs[i].defaultFeatures| && 0 <= k < |pkgs|
                              && Matches(pkgs[k], pkgs[i].name, pkgs[i].defaultFeatures[g])
                              ==> Includes(MergeFrom(pkgs, j)[i].depends, pkgs[k].depends)
    decreases |pkgs| - j
  {
    if j < |pkgs| {
      var next := if |pkgs[j].defaultFeatures| != 0 then ExtendFeatures(pkgs, j, 0) else pkgs;
      var r := MergeFrom(next, j + 1);
      assert r == MergeFrom(pkgs, j);
      if |pkgs[j].defaultFeatures| != 0 {
        ExtendFeaturesIncludes(pkgs, j, 0);
      }
      MergeIncludes(next, j + 1);
      forall i, g, k | j <= i < |pkgs| && 0 <= g < |pkgs[i].defaultFeatures| && 0 <= k < |pkgs|
                       && Matches(pkgs[k], pkgs[i].name, pkgs[i].defaultFeatures[g])
        ensures Includes(r[i].depends, pkgs[k].depends)
      {
        if i == j {
          assert r[j] == next[j];
        } else {
          assert next[i] == pkgs[i];
          assert Includes(r[i].depends, next[k].depends);
          PrefixIncludes(pkgs[k].depends, next[k].depends, []);
          forall d | d in pkgs[k].depends
            ensures d in r[i].depends
          {
            assert d in next[k].depends;
          }
        }
      }
    }
  }

  /** The entries of the input that are packages rather than features. */
  function FeatureFree(pkgs: seq<Package>): (r: seq<Package>)
    ensures forall p :: p in r <==> p in pkgs && p.feature == ""
  {
    if |pkgs| == 0 then []
    else FeatureFree(pkgs[..|pkgs| - 1]) + (if pkgs[|pkgs| - 1].feature == "" then [pkgs[|pkgs| - 1]] else [])
  }

  /** An entry with its merged dependencies, as a package without features. */
  function Base(p: Package): Package
  {
    Package(p.name, p.version, p.depends, "", [])
  }

  /** The packages appended for the entries with default features. */
  function Bases(pkgs: seq<Package>): (r: seq<Package>)
    ensures forall p :: p in r <==> exists q :: q in pkgs && |q.defaultFeatures| != 0 && p == Base(q)
  {
    if |pkgs| == 0 then []
    else
      var last := pkgs[|pkgs| - 1];
      var rest := Bases(pkgs[..|pkgs| - 1]);
      assert forall q :: q in pkgs <==> q in pkgs[..|pkgs| - 1] || q == last;
      rest + (if |last.defaultFeatures| != 0 then [Base(last)] else [])
  }

  /**
   * filtered_input after the merge: the feature-free entries, which are the
   * input's own objects and so carry its merged lists, then a package for
   * each entry with default features.
   */
  function Candidates(input: seq<Package>): seq<Package>
  {
    var merged := MergeFrom(input, 0);
    FeatureFree(merged) + Bases(merged)
  }

  /** The dependencies that are neither build helpers nor the package itself, in their order. */
  function KeepDepends(deps: seq<string>, name: string): (r: seq<string>)
    ensures forall d :: d in r <==> d in deps && d !in WrongDependencies && d != name
  {
    if |deps| == 0 then []
    else
      var last := deps[|deps| - 1];
      assert forall d :: d in deps <==> d in deps[..|deps| - 1] || d == last;
      KeepDepends(deps[..|deps| - 1], name) + (if last !in WrongDependencies && last != name then [last] else [])
  }

  /** new_package: the entry with its dependency list cleaned, as a package without features. */
  function Clean(p: Package): Package
  {
    Package(p.name, p.version, KeepDepends(p.depends, p.name), "", [])
  }

  /** The names of a list of packages, in order. */
  function Names(ps: seq<Package>): (r: seq<string>)
    ensures |r| == |ps| && forall i :: 0 <= i < |ps| ==> r[i] == ps[i].name
  {
    if |ps| == 0 then [] else Names(ps[..|ps| - 1]) + [ps[|ps| - 1].name]
  }

  /** One turn of the loop building filtered_input_deps. */
  function DedupStep(acc: seq<Package>, c: Package): seq<Package>
  {
    if c.name in WrongDependencies then acc
    else if Clean(c).name in Names(acc) then acc
    else acc + [Clean(c)]
  }

  /** The loop building filtered_input_deps, from candidate i on. */
  function DedupFrom(cands: seq<Package>, i: nat, acc: seq<Package>): seq<Package>
    requires i <= |cands|
    decreases |cands| - i
  {
    if i == |cands| then acc else DedupFrom(cands, i + 1, DedupStep(acc, cands[i]))
  }

  /** No candidate before index i has the name of candidate i. */
  predicate FirstOf(cands: seq<Package>, i: nat)
    requires i < |cands|
  {
    forall k :: 0 <= k < i ==> cands[k].name != cands[i].name
  }

  /** A package as the output holds it: no build helper, no feature, no helper or itself among its dependencies. */
  predicate Cleaned(p: Package)
  {
    p.name !in WrongDependencies && p.feature == "" && p.defaultFeatures == []
    && forall d :: d in p.depends ==> d !in WrongDependencies && d != p.name
  }

  /** Every package of acc is cleaned. */
  predicate AllCleaned(acc: seq<Package>)
  {
    forall a :: 0 <= a < |acc| ==> Cleaned(acc[a])
  }

  /** No two packages of acc have the same name. */
  predicate DistinctNames(acc: seq<Package>)
  {
    forall a, b :: 0 <= a < b < |acc| ==> acc[a].name != acc[b].name
  }

  /** Each package of acc is the cleaned first candidate, among the first n, of its name. */
  predicate FromFirsts(cands: seq<Package>, n: nat, acc: seq<Package>)
    requires n <= |cands|
  {
    forall a :: 0 <= a < |acc| ==> exists i :: 0 <= i < n && FirstOf(cands, i) && acc[a] == Clean(cands[i])
  }

  /** Each of the first n candidates that is not a build helper has a package of its name in acc. */
  predicate Covers(cands: seq<Package>, n: nat, acc: seq<Package>)
    requires n <= |cands|
  {
    forall i :: 0 <= i < n && cands[i].name !in WrongDependencies ==> cands[i].name in Names(acc)
  }

  /**
   * What filtered_input_deps holds once the first n candidates were seen:
   * cleaned packages with distinct names, each the cleaned first candidate
   * of its name, with a package for every name seen that is not a build
   * helper.
   */
  predicate Deduped(cands: seq<Package>, n: nat, acc: seq<Package>)
    requires n <= |cands|
  {
    AllCleaned(acc) && DistinctNames(acc) && FromFirsts(cands, n, acc) && Covers(cands, n, acc)
  }

  lemma CleanedClean(c: Package)
    requires c.name !in WrongDependencies
    ensures Cleaned(Clean(c))
  {
  }

  /** A new name appended keeps the names distinct. */
  lemma AppendDistinct(acc: seq<Package>, p: Package)
    requires DistinctNames(acc) && p.name !in Names(acc)
    ensures DistinctNames(acc + [p])
  {
    var next := acc + [p];
    forall a, b | 0 <= a < b < |next|
      ensures next[a].name != next[b].name
    {
      if b == |acc| {
        assert Names(acc)[a] == acc[a].name;
      }
    }
  }

  /** A candidate whose name is not yet in acc is the first of its name. */
  lemma NewIsFirst(cands: seq<Package>, n: nat, acc: seq<Package>)
    requires n < |cands| && Covers(cands, n, acc)
    requires cands[n].name !in WrongDependencies && cands[n].name !in Names(acc)
    ensures FirstOf(cands, n)
  {
    forall k | 0 <= k < n
      ensures cands[k].name != cands[n].name
    {
      assert cands[k].name !in WrongDependencies ==> cands[k].name in Names(acc);
    }
  }

  /** The names of acc with p appended hold those of acc and that of p. */
  lemma NamesAppend(acc: seq<Package>, p: Package, name: string)
    ensures name in Names(acc + [p]) <==> name in Names(acc) || name == p.name
  {
    var next := acc + [p];
    if name in Names(acc) {
      var a :| 0 <= a < |acc| && Names(acc)[a] == name;
      assert Names(next)[a] == name;
    }
    if name in Names(next) {
      var a :| 0 <= a < |next| && Names(next)[a] == name;
      if a < |acc| {
        assert Names(acc)[a] == name;
      }
    }
    assert Names(next)[|acc|] == p.name;
  }

  /** A new package appended for candidate n keeps FromFirsts. */
  lemma AppendFromFirsts(cands: seq<Package>, n: nat, acc: seq<Package>)
    requires n < |cands| && FromFirsts(cands, n, acc) && FirstOf(cands, n)
    ensures FromFirsts(cands, n + 1, acc + [Clean(cands[n])])
  {
    var next := acc + [Clean(cands[n])];
    forall a | 0 <= a < |next|
      ensures exists i :: 0 <= i < n + 1 && FirstOf(cands, i) && next[a] == Clean(cands[i])
    {
      if a == |acc| {
        assert next[a] == Clean(cands[n]);
      } else {
        assert next[a] == acc[a];
      }
    }
  }

  /** A new package appended for candidate n keeps Covers. */
  lemma AppendCovers(cands: seq<Package>, n: nat, acc: seq<Package>)
    requires n < |cands| && Covers(cands, n, acc)
    ensures Covers(cands, n + 1, acc + [Clean(cands[n])])
  {
    forall i | 0 <= i < n + 1 && cands[i].name !in WrongDependencies
      ensures cands[i].name in Names(acc + [Clean(cands[n])])
    {
      NamesAppend(acc, Clean(cands[n]), cands[i].name);
    }
  }

  /** One turn of the loop keeps Deduped. */
  lemma DedupStepKeeps(cands: seq<Package>, n: nat, acc: seq<Package>)
    requires n < |cands| && Deduped(cands, n, acc)
    ensures Deduped(cands, n + 1, DedupStep(acc, cands[n]))
  {
    var c := cands[n];
    if c.name !in WrongDependencies && Clean(c).name !in Names(acc) {
      assert DedupStep(acc, c) == acc + [Clean(c)];
      CleanedClean(c);
      AppendDistinct(acc, Clean(c));
      NewIsFirst(cands, n, acc);
      AppendFromFirsts(cands, n, acc);
      AppendCovers(cands, n, acc);
    } else {
      assert DedupStep(acc, c) == acc;
      assert FromFirsts(cands, n + 1, acc);
    }
  }

  /** The loop from candidate n on keeps Deduped. */
  lemma {:induction false} DedupFromKeeps(cands: seq<Package>, n: nat, acc: seq<Package>)
    requires n <= |cands| && Deduped(cands, n, acc)
    ensures Deduped(cands, |cands|, DedupFrom(cands, n, acc))
    decreases |cands| - n
  {
    if n < |cands| {
      var next := DedupStep(acc, cands[n]);
      DedupStepKeeps(cands, n, acc);
      DedupFromKeeps(cands, n + 1, next);
      assert DedupFrom(cands, n, acc) == DedupFrom(cands, n + 1, next);
    }
  }

  /** The sort key: the number of dependencies. */
  function Key(p: Package): nat
  {
    |p.depends|
  }

  /** x inserted into a list sorted by key, after every element whose key is not larger. */
  function Insert(s: seq<Package>, x: Package): (r: seq<Package>)
    ensures multiset(r) == multiset(s) + multiset{x}
  {
    if |s| == 0 then [x]
    else if Key(s[|s| - 1]) <= Key(x) then s + [x]
    else
      var rest := s[..|s| - 1];
      assert s == rest + [s[|s| - 1]];
      Insert(rest, x) + [s[|s| - 1]]
  }

  /** sorted(…, key=len(depends)): the stable sort on the number of dependencies. */
  function SortByKey(s: seq<Package>): (r: seq<Package>)
    ensures multiset(r) == multiset(s)
  {
    if |s| == 0 then []
    else
      var rest := s[..|s| - 1];
      assert s == rest + [s[|s| - 1]];
      Insert(SortByKey(rest), s[|s| - 1])
  }

  predicate Ascending(s: seq<Package>)
  {
    forall a, b :: 0 <= a < b < |s| ==> Key(s[a]) <= Key(s[b])
  }

  /** The elements of s with key n, in their order. */
  function WithKey(s: seq<Package>, n: nat): seq<Package>
  {
    if |s| == 0 then []
    else WithKey(s[..|s| - 1], n) + (if Key(s[|s| - 1]) == n then [s[|s| - 1]] else [])
  }

  lemma WithKeySnoc(s: seq<Package>, x: Package, n: nat)
    ensures WithKey(s + [x], n) == WithKey(s, n) + (if Key(x) == n then [x] else [])
  {
    assert (s + [x])[..|s|] == s;
  }

  /** Inserting keeps every key within a bound both sides keep. */
  lemma InsertBound(s: seq<Package>, x: Package, m: nat)
    requires forall e :: e in s ==> Key(e) <= m
    requires Key(x) <= m
    ensures forall e :: e in Insert(s, x) ==> Key(e) <= m
  {
    forall e | e in Insert(s, x)
      ensures Key(e) <= m
    {
      assert e in multiset(Insert(s, x));
    }
  }

  /** Inserting keeps a list ascending. */
  lemma {:induction false} InsertAscending(s: seq<Package>, x: Package)
    requires Ascending(s)
    ensures Ascending(Insert(s, x))
    decreases |s|
  {
    if |s| > 0 {
      var last := s[|s| - 1];
      var rest := s[..|s| - 1];
      BelowLast(s);
      if Key(last) > Key(x) {
        InsertUnfold(s, x);
        InsertAscending(rest, x);
        InsertBound(rest, x, Key(last));
        AscendingSnoc(Insert(rest, x), last);
      } else {
        AscendingSnoc(s, x);
      }
    }
  }

  /** In an ascending list, no element has a larger key than the last one. */
  lemma BelowLast(s: seq<Package>)
    requires |s| > 0 && Ascending(s)
    ensures Ascending(s[..|s| - 1])
    ensures forall e :: e in s ==> Key(e) <= Key(s[|s| - 1])
    ensures forall e :: e in s[..|s| - 1] ==> Key(e) <= Key(s[|s| - 1])
  {
    forall e | e in s
      ensures Key(e) <= Key(s[|s| - 1])
    {
      var c :| 0 <= c < |s| && s[c] == e;
    }
  }

  /** An element with a key no smaller than all of an ascending list's keeps it ascending when appended. */
  lemma AscendingSnoc(r: seq<Package>, p: Package)
    requires Ascending(r) && forall e :: e in r ==> Key(e) <= Key(p)
    ensures Ascending(r + [p])
  {
    forall a, b | 0 <= a < b < |r| + 1
      ensures Key((r + [p])[a]) <= Key((r + [p])[b])
    {
      assert (r + [p])[a] == r[a] && r[a] in r;
      if b < |r| {
        assert (r + [p])[b] == r[b];
      }
    }
  }

  /** Inserting puts x last among the elements of its key. */
  lemma {:induction false} InsertWithKey(s: seq<Package>, x: Package, n: nat)
    ensures WithKey(Insert(s, x), n) == WithKey(s, n) + (if Key(x) == n then [x] else [])
    decreases |s|
  {
    if |s| > 0 {
      var last := s[|s| - 1];
      var rest := s[..|s| - 1];
      if Key(last) <= Key(x) {
        WithKeySnoc(s, x, n);
      } else {
        InsertWithKey(rest, x, n);
        InsertBehind(rest, x, last, n, Insert(rest, x));
        InsertUnfold(s, x);
      }
    }
  }

  /** Insert moves past a last element of larger key. */
  lemma InsertUnfold(s: seq<Package>, x: Package)
    requires |s| > 0 && Key(s[|s| - 1]) > Key(x)
    ensures Insert(s, x) == Insert(s[..|s| - 1], x) + [s[|s| - 1]]
    ensures s == s[..|s| - 1] + [s[|s| - 1]]
  {
  }

  /** x inserted before a last element of larger key. */
  lemma InsertBehind(rest: seq<Package>, x: Package, last: Package, n: nat, r: seq<Package>)
    requires Key(last) > Key(x)
    requires WithKey(r, n) == WithKey(rest, n) + (if Key(x) == n then [x] else [])
    ensures WithKey(r + [last], n) == WithKey(rest + [last], n) + (if Key(x) == n then [x] else [])
  {
    WithKeySnoc(r, last, n);
    WithKeySnoc(rest, last, n);
  }

  /** The sort inserts the last element into the sorted rest. */
  lemma SortUnfold(s: seq<Package>)
    requires |s| > 0
    ensures SortByKey(s) == Insert(SortByKey(s[..|s| - 1]), s[|s| - 1])
    ensures s == s[..|s| - 1] + [s[|s| - 1]]
  {
    LastSplit(s);
  }

  /** A non-empty list is its front followed by its last element. */
  lemma LastSplit<T>(s: seq<T>)
    requires |s| > 0
    ensures s == s[..|s| - 1] + [s[|s| - 1]]
  {
  }

  /** The sort orders by the number of dependencies. */
  lemma {:induction false} SortAscending(s: seq<Package>)
    ensures Ascending(SortByKey(s))
    decreases |s|
  {
    if |s| > 0 {
      SortAscending(s[..|s| - 1]);
      InsertAscending(SortByKey(s[..|s| - 1]), s[|s| - 1]);
      SortUnfold(s);
    }
  }

  /** The sort is stable: the elements of each key keep their order. */
  lemma {:induction false} SortStable(s: seq<Package>, n: nat)
    ensures WithKey(SortByKey(s), n) == WithKey(s, n)
    decreases |s|
  {
    if |s| > 0 {
      var rest := s[..|s| - 1];
      SortStable(rest, n);
      InsertWithKey(SortByKey(rest), s[|s| - 1], n);
      SortUnfold(s);
      WithKeySnoc(rest, s[|s| - 1], n);
    }
  }

  /** No element of t has the name of x. */
  predicate NameFree(t: seq<Package>, x: Package)
  {
    forall e :: e in t ==> e.name != x.name
  }

  /** Appending an element of a new name keeps the names distinct. */
  lemma AppendFreeDistinct(t: seq<Package>, x: Package)
    requires DistinctNames(t) && NameFree(t, x)
    ensures DistinctNames(t + [x])
  {
    var r := t + [x];
    forall a, b | 0 <= a < b < |r|
      ensures r[a].name != r[b].name
    {
      assert r[a] == t[a];
      if b < |t| {
        assert r[b] == t[b];
      } else {
        assert t[a] in t;
      }
    }
  }

  /** An element of a new name stays new in a list without its last element. */
  lemma NameFreeRest(t: seq<Package>, x: Package)
    requires |t| > 0 && NameFree(t, x)
    ensures NameFree(t[..|t| - 1], x)
  {
    forall e | e in t[..|t| - 1]
      ensures e.name != x.name
    {
      var c :| 0 <= c < |t| - 1 && t[c] == e;
      assert t[c] == e;
    }
  }

  /** Inserting an element of a new name keeps the names distinct. */
  lemma {:induction false} InsertDistinct(t: seq<Package>, x: Package)
    requires DistinctNames(t) && NameFree(t, x)
    ensures DistinctNames(Insert(t, x))
    decreases |t|
  {
    if |t| > 0 {
      var last := t[|t| - 1];
      var rest := t[..|t| - 1];
      if Key(last) <= Key(x) {
        AppendFreeDistinct(t, x);
      } else {
        NameFreeRest(t, x);
        InsertDistinct(rest, x);
        var r := Insert(rest, x);
        assert Insert(t, x) == r + [last];
        forall e | e in r
          ensures e.name != last.name
        {
          assert e in multiset(r);
          if e != x {
            assert e in multiset(rest);
            var c :| 0 <= c < |rest| && rest[c] == e;
            assert t[c] == e;
          } else {
            assert last in t;
          }
        }
        AppendFreeDistinct(r, last);
      }
    }
  }

  /** Sorting keeps the names distinct. */
  lemma {:induction false} SortDistinct(s: seq<Package>)
    requires DistinctNames(s)
    ensures DistinctNames(SortByKey(s))
    decreases |s|
  {
    if |s| > 0 {
      var rest := s[..|s| - 1];
      var x := s[|s| - 1];
      SortDistinct(rest);
      forall e | e in SortByKey(rest)
        ensures e.name != x.name
      {
        assert e in multiset(SortByKey(rest));
        var c :| 0 <= c < |rest| && rest[c] == e;
        assert s[c] == e;
      }
      InsertDistinct(SortByKey(rest), x);
    }
  }

  /** filtered_input_deps, sorted. */
  function Arrange(cands: seq<Package>): seq<Package>
  {
    SortByKey(DedupFrom(cands, 0, []))
  }

  /** The list PackageDescription.sorted returns. */
  function SortedPackages(input: seq<Package>): seq<Package>
  {
    Arrange(Candidates(input))
  }

  /** The output is ordered by number of dependencies: a stable permutation of filtered_input_deps. */
  lemma ArrangeSorted(cands: seq<Package>)
    ensures Ascending(Arrange(cands))
    ensures multiset(Arrange(cands)) == multiset(DedupFrom(cands, 0, []))
    ensures forall n :: WithKey(Arrange(cands), n) == WithKey(DedupFrom(cands, 0, []), n)
  {
    SortAscending(DedupFrom(cands, 0, []));
    forall n
      ensures WithKey(Arrange(cands), n) == WithKey(DedupFrom(cands, 0, []), n)
    {
      SortStable(DedupFrom(cands, 0, []), n);
    }
  }

  /** No two packages of the output have the same name. */
  lemma ArrangeDistinct(cands: seq<Package>)
    ensures DistinctNames(Arrange(cands))
  {
    DedupFromKeeps(cands, 0, []);
    SortDistinct(DedupFrom(cands, 0, []));
  }

  /**
   * Each package of the output has no build helper, feature or self among
   * its dependencies, and is the cleaned first candidate of its name.
   */
  lemma ArrangeMembers(cands: seq<Package>, p: Package)
    requires p in Arrange(cands)
    ensures Cleaned(p)
    ensures exists i :: 0 <= i < |cands| && FirstOf(cands, i) && p == Clean(cands[i])
  {
    var deduped := DedupFrom(cands, 0, []);
    DedupFromKeeps(cands, 0, []);
    assert p in multiset(SortByKey(deduped));
    var a :| 0 <= a < |deduped| && deduped[a] == p;
  }

  /** Every candidate that is not a build helper has a package of its name in the output. */
  lemma ArrangeCovers(cands: seq<Package>, i: nat)
    requires i < |cands| && cands[i].name !in WrongDependencies
    ensures exists p :: p in Arrange(cands) && p.name == cands[i].name
  {
    var deduped := DedupFrom(cands, 0, []);
    DedupFromKeeps(cands, 0, []);
    var a :| 0 <= a < |deduped| && Names(deduped)[a] == cands[i].name;
    assert deduped[a] in multiset(SortByKey(deduped));
  }

  /** The candidates without a feature: the input entries without one, with their merged dependencies. */
  lemma CandidateFeatureFree(input: seq<Package>, p: Package)
    ensures p in FeatureFree(MergeFrom(input, 0))
            <==> exists i :: 0 <= i < |input| && input[i].feature == "" && p == MergeFrom(input, 0)[i]
  {
    var merged := MergeFrom(input, 0);
    if p in FeatureFree(merged) {
      var i :| 0 <= i < |merged| && merged[i] == p;
    }
    if exists i :: 0 <= i < |input| && input[i].feature == "" && p == merged[i] {
      var i :| 0 <= i < |input| && input[i].feature == "" && p == merged[i];
      assert p in merged;
    }
  }

  /** The appended candidates: a package for each input entry with default features. */
  lemma CandidateBases(input: seq<Package>, p: Package)
    ensures p in Bases(MergeFrom(input, 0))
            <==> exists i :: 0 <= i < |input| && |input[i].defaultFeatures| != 0 && p == Base(MergeFrom(input, 0)[i])
  {
    var merged := MergeFrom(input, 0);
    if p in Bases(merged) {
      var q :| q in merged && |q.defaultFeatures| != 0 && p == Base(q);
      var i :| 0 <= i < |merged| && merged[i] == q;
    }
    if exists i :: 0 <= i < |input| && |input[i].defaultFeatures| != 0 && p == Base(merged[i]) {
      var i :| 0 <= i < |input| && |input[i].defaultFeatures| != 0 && p == Base(merged[i]);
      assert merged[i] in merged;
    }
  }

  /** The packages appended for a list with one more entry. */
  lemma BasesSnoc(ps: seq<Package>, p: Package)
    ensures Bases(ps + [p]) == Bases(ps) + (if |p.defaultFeatures| != 0 then [Base(p)] else [])
  {
    assert (ps + [p])[..|ps|] == ps;
  }

  lemma TakeSnoc<T>(s: seq<T>, j: nat)
    requires j < |s|
    ensures s[..j + 1] == s[..j] + [s[j]]
  {
  }

  /** Dropping the rest of a list after a step of the merge keeps the entries before j. */
  lemma MergedPrefix(pkgs: seq<Package>, next: seq<Package>, j: nat)
    requires j < |pkgs| == |next| && forall i :: 0 <= i < |pkgs| && i != j ==> next[i] == pkgs[i]
    ensures next[..j] == pkgs[..j]
  {
  }

  /** The innermost merge loop: entry j's list extended by that of each entry that is its feature `feature`. */
  method ExtendDependencies(pkgs: seq<Package>, j: nat, feature: string) returns (r: seq<Package>)
    requires j < |pkgs|
    ensures r == ExtendFrom(pkgs, j, feature, 0)
  {
    r := pkgs;
    for k := 0 to |r|
      invariant |r| == |pkgs| && r[j] == pkgs[j].(depends := r[j].depends)
      invariant ExtendFrom(r, j, feature, k) == ExtendFrom(pkgs, j, feature, 0)
    {
      if r[k].name == r[j].name && r[k].feature == feature {
        r := r[j := r[j].(depends := r[j].depends + r[k].depends)];
      }
    }
  }

  /** The loop over the default features of entry j. */
  method ExtendDefaults(pkgs: seq<Package>, j: nat) returns (r: seq<Package>)
    requires j < |pkgs|
    ensures r == ExtendFeatures(pkgs, j, 0)
  {
    r := pkgs;
    var features := pkgs[j].defaultFeatures;
    for f := 0 to |features|
      invariant |r| == |pkgs| && r[j].name == pkgs[j].name && r[j].defaultFeatures == features
      invariant ExtendFeatures(r, j, f) == ExtendFeatures(pkgs, j, 0)
    {
      r := ExtendDependencies(r, j, features[f]);
    }
  }

  /** One turn of the loop over the input: entry j takes in the dependencies of its default features, if it has any. */
  method MergeEntry(pkgs: seq<Package>, j: nat) returns (next: seq<Package>)
    requires j < |pkgs|
    ensures next == if |pkgs[j].defaultFeatures| != 0 then ExtendFeatures(pkgs, j, 0) else pkgs
    ensures |next| == |pkgs| && next[..j] == pkgs[..j] && next[j].defaultFeatures == pkgs[j].defaultFeatures
  {
    next := pkgs;
    if |pkgs[j].defaultFeatures| != 0 {
      next := ExtendDefaults(pkgs, j);
      MergedPrefix(pkgs, next, j);
    }
  }

  /** The loop over the input: the merge, and the package appended for each entry with default features. */
  method Merge(input: seq<Package>) returns (pkgs: seq<Package>, bases: seq<Package>)
    ensures pkgs == MergeFrom(input, 0) && bases == Bases(pkgs)
  {
    pkgs := input;
    bases := [];
    for j := 0 to |input|
      invariant |pkgs| == |input|
      invariant MergeFrom(pkgs, j) == MergeFrom(input, 0)
      invariant bases == Bases(pkgs[..j])
    {
      pkgs := MergeEntry(pkgs, j);
      if |pkgs[j].defaultFeatures| != 0 {
        bases := bases + [Base(pkgs[j])];
      }
      BasesSnoc(pkgs[..j], pkgs[j]);
      TakeSnoc(pkgs, j);
    }
    assert pkgs[..|input|] == pkgs;
  }

  /** The loop building filtered_input_deps. */
  method Dedup(filtered: seq<Package>) returns (deps: seq<Package>)
    ensures deps == DedupFrom(filtered, 0, [])
  {
    deps := [];
    for i := 0 to |filtered|
      invariant DedupFrom(filtered, i, deps) == DedupFrom(filtered, 0, [])
    {
      var inp := filtered[i];
      if inp.name !in WrongDependencies {
        var newPackage := Clean(inp);
        if newPackage.name !in Names(deps) {
          deps := deps + [newPackage];
        }
      }
    }
  }

  /**
   * PackageDescription.sorted: the merge updates the entries' lists in
   * place; filtered_input holds the feature-free entries by reference, so
   * they are read after it, followed by the appended packages.
   */
  method Sorted(input: seq<Package>) returns (out: seq<Package>)
    ensures out == SortedPackages(input)
  {
    var pkgs, bases := Merge(input);
    var deps := Dedup(FeatureFree(pkgs) + bases);
    out := SortByKey(deps);
  }

  // PackageDescription.__str__

  /**
   * __str__: the name, the version when there is one, and the comma
   * separated dependencies, which are there even when empty, joined with
   * colons.
   */
  function Str(p: Package): string
  {
    Strings.Join([p.name] + (if p.version != "" then [p.version] else []) + [JoinComma(p.depends)], ':')
  }

  /** The dependency field of a line: none when empty, else its comma separated parts. */
  function DependsOf(field: string): seq<string>
  {
    if field == "" then [] else Strings.Split(field, ',')
  }

  /** A line read back into name, version and dependencies; none when it has neither two nor three fields. */
  function Unstr(line: string): Option<(string, string, seq<string>)>
  {
    var fields := Strings.Split(line, ':');
    if |fields| == 2 then Some((fields[0], "", DependsOf(fields[1])))
    else if |fields| == 3 then Some((fields[0], fields[1], DependsOf(fields[2])))
    else None
  }

  /** A character in none of the parts, other than the separator, is not in their join. */
  lemma {:induction false} NotInJoin(parts: seq<string>, sep: char, c: char)
    requires |parts| >= 1 && c != sep && forall k :: 0 <= k < |parts| ==> c !in parts[k]
    ensures c !in Strings.Join(parts, sep)
    decreases |parts|
  {
    if |parts| > 1 {
      NotInJoin(parts[1..], sep, c);
      assert c !in parts[0] + [sep];
    }
  }

  /** The dependencies a line can carry without being misread. */
  predicate Printable(deps: seq<string>)
  {
    forall k :: 0 <= k < |deps| ==> deps[k] != "" && ':' !in deps[k] && ',' !in deps[k]
  }

  /** A package's line reads back as its name, version and dependencies. */
  lemma StrRoundTrip(p: Package)
    requires ':' !in p.name && ':' !in p.version && Printable(p.depends)
    ensures Unstr(Str(p)) == Some((p.name, p.version, p.depends))
  {
    var deps := JoinComma(p.depends);
    if |p.depends| > 0 {
      NotInJoin(p.depends, ',', ':');
      Strings.SplitJoin(p.depends, ',');
      assert p.depends[0] != "";
      assert deps != "" by {
        if |p.depends| > 1 {
          assert |Strings.Join(p.depends, ',')| >= |p.depends[0]|;
        }
      }
    }
    assert DependsOf(deps) == p.depends;
    var fields := [p.name] + (if p.version != "" then [p.version] else []) + [deps];
    assert forall k :: 0 <= k < |fields| ==> ':' !in fields[k];
    Strings.SplitJoin(fields, ':');
  }
}
