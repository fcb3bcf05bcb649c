// UTF-8 as TextInput uses it through utf8::is_valid, utf8::next, utf8::append
// and utf8::distance: the byte form of a sequence of Unicode scalar values,
// with the well-formedness rules of section 3.9 of The Unicode Standard
// (Table 3-7): no overlong forms, no surrogates, nothing above U+10FFFF.

module Utf8 {
  import opened Bytes
  import opened Wrappers

  /** A Unicode scalar value. */
  type CodePoint = c: nat | c < 0x11_0000 && !(0xD800 <= c < 0xE000)

  /** The length of the sequence a lead byte announces, 0 for a byte that cannot lead. */
  function SequenceLength(lead: u8): (n: nat)
    ensures n <= 4
  {
    if lead < 0x80 then 1
    else if lead / 32 == 6 then 2
    else if lead / 16 == 14 then 3
    else if lead / 8 == 30 then 4
    else 0
  }

  predicate IsContinuation(b: u8)
  {
    b / 64 == 2
  }

  /** The value the payload bits of an n-byte sequence spell. */
  function Payload(s: seq<u8>, n: nat): nat
    requires 1 <= n <= 4 && n <= |s|
  {
    var b0: nat := s[0];
    if n == 1 then b0
    else
      var b1: nat := s[1];
      if n == 2 then (b0 % 32) * 64 + b1 % 64
      else
        var b2: nat := s[2];
        if n == 3 then (b0 % 16) * 4096 + (b1 % 64) * 64 + b2 % 64
        else
          var b3: nat := s[3];
          (b0 % 8) * 262144 + (b1 % 64) * 4096 + (b2 % 64) * 64 + b3 % 64
  }

  /** The shortest length that can encode a value. */
  function MinimalLength(c: nat): nat
  {
    if c < 0x80 then 1 else if c < 0x800 then 2 else if c < 0x1_0000 then 3 else 4
  }

  /**
   * The first code point of the bytes and the number of bytes it takes, or
   * None for an invalid lead byte, a missing or wrong continuation byte, an
   * overlong form, a surrogate or a value above U+10FFFF.
   */
  function DecodeOne(s: seq<u8>): (r: Option<(CodePoint, nat)>)
    requires |s| > 0
    ensures r.Some? ==> 1 <= r.value.1 <= |s| && r.value.1 <= 4
  {
    var n := SequenceLength(s[0]);
    if n == 0 || |s| < n then None
    else if (n >= 2 && !IsContinuation(s[1])) || (n >= 3 && !IsContinuation(s[2])) || (n >= 4 && !IsContinuation(s[3])) then None
    else
      var c := Payload(s, n);
      if c >= 0x11_0000 || 0xD800 <= c < 0xE000 || MinimalLength(c) != n then None
      else Some((c, n))
  }

  /** The code points of a byte string, or None when it is not well-formed UTF-8. */
  function Decode(s: seq<u8>): (r: Option<seq<CodePoint>>)
    ensures r.Some? ==> |r.value| <= |s|
    decreases |s|
  {
    if |s| == 0 then Some([])
    else match DecodeOne(s)
      case None => None
      case Some((c, n)) =>
        match Decode(s[n..])
        case None => None
        case Some(rest) => Some([c] + rest)
  }

  /** utf8::is_valid. */
  predicate IsValid(s: seq<u8>)
  {
    Decode(s).Some?
  }

  /** utf8::distance: the number of code points. */
  function Distance(s: seq<u8>): nat
    requires IsValid(s)
  {
    |Decode(s).value|
  }

  /** utf8::append: the bytes of one code point. */
  function Encode(c: CodePoint): (r: seq<u8>)
    ensures |r| == MinimalLength(c)
  {
    if c < 0x80 then [c]
    else if c < 0x800 then [0xC0 + c / 64, 0x80 + c % 64]
    else if c < 0x1_0000 then [0xE0 + c / 4096, 0x80 + (c / 64) % 64, 0x80 + c % 64]
    else [0xF0 + c / 262144, 0x80 + (c / 4096) % 64, 0x80 + (c / 64) % 64, 0x80 + c % 64]
  }

  /** The bytes of a sequence of code points, one after the other. */
  function EncodeAll(cs: seq<CodePoint>): (r: seq<u8>)
    ensures |cs| <= |r|
  {
    if |cs| == 0 then [] else Encode(cs[0]) + EncodeAll(cs[1..])
  }

  // ----- the two directions of the encoding -----

  /** The bytes of a code point decode to it, whatever follows them. */
  lemma DecodeEncodeOne(c: CodePoint, rest: seq<u8>)
    ensures DecodeOne(Encode(c) + rest) == Some((c, |Encode(c)|))
  {
    if c < 0x80 {
      assert (Encode(c) + rest)[0] == c;
    } else if c < 0x800 {
      DecodeTwo(c, rest);
    } else if c < 0x1_0000 {
      DecodeThree(c, rest);
    } else {
      DecodeFour(c, rest);
    }
  }

  lemma DecodeTwo(c: CodePoint, rest: seq<u8>)
    requires 0x80 <= c < 0x800
    ensures DecodeOne(Encode(c) + rest) == Some((c, 2))
  {
    var s := Encode(c) + rest;
    assert s[0] == 0xC0 + c / 64 && s[1] == 0x80 + c % 64;
    assert SequenceLength(s[0]) == 2 && IsContinuation(s[1]);
    assert Payload(s, 2) == c;
  }

  lemma DecodeThree(c: CodePoint, rest: seq<u8>)
    requires 0x800 <= c < 0x1_0000
    ensures DecodeOne(Encode(c) + rest) == Some((c, 3))
  {
    var s := Encode(c) + rest;
    assert s[0] == 0xE0 + c / 4096 && s[1] == 0x80 + (c / 64) % 64 && s[2] == 0x80 + c % 64;
    assert SequenceLength(s[0]) == 3 && IsContinuation(s[1]) && IsContinuation(s[2]);
    ThreeBytes(c);
    assert Payload(s, 3) == c;
  }

  lemma DecodeFour(c: CodePoint, rest: seq<u8>)
    requires 0x1_0000 <= c
    ensures DecodeOne(Encode(c) + rest) == Some((c, 4))
  {
    var s := Encode(c) + rest;
    FourBytes(c);
    assert s[0] == 0xF0 + c / 262144 && s[1] == 0x80 + (c / 4096) % 64;
    assert s[2] == 0x80 + (c / 64) % 64 && s[3] == 0x80 + c % 64;
    assert SequenceLength(s[0]) == 4 && IsContinuation(s[1]) && IsContinuation(s[2]) && IsContinuation(s[3]);
    assert Payload(s, 4) == c;
  }

  lemma ThreeBytes(c: nat)
    requires 0x800 <= c < 0x1_0000
    ensures (c / 4096) * 4096 + ((c / 64) % 64) * 64 + c % 64 == c
  {
    assert c == (c / 64) * 64 + c % 64;
    assert c / 64 == (c / 4096) * 64 + (c / 64) % 64;
  }

  lemma FourBytes(c: nat)
    requires 0x1_0000 <= c < 0x11_0000
    ensures c / 262144 < 5
    ensures (c / 262144) * 262144 + ((c / 4096) % 64) * 4096 + ((c / 64) % 64) * 64 + c % 64 == c
  {
    assert c == (c / 64) * 64 + c % 64;
    assert c / 64 == (c / 4096) * 64 + (c / 64) % 64;
    assert c / 4096 == (c / 262144) * 64 + (c / 4096) % 64;
  }

  /** The bytes of a sequence of code points decode back to exactly that sequence. */
  lemma {:induction false} DecodeEncode(cs: seq<CodePoint>)
    ensures Decode(EncodeAll(cs)) == Some(cs)
  {
    if |cs| > 0 {
      var s := EncodeAll(cs);
      var head := Encode(cs[0]);
      DecodeEncodeOne(cs[0], EncodeAll(cs[1..]));
      assert s[|head|..] == EncodeAll(cs[1..]);
      DecodeEncode(cs[1..]);
      assert Decode(s) == Some([cs[0]] + cs[1..]);
      assert [cs[0]] + cs[1..] == cs;
    }
  }

  /** The bytes a decoded code point took are the encoding of that code point. */
  lemma EncodeDecodeOne(s: seq<u8>)
    requires |s| > 0 && DecodeOne(s).Some?
    ensures s[..DecodeOne(s).value.1] == Encode(DecodeOne(s).value.0)
  {
    var (c, n) := DecodeOne(s).value;
    if n == 2 {
      assert s[0] / 32 == 6 && s[1] / 64 == 2;
      assert c / 64 == s[0] % 32 && c % 64 == s[1] % 64;
      assert s[..2] == [s[0], s[1]];
    } else if n == 3 {
      assert s[0] / 16 == 14 && s[1] / 64 == 2 && s[2] / 64 == 2;
      ThreeBytesBack(s[0] % 16, s[1] % 64, s[2] % 64, c);
      assert s[..3] == [s[0], s[1], s[2]];
    } else if n == 4 {
      assert s[0] / 8 == 30 && s[1] / 64 == 2 && s[2] / 64 == 2 && s[3] / 64 == 2;
      FourBytesBack(s[0] % 8, s[1] % 64, s[2] % 64, s[3] % 64, c);
      assert s[..4] == [s[0], s[1], s[2], s[3]];
    }
  }

  lemma ThreeBytesBack(a: nat, b: nat, d: nat, c: nat)
    requires b < 64 && d < 64 && c == a * 4096 + b * 64 + d
    ensures c / 4096 == a && (c / 64) % 64 == b && c % 64 == d
  {
    assert c == (a * 64 + b) * 64 + d;
    assert c / 64 == a * 64 + b;
  }

  lemma FourBytesBack(a: nat, b: nat, d: nat, e: nat, c: nat)
    requires b < 64 && d < 64 && e < 64 && c == a * 262144 + b * 4096 + d * 64 + e
    ensures c / 262144 == a && (c / 4096) % 64 == b && (c / 64) % 64 == d && c % 64 == e
  {
    assert c == ((a * 64 + b) * 64 + d) * 64 + e;
    assert c / 64 == (a * 64 + b) * 64 + d;
    assert c / 4096 == a * 64 + b;
  }

  /** A well-formed byte string is the encoding of what it decodes to: the encoding is onto the valid strings. */
  lemma {:induction false} EncodeDecode(s: seq<u8>)
    requires IsValid(s)
    ensures EncodeAll(Decode(s).value) == s
    decreases |s|
  {
    if |s| > 0 {
      var c, n := DecodeUnfold(s);
      var tail := Decode(s[n..]).value;
      EncodeDecode(s[n..]);
      EncodeAllCons(c, tail);
      SplitAt(s, n);
    }
  }

  /** A non-empty well-formed string is its first code point, then a well-formed rest. */
  lemma DecodeUnfold(s: seq<u8>) returns (c: CodePoint, n: nat)
    requires |s| > 0 && IsValid(s)
    ensures 1 <= n <= |s| && IsValid(s[n..]) && s[..n] == Encode(c)
    ensures Decode(s).value == [c] + Decode(s[n..]).value
  {
    c, n := DecodeOne(s).value.0, DecodeOne(s).value.1;
    EncodeDecodeOne(s);
  }

  lemma EncodeAllCons(c: CodePoint, tail: seq<CodePoint>)
    ensures EncodeAll([c] + tail) == Encode(c) + EncodeAll(tail)
  {
    assert ([c] + tail)[1..] == tail;
  }

  lemma SplitAt<T>(s: seq<T>, n: nat)
    requires n <= |s|
    ensures s == s[..n] + s[n..]
  {
  }

  /** The bytes of two sequences of code points, one after the other. */
  lemma {:induction false} EncodeAllConcat(a: seq<CodePoint>, b: seq<CodePoint>)
    ensures EncodeAll(a + b) == EncodeAll(a) + EncodeAll(b)
  {
    if |a| > 0 {
      assert (a + b)[1..] == a[1..] + b;
      EncodeAllConcat(a[1..], b);
    } else {
      assert a + b == b;
    }
  }

  /** Every code point takes one to four bytes, so a string has at most as many code points as bytes. */
  lemma DistanceBound(s: seq<u8>)
    requires IsValid(s)
    ensures Distance(s) <= |s| && (Distance(s) == 0 <==> |s| == 0)
  {
  }
}
