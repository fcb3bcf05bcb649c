// Fixed-width unsigned integers, their little-endian byte layout and the
// byte-order helpers of src/libs/core/helper/utils.hpp.

module Bytes {

  type u8 = x: int | 0 <= x < 0x100
  type u16 = x: int | 0 <= x < 0x1_0000
  type u32 = x: int | 0 <= x < 0x1_0000_0000
  type u64 = x: int | 0 <= x < 0x1_0000_0000_0000_0000
  type i8 = x: int | -0x80 <= x < 0x80
  type i32 = x: int | -0x8000_0000 <= x < 0x8000_0000
  type i64 = x: int | -0x8000_0000_0000_0000 <= x < 0x8000_0000_0000_0000

  const U32Limit: nat := 0x1_0000_0000

  /** static_cast<u32> of a size: the value modulo 2^32. */
  function U32Cast(n: nat): (r: u32)
    ensures n < U32Limit ==> r == n
  {
    n % U32Limit
  }

  /** u32 arithmetic: the mathematical result modulo 2^32. */
  function Wrap32(n: int): (r: u32)
    ensures 0 <= n < U32Limit ==> r == n
  {
    n % U32Limit
  }

  /** 256 to the power n: the number of values of an n-byte unsigned integer. */
  function Pow256(n: nat): (r: nat)
    ensures r >= 1
  {
    if n == 0 then 1 else 256 * Pow256(n - 1)
  }

  /** The value ranges of the 1-, 2-, 4- and 8-byte integers. */
  lemma Pow256Widths()
    ensures Pow256(1) == 0x100 && Pow256(2) == 0x1_0000
    ensures Pow256(4) == 0x1_0000_0000 && Pow256(8) == 0x1_0000_0000_0000_0000
  {
  }

  /** The n bytes of x, least significant first (the layout on a little-endian host). */
  function ToLE(x: nat, n: nat): (r: seq<u8>)
    ensures |r| == n
  {
    if n == 0 then [] else [x % 256] + ToLE(x / 256, n - 1)
  }

  /** The unsigned number whose least significant byte comes first. */
  function FromLE(b: seq<u8>): (r: nat)
    ensures r < Pow256(|b|)
  {
    if |b| == 0 then 0 else b[0] + 256 * FromLE(b[1..])
  }

  /** The unsigned number whose most significant byte comes first. */
  function FromBE(b: seq<u8>): (r: nat)
  {
    if |b| == 0 then 0 else FromBE(b[..|b| - 1]) * 256 + b[|b| - 1]
  }

  function Reverse<T>(s: seq<T>): (r: seq<T>)
    ensures |r| == |s|
    ensures forall i :: 0 <= i < |s| ==> r[i] == s[|s| - 1 - i]
  {
    if |s| == 0 then [] else Reverse(s[1..]) + [s[0]]
  }

  /** The slice holding a + b holds a, then b; la and lb name their lengths. */
  lemma SliceSplit<T>(data: seq<T>, pos: nat, a: seq<T>, b: seq<T>, la: nat, lb: nat)
    requires la == |a| && lb == |b|
    requires pos + la + lb <= |data| && data[pos..pos + la + lb] == a + b
    ensures data[pos..pos + la] == a
    ensures data[pos + la..pos + la + lb] == b
  {
    assert data[pos..pos + la] == (a + b)[..la];
    assert data[pos + la..pos + la + lb] == (a + b)[la..];
  }

  lemma ReverseReverse<T>(s: seq<T>)
    ensures Reverse(Reverse(s)) == s
  {
    assert Reverse(Reverse(s)) == s;
  }

  lemma {:induction false} FromToLE(x: nat, n: nat)
    requires x < Pow256(n)
    ensures FromLE(ToLE(x, n)) == x
  {
    if n > 0 {
      FromToLE(x / 256, n - 1);
      assert ToLE(x, n)[1..] == ToLE(x / 256, n - 1);
    }
  }

  lemma {:induction false} ToFromLE(b: seq<u8>)
    ensures ToLE(FromLE(b), |b|) == b
  {
    if |b| > 0 {
      var x := FromLE(b);
      assert x % 256 == b[0] && x / 256 == FromLE(b[1..]);
      ToFromLE(b[1..]);
    }
  }

  lemma ToLEOne(x: nat)
    requires x < 256
    ensures ToLE(x, 1) == [x]
  {
  }

  /** Two numbers below 256^n with the same n-byte layout are equal. */
  lemma ToLEInjective(x: nat, y: nat, n: nat)
    requires x < Pow256(n) && y < Pow256(n)
    requires ToLE(x, n) == ToLE(y, n)
    ensures x == y
  {
    FromToLE(x, n);
    FromToLE(y, n);
  }

  lemma {:induction false} FromBEIsReversedLE(b: seq<u8>)
    ensures FromBE(b) == FromLE(Reverse(b))
  {
    if |b| > 0 {
      var init := b[..|b| - 1];
      FromBEIsReversedLE(init);
      assert Reverse(b) == [b[|b| - 1]] + Reverse(init);
      assert Reverse(b)[1..] == Reverse(init);
    }
  }

  /** The value whose n-byte layout is that of x in reverse order. */
  function Swapped(x: nat, n: nat): (r: nat)
    ensures r < Pow256(n)
  {
    FromLE(Reverse(ToLE(x, n)))
  }

  lemma SwappedLayout(x: nat, n: nat)
    ensures ToLE(Swapped(x, n), n) == Reverse(ToLE(x, n))
  {
    ToFromLE(Reverse(ToLE(x, n)));
  }

  /** Swapping twice gives back the original value. */
  lemma SwappedInvolution(x: nat, n: nat)
    requires x < Pow256(n)
    ensures Swapped(Swapped(x, n), n) == x
  {
    SwappedLayout(x, n);
    ReverseReverse(ToLE(x, n));
    FromToLE(x, n);
  }

  /** On a one-byte type the swap changes nothing. */
  lemma SwappedOneByte(x: nat)
    requires x < 256
    ensures Swapped(x, 1) == x
  {
    assert ToLE(x, 1) == [x];
    assert Reverse([x]) == [x];
    assert FromLE([x]) == x + 256 * FromLE([]);
  }

  /**
   * byte_swap: shifts the result left by one byte and moves the lowest byte of
   * the value into it, once per byte of the type.
   */
  method ByteSwap(value: nat, size: nat) returns (result: nat)
    requires value < Pow256(size)
    ensures result < Pow256(size)
    ensures ToLE(result, size) == Reverse(ToLE(value, size))
  {
    result := 0;
    var v := value;
    var i := 0;
    while i < size
      invariant i <= size
      invariant ToLE(v, size - i) == ToLE(value, size)[i..]
      invariant result == FromBE(ToLE(value, size)[..i])
    {
      assert ToLE(value, size)[..i + 1][..i] == ToLE(value, size)[..i];
      assert ToLE(value, size)[i..][1..] == ToLE(value, size)[i + 1..];
      result := result * 256 + v % 256;
      v := v / 256;
      i := i + 1;
    }
    assert ToLE(value, size)[..size] == ToLE(value, size);
    FromBEIsReversedLE(ToLE(value, size));
    SwappedLayout(value, size);
  }

  /** to_little_endian: the identity on a little-endian host, a byte swap otherwise. */
  function ToLittleEndian(hostIsLittle: bool, x: nat, n: nat): nat
  {
    if hostIsLittle then x else Swapped(x, n)
  }

  /** from_little_endian is the same conversion as to_little_endian. */
  function FromLittleEndian(hostIsLittle: bool, x: nat, n: nat): nat
  {
    ToLittleEndian(hostIsLittle, x, n)
  }

  /** The bytes a host keeps in memory for an n-byte value. */
  function MemoryBytes(hostIsLittle: bool, x: nat, n: nat): (r: seq<u8>)
    ensures |r| == n
  {
    if hostIsLittle then ToLE(x, n) else Reverse(ToLE(x, n))
  }

  lemma LittleEndianRoundTrip(hostIsLittle: bool, x: nat, n: nat)
    requires x < Pow256(n)
    ensures FromLittleEndian(hostIsLittle, ToLittleEndian(hostIsLittle, x, n), n) == x
  {
    if !hostIsLittle {
      SwappedInvolution(x, n);
    }
  }

  /** Whatever the host, the memory of a converted value is the little-endian layout. */
  lemma ToLittleEndianLayout(hostIsLittle: bool, x: nat, n: nat)
    requires x < Pow256(n)
    ensures MemoryBytes(hostIsLittle, ToLittleEndian(hostIsLittle, x, n), n) == ToLE(x, n)
  {
    if !hostIsLittle {
      SwappedLayout(x, n);
      ReverseReverse(ToLE(x, n));
    }
  }

  /** Reading n host bytes and converting from little endian yields the little-endian value. */
  lemma FromLittleEndianOfMemory(hostIsLittle: bool, b: seq<u8>)
    ensures FromLittleEndian(hostIsLittle, FromLE(if hostIsLittle then b else Reverse(b)), |b|) == FromLE(b)
  {
    if !hostIsLittle {
      var x := FromLE(b);
      ToFromLE(b);
      ReverseReverse(b);
      assert Swapped(FromLE(Reverse(b)), |b|) == FromLE(Reverse(ToLE(FromLE(Reverse(b)), |b|)));
      ToFromLE(Reverse(b));
    }
  }

  // Two's complement views used for the signed payloads.

  /** The signed value of an n-byte pattern. */
  function SignedFromUnsigned(x: nat, n: nat): (r: int)
    requires x < Pow256(n)
    ensures -(Pow256(n) as int) <= 2 * r < Pow256(n)
  {
    if 2 * x >= Pow256(n) then x - Pow256(n) else x
  }

  /** The n-byte pattern of a signed value in range. */
  function UnsignedFromSigned(x: int, n: nat): (r: nat)
    requires -(Pow256(n) as int) <= 2 * x < Pow256(n)
    ensures r < Pow256(n)
    ensures SignedFromUnsigned(r, n) == x
  {
    if x < 0 then x + Pow256(n) else x
  }
}
