/** Bytes, bit strings and the fixed-width integers that the two Huffman
    containers store in their headers. */
module Bytes {

  /** One value of C's `unsigned char`. */
  type byte = x: int | 0 <= x < 256

  /** A value that may be absent (a NULL pointer, an end-of-file). */
  datatype Option<T> = None | Some(value: T)

  /** A C string that a `char` buffer of `capacity` bytes holds: one
      character per byte, none of them NUL, and room left for the NUL that
      ends it. */
  predicate FitsBuffer(s: string, capacity: nat)
  {
    |s| < capacity && forall k :: 0 <= k < |s| ==> 0 < s[k] as int < 256
  }

  function Pow2(n: nat): (r: nat)
    ensures r >= 1
  {
    if n == 0 then 1 else 2 * Pow2(n - 1)
  }

  /** Value of a bit string read most-significant bit first. */
  function BitsValue(bits: seq<bool>): (v: nat)
    ensures v < Pow2(|bits|)
  {
    if bits == [] then 0
    else 2 * BitsValue(bits[..|bits| - 1]) + (if bits[|bits| - 1] then 1 else 0)
  }

  /** Bit k of v, counted from the least significant: C's `(v >> k) & 1`. */
  function BitAt(v: nat, k: nat): bool
  {
    if k == 0 then v % 2 == 1 else BitAt(v / 2, k - 1)
  }

  /** The low n bits of v, most significant first: bit n-1 down to bit 0. */
  function LowBits(v: nat, n: nat): (bits: seq<bool>)
    ensures |bits| == n
    ensures forall i :: 0 <= i < n ==> bits[i] == BitAt(v, n - 1 - i)
  {
    seq(n, i requires 0 <= i < n => BitAt(v, n - 1 - i))
  }

  /** The eight bits of a byte in the order a reader takes them, bit 7 first. */
  function ByteBits(b: byte): (bits: seq<bool>)
    ensures |bits| == 8
  {
    LowBits(b, 8)
  }

  lemma {:induction false} BitAtAppend(bits: seq<bool>, b: bool, k: nat)
    ensures BitAt(BitsValue(bits + [b]), k + 1) == BitAt(BitsValue(bits), k)
    ensures BitAt(BitsValue(bits + [b]), 0) == b
  {
    assert (bits + [b])[..|bits|] == bits;
  }

  /** Reading back the bits of a value gives the bit string it was built
      from: LowBits inverts BitsValue. */
  lemma {:induction false} LowBitsOfValue(bits: seq<bool>)
    ensures LowBits(BitsValue(bits), |bits|) == bits
  {
    if bits != [] {
      var init := bits[..|bits| - 1];
      var last := bits[|bits| - 1];
      assert bits == init + [last];
      LowBitsOfValue(init);
      forall i | 0 <= i < |bits|
        ensures LowBits(BitsValue(bits), |bits|)[i] == bits[i]
      {
        if i == |bits| - 1 {
          BitAtAppend(init, last, 0);
        } else {
          BitAtAppend(init, last, |bits| - 1 - i - 1);
          assert LowBits(BitsValue(init), |init|)[i] == init[i];
        }
      }
    }
  }

  /** Appending n zero bits multiplies the value by 2^n (the flush padding). */
  lemma {:induction false} ValueOfPadded(bits: seq<bool>, n: nat)
    ensures BitsValue(bits + Zeros(n)) == BitsValue(bits) * Pow2(n)
  {
    if n == 0 {
      assert bits + Zeros(n) == bits;
    } else {
      var p := bits + Zeros(n - 1);
      assert bits + Zeros(n) == p + [false];
      assert (p + [false])[..|p|] == p;
      assert BitsValue(bits + Zeros(n)) == 2 * BitsValue(p);
      ValueOfPadded(bits, n - 1);
      MulAssoc2(BitsValue(bits), Pow2(n - 1));
    }
  }

  lemma MulAssoc2(a: nat, b: nat)
    ensures 2 * (a * b) == a * (2 * b)
  {
  }

  function Zeros(n: nat): (z: seq<bool>)
    ensures |z| == n
    ensures forall i :: 0 <= i < n ==> !z[i]
  {
    seq(n, _ => false)
  }

  // ---------------------------------------------------------------------
  // Fixed-width little-endian integers (x86-64 `unsigned short`, `int`, `long`)

  function Pow256(width: nat): (r: int)
    ensures r >= 1
  {
    if width == 0 then 1 else 256 * Pow256(width - 1)
  }

  /** The low `width` bytes of v, least significant first (what `fwrite(&v, width, 1, f)`
      stores on a little-endian machine). */
  function EncodeLE(v: nat, width: nat): (bs: seq<byte>)
    ensures |bs| == width
  {
    if width == 0 then [] else [v % 256] + EncodeLE(v / 256, width - 1)
  }

  /** The unsigned value of a little-endian byte string. */
  function DecodeLE(bs: seq<byte>): (v: nat)
    ensures v < Pow256(|bs|)
  {
    if bs == [] then 0 else bs[0] + 256 * DecodeLE(bs[1..])
  }

  /** Storing a value that fits and reading it back returns it. */
  lemma {:induction false} DecodeEncodeLE(v: nat, width: nat)
    requires v < Pow256(width)
    ensures DecodeLE(EncodeLE(v, width)) == v
  {
    if width > 0 {
      assert v / 256 < Pow256(width - 1);
      DecodeEncodeLE(v / 256, width - 1);
      assert EncodeLE(v, width)[1..] == EncodeLE(v / 256, width - 1);
    }
  }

  /** Two's-complement encoding of a signed C integer of `width` bytes. */
  function EncodeSigned(v: int, width: nat): (bs: seq<byte>)
    requires -Pow256(width) <= v
    ensures |bs| == width
  {
    EncodeLE(if v < 0 then v + Pow256(width) else v, width)
  }

  /** Two's-complement decoding of `width` bytes into a signed C integer. */
  function DecodeSigned(bs: seq<byte>): (v: int)
    requires |bs| > 0
    ensures -Pow256(|bs|) / 2 <= v < Pow256(|bs|) / 2
  {
    var u := DecodeLE(bs);
    if u >= Pow256(|bs|) / 2 then u - Pow256(|bs|) else u
  }

  /** A signed value in the range of a `width`-byte integer survives a store and load. */
  lemma DecodeEncodeSigned(v: int, width: nat)
    requires width > 0
    requires -Pow256(width) / 2 <= v < Pow256(width) / 2
    ensures DecodeSigned(EncodeSigned(v, width)) == v
  {
    DecodeEncodeLE(if v < 0 then v + Pow256(width) else v, width);
  }
}
