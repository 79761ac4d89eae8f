/** The per-session bit writer and bit reader of huffman_coding.c (its `BitFile`).
    Bits travel most-significant first: the first bit written becomes bit 7 of the
    first byte. The writer's flush pads the last partial byte with zero bits. */
module BitIO {
  import opened Bytes

  // ---------------------------------------------------------------------
  // Reference definitions: packing a bit string into bytes and back

  /** The bytes that hold `bits` MSB-first, the last one zero-padded: one
      byte per eight bits, rounding up. */
  function Pack(bits: seq<bool>): (bytes: seq<byte>)
    ensures |bits| <= 8 * |bytes| < |bits| + 8
    decreases |bits|
  {
    if |bits| == 0 then []
    else if |bits| < 8 then
      ShortByte(bits);
      [ShiftLeft(BitsValue(bits), 8 - |bits|)]
    else
      PaddedByte(bits[..8]);
      [BitsValue(bits[..8])] + Pack(bits[8..])
  }

  /** The bits of a byte stream in reading order. */
  function Unpack(bytes: seq<byte>): (bits: seq<bool>)
    ensures |bits| == 8 * |bytes|
  {
    if bytes == [] then [] else ByteBits(bytes[0]) + Unpack(bytes[1..])
  }

  /** Number of zero bits the flush appends after `n` bits: fewer than a
      byte, and enough to end on a byte boundary. */
  function PadLength(n: nat): (p: nat)
    ensures p < 8 && (n + p) % 8 == 0
  {
    (8 - n % 8) % 8
  }

  lemma {:induction false} PackAppend(a: seq<bool>, b: seq<bool>)
    requires |a| % 8 == 0
    ensures Pack(a + b) == Pack(a) + Pack(b)
    decreases |a|
  {
    if |a| > 0 {
      assert (a + b)[..8] == a[..8];
      assert (a + b)[8..] == a[8..] + b;
      PackAppend(a[8..], b);
    } else {
      assert a + b == b;
    }
  }

  lemma {:induction false} UnpackAppend(a: seq<byte>, b: seq<byte>)
    ensures Unpack(a + b) == Unpack(a) + Unpack(b)
  {
    if a == [] {
      assert a + b == b;
    } else {
      assert (a + b)[1..] == a[1..] + b;
      UnpackAppend(a[1..], b);
    }
  }

  /** Unpacking packed bits gives them back followed only by the zero padding. */
  lemma {:induction false} UnpackPack(bits: seq<bool>)
    ensures Unpack(Pack(bits)) == bits + Zeros(PadLength(|bits|))
    decreases |bits|
  {
    if |bits| == 0 {
    } else if |bits| < 8 {
      UnpackShort(bits);
    } else {
      UnpackPack(bits[8..]);
      UnpackLong(bits);
    }
  }

  lemma UnpackShort(bits: seq<bool>)
    requires 0 < |bits| < 8
    ensures Unpack(Pack(bits)) == bits + Zeros(PadLength(|bits|))
  {
    ShortUnpacks(bits, 8 - |bits|);
    PadShort(|bits|);
  }

  /** The left-aligned byte of fewer than eight bits unpacks to them and
      the zero padding. */
  lemma ShortUnpacks(bits: seq<bool>, k: nat)
    requires |bits| + k == 8
    ensures ShiftLeft(BitsValue(bits), k) < 256
    ensures Unpack([ShiftLeft(BitsValue(bits), k)]) == bits + Zeros(k)
  {
    PaddedShift(bits, k);
    UnpackOne(bits + Zeros(k));
  }

  /** The byte holding eight bits unpacks to those eight bits. */
  lemma UnpackOne(bits: seq<bool>)
    requires |bits| == 8
    ensures BitsValue(bits) < 256 && Unpack([BitsValue(bits)]) == bits
  {
    ByteBitsOfValue(bits);
    UnpackSingle(BitsValue(bits));
  }

  lemma PadShort(n: nat)
    requires 0 < n < 8
    ensures PadLength(n) == 8 - n
  {
  }

  lemma PadShift(n: nat)
    requires n >= 8
    ensures PadLength(n - 8) == PadLength(n)
  {
  }

  /** The first eight bits are packed into the first byte and read back
      from it. */
  lemma UnpackHead(bits: seq<bool>)
    requires |bits| >= 8
    ensures Unpack(Pack(bits)) == bits[..8] + Unpack(Pack(bits[8..]))
  {
    var head := BitsValue(bits[..8]);
    PackLong(bits);
    UnpackOne(bits[..8]);
    UnpackAppend([head], Pack(bits[8..]));
  }

  lemma UnpackLong(bits: seq<bool>)
    requires |bits| >= 8
    requires Unpack(Pack(bits[8..])) == bits[8..] + Zeros(PadLength(|bits| - 8))
    ensures Unpack(Pack(bits)) == bits + Zeros(PadLength(|bits|))
  {
    var pad := Zeros(PadLength(|bits|));
    UnpackHead(bits);
    PadShift(|bits|);
    SplitAppend(bits, 8, pad);
  }

  lemma SplitAppend<T>(a: seq<T>, k: nat, c: seq<T>)
    requires k <= |a|
    ensures a[..k] + (a[k..] + c) == a + c
  {
    assert a == a[..k] + a[k..];
  }

  lemma UnpackSingle(x: byte)
    ensures Unpack([x]) == ByteBits(x)
  {
    assert [x][1..] == [];
  }

  /** Eight bits make a byte whose bits, read back, are the same eight. */
  lemma ByteBitsOfValue(bits: seq<bool>)
    requires |bits| == 8
    ensures BitsValue(bits) < 256 && ByteBits(BitsValue(bits)) == bits
  {
    LowBitsOfValue(bits);
    Pow2Eight();
  }

  lemma PaddedByte(bits: seq<bool>)
    requires |bits| == 8
    ensures BitsValue(bits) < 256
  {
    Pow2Eight();
  }

  lemma Pow2Eight()
    ensures Pow2(8) == 256
  {
  }

  /** Fewer than eight bits, left-aligned, still make a byte. */
  lemma ShortByte(bits: seq<bool>)
    requires |bits| < 8
    ensures ShiftLeft(BitsValue(bits), 8 - |bits|) < 256
  {
    PaddedShiftByte(bits, 8 - |bits|);
  }

  lemma PaddedShiftByte(bits: seq<bool>, k: nat)
    requires |bits| + k == 8
    ensures ShiftLeft(BitsValue(bits), k) < 256
  {
    PaddedShift(bits, k);
    PaddedByte(bits + Zeros(k));
  }

  lemma PackLong(bits: seq<bool>)
    requires |bits| >= 8
    ensures Pack(bits) == [BitsValue(bits[..8])] + Pack(bits[8..])
  {
  }

  // ---------------------------------------------------------------------
  // Writer (initBitFileWrite, writeBit, flushBitFile)

  /** Bytes emitted so far, the partial byte and how many of its bits are used. */
  datatype BitWriter = BitWriter(out: seq<byte>, buffer: byte, count: nat)

  /** initBitFileWrite: nothing emitted, empty buffer. */
  const NewWriter := BitWriter([], 0, 0)

  /** writeBit: shift the bit in; after the eighth bit emit the byte and reset. */
  function WriteBit(w: BitWriter, bit: bool): (r: BitWriter)
    requires w.count < 8
    ensures r.count == (w.count + 1) % 8
    ensures w.out <= r.out && |r.out| == |w.out| + (w.count + 1) / 8
  {
    var buffer := (2 * w.buffer + (if bit then 1 else 0)) % 256;
    if w.count + 1 == 8 then BitWriter(w.out + [buffer], 0, 0)
    else BitWriter(w.out, buffer, w.count + 1)
  }

  /** A sequence of writeBit calls, first bit first: the bytes emitted so far
      are kept, one byte is added per eight bits and the rest stay pending. */
  function WriteBits(w: BitWriter, bits: seq<bool>): (r: BitWriter)
    requires w.count < 8
    ensures r.count == (w.count + |bits|) % 8
    ensures w.out <= r.out && |r.out| == |w.out| + (w.count + |bits|) / 8
    decreases |bits|
  {
    if bits == [] then w else WriteBits(WriteBit(w, bits[0]), bits[1..])
  }

  /** C's `v << k` on unbounded integers. */
  function ShiftLeft(v: nat, k: nat): nat
    decreases k
  {
    if k == 0 then v else ShiftLeft(2 * v, k - 1)
  }

  /** flushBitFile: the bytes in the file once the pending bits, if any, are
      emitted left-aligned with zero padding. */
  function Flush(w: BitWriter): (out: seq<byte>)
    requires w.count < 8
    ensures w.count == 0 ==> out == w.out
    ensures w.count > 0 ==> |out| == |w.out| + 1 && out[..|w.out|] == w.out
  {
    if w.count > 0 then w.out + [ShiftLeft(w.buffer, 8 - w.count) % 256] else w.out
  }

  /** The writer state after `written` has gone through it: the complete bytes
      are packed, the remaining |written| % 8 bits sit in the buffer. */
  ghost predicate Holds(w: BitWriter, written: seq<bool>)
  {
    var full := |written| - |written| % 8;
    && w.count == |written| % 8
    && w.out == Pack(written[..full])
    && w.buffer == BitsValue(written[full..])
  }

  lemma WriteBitHolds(w: BitWriter, written: seq<bool>, bit: bool)
    requires Holds(w, written)
    ensures Holds(WriteBit(w, bit), written + [bit])
  {
    if w.count == 7 {
      WriteBitComplete(w, written, bit);
    } else {
      WriteBitPartial(w, written, bit);
    }
  }

  lemma WriteBitPartial(w: BitWriter, written: seq<bool>, bit: bool)
    requires Holds(w, written) && w.count < 7
    ensures Holds(WriteBit(w, bit), written + [bit])
  {
    var full := |written| - |written| % 8;
    var tail := written[full..];
    ModStep(|written|);
    ShiftIn(tail, bit, w.buffer);
    PartialByte(written, bit, full, tail);
  }

  lemma ModStep(n: nat)
    ensures (n + 1) % 8 == if n % 8 == 7 then 0 else n % 8 + 1
    ensures n % 8 == 7 ==> n + 1 - (n + 1) % 8 == n + 1
    ensures n % 8 < 7 ==> n + 1 - (n + 1) % 8 == n - n % 8
  {
  }

  /** Shifting a bit into the buffer appends it to the pending bits. */
  lemma ShiftIn(tail: seq<bool>, bit: bool, buffer: byte)
    requires |tail| < 8 && buffer == BitsValue(tail)
    ensures BitsValue(tail + [bit]) == 2 * buffer + (if bit then 1 else 0)
    ensures |tail| < 7 ==> (2 * buffer + (if bit then 1 else 0)) % 256 == 2 * buffer + (if bit then 1 else 0)
  {
    assert (tail + [bit])[..|tail|] == tail;
    if |tail| < 7 {
      Pow2Bound(|tail| + 1);
      Pow2Mono(|tail| + 1);
    }
  }

  lemma Pow2Mono(k: nat)
    requires k <= 7
    ensures Pow2(k) <= 128
    decreases 7 - k
  {
    if k < 7 {
      Pow2Mono(k + 1);
    } else {
      assert Pow2(7) == 128;
    }
  }

  lemma WriteBitComplete(w: BitWriter, written: seq<bool>, bit: bool)
    requires Holds(w, written) && w.count == 7
    ensures Holds(WriteBit(w, bit), written + [bit])
  {
    var full := |written| - 7;
    var tail := written[full..];
    ModStep(|written|);
    ShiftIn(tail, bit, w.buffer);
    var v := BitsValue(tail + [bit]);
    PaddedByte(tail + [bit]);
    ModSmall(v);
    assert WriteBit(w, bit) == BitWriter(w.out + [v], 0, 0);
    CompleteByte(written, bit, full, tail, v);
    var ws := written + [bit];
    assert ws[..|ws|] == ws;
    assert ws[|ws|..] == [];
  }

  /** Eight bits pack into the one byte they spell. */
  lemma PackByte(bits: seq<bool>)
    requires |bits| == 8
    ensures Pack(bits) == [BitsValue(bits)]
  {
    PackLong(bits);
    assert bits[..8] == bits && bits[8..] == [];
  }

  lemma CompleteByte(written: seq<bool>, bit: bool, full: nat, tail: seq<bool>, v: nat)
    requires full == |written| - |written| % 8 && tail == written[full..]
    requires |tail| == 7 && v == BitsValue(tail + [bit])
    ensures Pack(written + [bit]) == Pack(written[..full]) + [v]
  {
    var ws := written + [bit];
    var last := tail + [bit];
    FullBytes(|written|);
    assert |written[..full]| % 8 == 0;
    assert written == written[..full] + tail;
    assert ws == written[..full] + last;
    PackAppend(written[..full], last);
    PackByte(last);
  }

  lemma PartialByte(written: seq<bool>, bit: bool, full: nat, tail: seq<bool>)
    requires full == |written| - |written| % 8 && tail == written[full..]
    requires |tail| < 7
    ensures |written + [bit]| % 8 == |tail| + 1
    ensures (written + [bit])[..full] == written[..full]
    ensures (written + [bit])[full..] == tail + [bit]
  {
  }

  lemma Pow2Bound(k: nat)
    requires k <= 8
    ensures Pow2(k) <= 256
    decreases 8 - k
  {
    if k < 8 {
      Pow2Bound(k + 1);
    } else {
      assert Pow2(8) == 256;
    }
  }

  lemma {:induction false} WriteBitsHolds(w: BitWriter, written: seq<bool>, bits: seq<bool>)
    requires Holds(w, written)
    ensures Holds(WriteBits(w, bits), written + bits)
    decreases |bits|
  {
    if bits != [] {
      WriteBitHolds(w, written, bits[0]);
      WriteBitsHolds(WriteBit(w, bits[0]), written + [bits[0]], bits[1..]);
      assert written + [bits[0]] + bits[1..] == written + bits;
    } else {
      assert written + bits == written;
    }
  }

  lemma FlushHolds(w: BitWriter, written: seq<bool>)
    requires Holds(w, written)
    ensures Flush(w) == Pack(written)
  {
    var full := |written| - |written| % 8;
    FullBytes(|written|);
    assert written == written[..full] + written[full..];
    FlushParts(w, written[..full], written[full..]);
  }

  lemma FullBytes(n: nat)
    ensures (n - n % 8) % 8 == 0 && n % 8 < 8
  {
  }

  /** Flushing a writer whose output packs `head` and whose buffer holds
      the short `tail` packs head and tail together. */
  lemma FlushParts(w: BitWriter, head: seq<bool>, tail: seq<bool>)
    requires |head| % 8 == 0 && |tail| < 8
    requires w.out == Pack(head) && w.count == |tail| && w.buffer == BitsValue(tail)
    ensures Flush(w) == Pack(head + tail)
  {
    if w.count > 0 {
      FlushPending(w, head, tail);
    } else {
      assert head + tail == head;
    }
  }

  lemma FlushPending(w: BitWriter, head: seq<bool>, tail: seq<bool>)
    requires |head| % 8 == 0 && 0 < |tail| < 8
    requires w.out == Pack(head) && w.count == |tail| && w.buffer == BitsValue(tail)
    ensures Flush(w) == Pack(head + tail)
  {
    FlushTail(w, tail);
    PackAppend(head, tail);
  }

  /** Flushing emits the packing of the pending bits after the output. */
  lemma FlushTail(w: BitWriter, tail: seq<bool>)
    requires 0 < |tail| < 8 && w.count == |tail| && w.buffer == BitsValue(tail)
    ensures Flush(w) == w.out + Pack(tail)
  {
    PartialFlush(tail);
  }

  /** The flushed byte of 0 < n < 8 pending bits is their packing. */
  lemma PartialFlush(tail: seq<bool>)
    requires 0 < |tail| < 8
    ensures Pack(tail) == [ShiftLeft(BitsValue(tail), 8 - |tail|) % 256]
  {
    ShortByte(tail);
    ModSmall(ShiftLeft(BitsValue(tail), 8 - |tail|));
  }

  /** Shifting in n zero bits is shifting the value left by n. */
  lemma {:induction false} PaddedShift(bits: seq<bool>, n: nat)
    ensures BitsValue(bits + Zeros(n)) == ShiftLeft(BitsValue(bits), n)
    decreases n
  {
    if n == 0 {
      assert bits + Zeros(n) == bits;
    } else {
      ZerosStep(bits, n);
      AppendFalse(bits);
      PaddedShift(bits + [false], n - 1);
    }
  }

  lemma ZerosStep(bits: seq<bool>, n: nat)
    requires n > 0
    ensures bits + Zeros(n) == (bits + [false]) + Zeros(n - 1)
  {
    assert forall i :: 0 <= i < |bits| + n ==> (bits + Zeros(n))[i] == ((bits + [false]) + Zeros(n - 1))[i];
  }

  /** A zero bit shifted in doubles the value. */
  lemma AppendFalse(bits: seq<bool>)
    ensures BitsValue(bits + [false]) == 2 * BitsValue(bits)
  {
    assert (bits + [false])[..|bits|] == bits;
  }

  lemma ModSmall(v: nat)
    requires v < 256
    ensures v % 256 == v
  {
  }

  /** Writing a bit string bit by bit and flushing produces exactly its packing. */
  lemma WriterPacks(bits: seq<bool>)
    ensures Flush(WriteBits(NewWriter, bits)) == Pack(bits)
  {
    WrittenHolds(bits);
    FlushHolds(WriteBits(NewWriter, bits), bits);
  }

  /** A fresh writer fed a bit string holds that string. */
  lemma WrittenHolds(bits: seq<bool>)
    ensures Holds(WriteBits(NewWriter, bits), bits)
  {
    assert Holds(NewWriter, []);
    WriteBitsHolds(NewWriter, [], bits);
    assert [] + bits == bits;
  }

  /** The bytes emitted without the final flush are the packing of the
      complete bytes only; the pending bits are not among them. */
  lemma UnflushedOutput(bits: seq<bool>)
    ensures WriteBits(NewWriter, bits).out == Pack(bits[..|bits| - |bits| % 8])
    ensures WriteBits(NewWriter, bits).count == |bits| % 8
  {
    WrittenHolds(bits);
  }

  // ---------------------------------------------------------------------
  // Reader (initBitFileRead, readBit)

  /** The input, the position of the next byte to fetch, the current byte and
      how many of its bits are still unread. */
  datatype BitReader = BitReader(input: seq<byte>, pos: nat, buffer: byte, count: nat)

  /** initBitFileRead over the bytes that follow the header. */
  function NewReader(input: seq<byte>): BitReader
  {
    BitReader(input, 0, 0, 0)
  }

  ghost predicate ReaderValid(r: BitReader)
  {
    r.pos <= |r.input| && r.count < 8
  }

  /** Bits the reader has yet to deliver: the rest of the current byte, then
      every byte not yet fetched. */
  function Remaining(r: BitReader): seq<bool>
    requires r.pos <= |r.input|
  {
    LowBits(r.buffer, r.count) + Unpack(r.input[r.pos..])
  }

  /** Quantity that every delivered bit decreases: the number of bits still
      to be delivered. */
  function Unread(r: BitReader): (u: nat)
    requires r.pos <= |r.input|
    ensures u == |Remaining(r)|
  {
    8 * (|r.input| - r.pos) + r.count
  }

  /** readBit: fetch a byte only when the current one is used up, then deliver
      its bits from bit 7 down to bit 0; None is C's -1 at end of file (the
      failed fgetc leaves 0xFF, EOF as an unsigned char, in the buffer). */
  function ReadBit(r: BitReader): (res: (Option<bool>, BitReader))
    requires ReaderValid(r)
    ensures ReaderValid(res.1) && res.1.input == r.input
    ensures res.0.None? <==> Remaining(r) == []
    ensures res.0.Some? ==> Unread(res.1) < Unread(r)
    ensures res.0.Some? ==>
      Remaining(r) != [] && res.0.value == Remaining(r)[0] && Remaining(res.1) == Remaining(r)[1..]
  {
    if r.count == 0 then
      if r.pos >= |r.input| then (None, BitReader(r.input, r.pos, 255, 0))
      else
        var b := r.input[r.pos];
        assert r.input[r.pos..] == [b] + r.input[r.pos + 1..];
        assert LowBits(b, 7) == ByteBits(b)[1..];
        (Some(BitAt(b, 7)), BitReader(r.input, r.pos + 1, b, 7))
    else
      assert LowBits(r.buffer, r.count - 1) == LowBits(r.buffer, r.count)[1..];
      (Some(BitAt(r.buffer, r.count - 1)), r.(count := r.count - 1))
  }

  /** A reader over the output of a flushed writer delivers the written bits
      followed only by the zero padding. */
  lemma ReadBackWritten(bits: seq<bool>)
    ensures Remaining(NewReader(Flush(WriteBits(NewWriter, bits)))) == bits + Zeros(PadLength(|bits|))
  {
    var bytes := Flush(WriteBits(NewWriter, bits));
    WriterPacks(bits);
    UnpackPack(bits);
    assert bytes[0..] == bytes;
  }
}
