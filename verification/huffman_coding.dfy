/** The codec of huffman_coding.c, the one the command-line program calls.
    A compressed file is the magic "HUFF", the original size as a `long`, the
    number of table entries as an `int`, one (symbol byte, `int` count) record
    per distinct input byte in ascending symbol order, then the concatenated
    codes MSB-first with the last byte zero-padded. Native integers are stored
    little-endian with 8-byte `long` and 4-byte `int`. */
module HuffmanCoding {
  import opened Bytes
  import opened BitIO
  import opened HuffTree
  import opened TreeBuilder

  /** 'H', 'U', 'F', 'F'. */
  const Magic: seq<byte> := [72, 85, 70, 70]

  /** sizeof(long) and sizeof(int). */
  const LongBytes := 8
  const IntBytes := 4

  /** 2^31: one past the largest `int`. */
  const IntLimit := 0x8000_0000

  predicate FitsInt(v: int)
  {
    -IntLimit <= v < IntLimit
  }

  /** Every frequency in the tree is an `int`. buildHuffmanTree computes each
      internal node's frequency as `left->frequency + right->frequency` in
      `int`, so a node outside the range is a signed overflow. */
  predicate SumsFit(t: Tree)
  {
    FitsInt(t.freq) && (t.Node? ==> SumsFit(t.left) && SumsFit(t.right))
  }

  /** A well-formed tree whose leaves are not negative is not negative. */
  lemma {:induction false} FreqNonNegative(t: Tree)
    requires WellFormed(t) && forall l :: l in Leaves(t) ==> l.freq >= 0
    ensures t.freq >= 0
  {
    match t
    case Leaf(_, _) =>
      assert t in Leaves(t);
    case Node(_, l, r) =>
      FreqNonNegative(l);
      FreqNonNegative(r);
  }

  /** With counts that are not negative and a total that is an `int`, no sum
      the builder computes overflows: every node lies between 0 and the root. */
  lemma {:induction false} SumsFitBelow(t: Tree)
    requires WellFormed(t) && forall l :: l in Leaves(t) ==> l.freq >= 0
    requires t.freq < IntLimit
    ensures SumsFit(t)
  {
    FreqNonNegative(t);
    match t
    case Leaf(_, _) =>
    case Node(_, l, r) =>
      FreqNonNegative(l);
      FreqNonNegative(r);
      SumsFitBelow(l);
      SumsFitBelow(r);
  }

  /** The leaves made from a table of positive counts have positive counts. */
  lemma LeavesPositive(es: seq<Entry>)
    requires forall k :: 0 <= k < |es| ==> es[k].freq > 0
    ensures forall l :: l in multiset(LeafSeq(es)) ==> l.freq > 0
  {
    var leaves := LeafSeq(es);
    forall l: Tree | l in multiset(leaves) ensures l.freq > 0 {
      assert l in leaves;
      var k :| 0 <= k < |leaves| && leaves[k] == l;
    }
  }

  /** A table of positive counts whose total (the root's frequency) is an
      `int` builds a tree without overflow. */
  lemma TableSumsFit(es: seq<Entry>)
    requires |es| >= 1 && forall k :: 0 <= k < |es| ==> es[k].freq > 0
    requires BuildFromList(es).freq < IntLimit
    ensures SumsFit(BuildFromList(es))
  {
    var root := BuildFromList(es);
    LeavesPositive(es);
    SumsFitBelow(root);
  }

  // ---------------------------------------------------------------------
  // The frequency table on disk

  /** One table record: the symbol, then its count as an `int`. */
  function EntryBytes(e: Entry): (bs: seq<byte>)
    requires FitsInt(e.freq)
    ensures |bs| == 1 + IntBytes
  {
    [e.sym] + EncodeSigned(e.freq, IntBytes)
  }

  ghost predicate AllFit(es: seq<Entry>)
  {
    forall k :: 0 <= k < |es| ==> FitsInt(es[k].freq)
  }

  /** The records of the table in order. */
  function TableBytes(es: seq<Entry>): (bs: seq<byte>)
    requires AllFit(es)
    ensures |bs| == 5 * |es|
  {
    if es == [] then [] else EntryBytes(es[0]) + TableBytes(es[1..])
  }

  /** The table-reading loop: n records of a symbol byte and an `int`; None
      as soon as a read comes up short. */
  function ParseTable(bs: seq<byte>, n: nat): (r: Option<seq<Entry>>)
    ensures r.Some? <==> |bs| >= 5 * n
    ensures r.Some? ==> |r.value| == n
  {
    if n == 0 then Some([])
    else if |bs| < 5 then None
    else
      match ParseTable(bs[5..], n - 1)
      case None => None
      case Some(rest) => Some([Entry(bs[0], DecodeSigned(bs[1..5]))] + rest)
  }

  /** Reading back the records of a table, whatever follows them, gives the table. */
  lemma {:induction false} ParseTableBytes(es: seq<Entry>, rest: seq<byte>)
    requires AllFit(es)
    ensures ParseTable(TableBytes(es) + rest, |es|) == Some(es)
  {
    if es != [] {
      var e := es[0];
      var tail := TableBytes(es[1..]) + rest;
      assert TableBytes(es) + rest == EntryBytes(e) + tail;
      EntryFields(e, tail);
      ParseTableBytes(es[1..], rest);
      assert es == [e] + es[1..];
    }
  }

  /** Where the two fields of a record sit in the bytes that start with it. */
  lemma EntryFields(e: Entry, tail: seq<byte>)
    requires FitsInt(e.freq)
    ensures var bs := EntryBytes(e) + tail;
      |bs| >= 5 && bs[0] == e.sym && DecodeSigned(bs[1..5]) == e.freq && bs[5..] == tail
  {
    var bs := EntryBytes(e) + tail;
    assert bs == [e.sym] + (EncodeSigned(e.freq, IntBytes) + tail);
    assert bs[1..5] == EncodeSigned(e.freq, IntBytes);
    DecodeEncodeSigned(e.freq, IntBytes);
  }

  // ---------------------------------------------------------------------
  // compressFile

  /** The header: magic, original size, entry count, table. */
  function Header(size: int, es: seq<Entry>): (bs: seq<byte>)
    requires FitsInt(|es|) && AllFit(es) && -Pow256(LongBytes) <= size
    ensures |bs| == 16 + 5 * |es| && bs[..4] == Magic
  {
    Magic + EncodeSigned(size, LongBytes) + EncodeSigned(|es|, IntBytes) + TableBytes(es)
  }

  /** compressFile: nothing at all for an empty input; otherwise the header
      followed by the flushed payload. The code of each byte is its full
      root-to-leaf path: what the compress loop writes while the codes fit the
      32-bit code field (HuffTree.EmitAllFits), and what it evidently means to
      write for longer ones. */
  function Compress(input: seq<byte>): (file: seq<byte>)
    requires |input| < IntLimit
    ensures input == [] <==> file == []
  {
    var es := InputTable(input);
    InputTableEmpty(input);
    if es == [] then []
    else
      var root := BuildFromList(es);
      Header(|input|, es) + Flush(WriteBits(NewWriter, Encode(Codes(root), input)))
  }

  // ---------------------------------------------------------------------
  // decompressFile

  /** What decompressFile leaves behind. The first three are its error
      messages (nothing written); Undefined is a run the C does not define (a
      non-positive entry count, or a lone-leaf tree walked into its NULL
      children); Decoded carries the bytes written and whether the payload ran
      out first ("Unexpected end of compressed file"). */
  datatype Outcome =
    | BadMagic
    | ShortHeader
    | ShortTable
    | Undefined
    | Decoded(out: seq<byte>, truncated: bool)

  /** The decoding loop driven by readBit: stop when `left` reaches 0 or the
      reader reports end of file. The flag is true for the latter, so it is
      set exactly when bytes are still wanted; every byte emitted on the way
      counts against `left`. */
  function DecodeStream(root: Tree, w: Walk, r: BitReader): (res: (Walk, bool))
    requires root.Node? && w.cur.Node? && ReaderValid(r)
    ensures res.0.cur.Node?
    ensures |res.0.out| + res.0.left == |w.out| + w.left
    ensures res.1 <==> res.0.left > 0
    decreases Unread(r)
  {
    if w.left == 0 then (w, false)
    else
      var next := ReadBit(r);
      if next.0.None? then (w, true)
      else DecodeStream(root, Step(root, w, next.0.value), next.1)
  }

  /** The reader-driven loop is the tree walk over the bits the reader still
      holds; it reports end of file exactly when bytes are still wanted. */
  lemma {:induction false} DecodeStreamBits(root: Tree, w: Walk, r: BitReader)
    requires root.Node? && w.cur.Node? && ReaderValid(r)
    ensures DecodeStream(root, w, r).0 == DecodeBits(root, w, Remaining(r))
    ensures DecodeStream(root, w, r).1 <==> DecodeBits(root, w, Remaining(r)).left > 0
    decreases Unread(r)
  {
    if w.left > 0 {
      var next := ReadBit(r);
      if next.0.Some? {
        DecodeStreamBits(root, Step(root, w, next.0.value), next.1);
      }
    }
  }

  /** The loop after the tree is rebuilt: nothing when the size is not
      positive; a lone-leaf root reads one bit and then follows a NULL child,
      unless the payload is empty; otherwise the tree walk. */
  function DecodePayload(root: Tree, size: int, payload: seq<byte>): (res: Outcome)
    ensures res.Decoded? || res.Undefined?
    ensures res.Undefined? <==> size > 0 && root.Leaf? && payload != []
  {
    if size <= 0 then Decoded([], false)
    else if root.Leaf? then (if payload == [] then Decoded([], true) else Undefined)
    else
      var res := DecodeStream(root, Walk([], root, size), NewReader(payload));
      Decoded(res.0.out, res.1)
  }

  /** decompressFile with the tree-walk loop given as a parameter: a file
      that does not start with the magic number is rejected, and one that
      does but ends inside the two header fields is reported short. */
  function DecompressWith(file: seq<byte>, fixed: bool): (res: Outcome)
    ensures (|file| < 4 || file[..4] != Magic) <==> res == BadMagic
    ensures (|file| >= 4 && file[..4] == Magic && |file| < 16) <==> res == ShortHeader
  {
    if |file| < 4 || file[..4] != Magic then BadMagic
    else if |file| < 12 then ShortHeader
    else
      var size := DecodeSigned(file[4..12]);
      if |file| < 16 then ShortHeader
      else
        var unique := DecodeSigned(file[12..16]);
        if unique <= 0 then Undefined
        else
          match ParseTable(file[16..], unique)
          case None => ShortTable
          case Some(es) =>
            var root := BuildFromList(es);
            var payload := file[16 + 5 * unique..];
            if !SumsFit(root) then Undefined
            else if fixed then DecodePayloadFixed(root, size, payload) else DecodePayload(root, size, payload)
  }

  /** decompressFile as written. */
  function Decompress(file: seq<byte>): (res: Outcome)
    ensures (|file| < 4 || file[..4] != Magic) <==> res == BadMagic
  {
    DecompressWith(file, false)
  }

  /** A file whose table counts add up past INT_MAX (the root's frequency is
      their sum): the last sum buildHuffmanTree computes overflows, so
      decompression is undefined, whatever the stored size and the payload. */
  lemma OverflowingTable(size: int, es: seq<Entry>, payload: seq<byte>, fixed: bool)
    requires 0 < |es| <= 256 && AllFit(es) && -Pow256(LongBytes) <= size
    requires BuildFromList(es).freq >= IntLimit
    ensures DecompressWith(Header(size, es) + payload, fixed) == Undefined
  {
    var file := Header(size, es) + payload;
    HeaderFields(Magic, EncodeSigned(size, LongBytes), EncodeSigned(|es|, IntBytes), TableBytes(es), payload);
    DecodeEncodeSigned(|es|, IntBytes);
    ParseTableBytes(es, payload);
    assert !FitsInt(BuildFromList(es).freq);
  }

  /** Two records of count INT_MAX build a root of count 2 * INT_MAX. */
  lemma TwoMaxTotal(a: Entry, b: Entry)
    requires a.freq == IntLimit - 1 && b.freq == IntLimit - 1
    ensures BuildFromList([a, b]).freq == 2 * IntLimit - 2
  {
    var es := [a, b];
    assert es[1..] == [b] && [b][1..] == [];
    assert SumFreq([b]) == b.freq + SumFreq([]);
  }

  /** Two records of count INT_MAX and a one-byte payload. */
  lemma OverflowExample()
    ensures DecompressWith(Header(1, [Entry(0x61, IntLimit - 1), Entry(0x62, IntLimit - 1)]) + [0], false) == Undefined
  {
    TwoMaxTotal(Entry(0x61, IntLimit - 1), Entry(0x62, IntLimit - 1));
    OverflowingTable(1, [Entry(0x61, IntLimit - 1), Entry(0x62, IntLimit - 1)], [0], false);
  }

  // ---------------------------------------------------------------------
  // Round trip

  /** The compressed file starts with a header that parses back to the input
      length and table, and the payload follows it. */
  lemma HeaderParses(input: seq<byte>, es: seq<Entry>, payload: seq<byte>)
    requires 0 < |input| < IntLimit && 0 < |es| <= 256
    requires forall k :: 0 <= k < |es| ==> 0 < es[k].freq <= |input|
    ensures AllFit(es)
    ensures var file := Header(|input|, es) + payload;
      && |file| >= 16 && file[..4] == Magic
      && DecodeSigned(file[4..12]) == |input|
      && DecodeSigned(file[12..16]) == |es|
      && ParseTable(file[16..], |es|) == Some(es)
      && file[16 + 5 * |es|..] == payload
  {
    var file := Header(|input|, es) + payload;
    var a, b := EncodeSigned(|input|, LongBytes), EncodeSigned(|es|, IntBytes);
    HeaderFields(Magic, a, b, TableBytes(es), payload);
    DecodeEncodeSigned(|input|, LongBytes);
    DecodeEncodeSigned(|es|, IntBytes);
    ParseTableBytes(es, payload);
  }

  /** A file that starts with a header decompresses to the payload loop run
      on the rebuilt tree and the stored size. */
  lemma HeaderDecodes(input: seq<byte>, es: seq<Entry>, payload: seq<byte>, fixed: bool)
    requires 0 < |input| < IntLimit && 0 < |es| <= 256
    requires forall k :: 0 <= k < |es| ==> 0 < es[k].freq <= |input|
    requires BuildFromList(es).freq == |input|
    ensures AllFit(es)
    ensures DecompressWith(Header(|input|, es) + payload, fixed)
         == if fixed then DecodePayloadFixed(BuildFromList(es), |input|, payload)
            else DecodePayload(BuildFromList(es), |input|, payload)
  {
    HeaderParses(input, es, payload);
    TableSumsFit(es);
  }

  /** Where the fields of a header sit in a file that starts with it. */
  lemma HeaderFields(m: seq<byte>, a: seq<byte>, b: seq<byte>, t: seq<byte>, p: seq<byte>)
    requires |m| == 4 && |a| == 8 && |b| == 4
    ensures var file := m + a + b + t + p;
      && file[..4] == m && file[4..12] == a && file[12..16] == b
      && file[16..] == t + p && file[16 + |t|..] == p
  {
    var file := m + a + b + t + p;
    assert file == m + (a + (b + (t + p)));
    assert file[4..] == a + (b + (t + p));
    assert file[12..] == b + (t + p);
  }

  /** Every byte of the input has a code in the tree built from its table. */
  lemma InputCovered(input: seq<byte>)
    requires |InputTable(input)| >= 1
    ensures Covers(Codes(BuildFromList(InputTable(input))), input)
  {
    CoveredByLeaves(BuildFromList(InputTable(input)), input);
  }

  /** With two distinct bytes the table has at least two entries and the tree
      an internal root. */
  lemma TwoSymbolsNode(input: seq<byte>)
    requires TwoSymbols(input)
    ensures |InputTable(input)| >= 2
    ensures BuildFromList(InputTable(input)).Node?
  {
    InputTableEmpty(input);
    TwoSymbolsRoot(BuildFromList(InputTable(input)), input);
  }

  /** Decoding the flushed payload of a covered input emits exactly the input,
      and the decoder stops with the bytes all out, not at end of file. */
  lemma PayloadRoundTrip(root: Tree, input: seq<byte>)
    requires root.Node? && |input| > 0 && Covers(Codes(root), input)
    ensures DecodePayload(root, |input|, Flush(WriteBits(NewWriter, Encode(Codes(root), input))))
         == Decoded(input, false)
  {
    var bits := Encode(Codes(root), input);
    ReadBackWritten(bits);
    StreamDecodes(root, input, Flush(WriteBits(NewWriter, bits)), Zeros(PadLength(|bits|)));
  }

  /** A payload whose bits are the encoding of `input` followed by anything
      decodes to `input`. */
  lemma StreamDecodes(root: Tree, input: seq<byte>, payload: seq<byte>, rest: seq<bool>)
    requires root.Node? && |input| > 0 && Covers(Codes(root), input)
    requires Remaining(NewReader(payload)) == Encode(Codes(root), input) + rest
    ensures DecodePayload(root, |input|, payload) == Decoded(input, false)
  {
    var r := NewReader(payload);
    assert ReaderValid(r);
    DecodeStreamBits(root, Walk([], root, |input|), r);
    DecodeEncoded(root, [], input, 0, rest);
    assert [] + input == input;
  }

  /** The input has a table and every code of the tree built from it fits
      generateCodes' 32-bit code field. */
  ghost predicate CodesFitInput(input: seq<byte>)
  {
    var es := InputTable(input);
    |es| >= 1 && CodesFit(Codes(BuildFromList(es)))
  }

  /** decompress(compress(x)) == x for every input with at least two distinct
      bytes that the `int` counters can count and whose codes fit the code
      field; for such an input the compress loop writes exactly the encoding
      modelled here. */
  lemma RoundTrip(input: seq<byte>)
    requires |input| < IntLimit && TwoSymbols(input) && CodesFitInput(input)
    ensures EmitAll(Codes(BuildFromList(InputTable(input))), input)
         == Some(Encode(Codes(BuildFromList(InputTable(input))), input))
    ensures Decompress(Compress(input)) == Decoded(input, false)
  {
    var es := InputTable(input);
    TwoSymbolsNode(input);
    InputTableSum(input);
    var root := BuildFromList(es);
    EmitAllFits(Codes(root), input);
    var payload := Flush(WriteBits(NewWriter, Encode(Codes(root), input)));
    HeaderDecodes(input, es, payload, false);
    InputCovered(input);
    PayloadRoundTrip(root, input);
  }

  // ---------------------------------------------------------------------
  // A single distinct byte

  /** A one-entry list builds a lone leaf. */
  lemma SingleLeafTree(e: Entry)
    ensures BuildFromList([e]) == Leaf(e.sym, e.freq)
  {
    var h := MinHeap.BuildHeapCoding(LeafSeq([e]));
    assert h[0] in multiset(h);
  }

  /** As written, an input of one repeated byte compresses to a header with
      an empty payload (the lone leaf's code is empty), and decompression
      stops at once at end of file having written nothing. */
  lemma SingleSymbolLost(input: seq<byte>)
    requires 0 < |input| < IntLimit && !TwoSymbols(input)
    ensures Compress(input) == Header(|input|, [Entry(input[0], |input|)])
    ensures Decompress(Compress(input)) == Decoded([], true)
  {
    var es := [Entry(input[0], |input|)];
    SingleCompress(input);
    SingleLeafTree(es[0]);
    HeaderDecodes(input, es, [], false);
    assert Header(|input|, es) + [] == Header(|input|, es);
  }

  /** An input without two distinct bytes repeats its first byte. */
  lemma RepeatFirst(input: seq<byte>)
    requires input != [] && !TwoSymbols(input)
    ensures seq(|input|, _ => input[0]) == input
  {
  }

  /** A non-empty input compresses to the header of its table followed by
      the flushed codes from the tree built from that table. */
  lemma CompressParts(input: seq<byte>, es: seq<Entry>, root: Tree)
    requires 0 < |input| < IntLimit && es == InputTable(input) && es != []
    requires root == BuildFromList(es)
    ensures Compress(input) == Header(|input|, es) + Flush(WriteBits(NewWriter, Encode(Codes(root), input)))
  {
  }

  /** Under a lone-leaf root every code is empty, so the payload is empty. */
  lemma LeafWritesNothing(root: Tree, input: seq<byte>)
    requires root.Leaf?
    ensures Flush(WriteBits(NewWriter, Encode(Codes(root), input))) == []
  {
    assert Encode(Codes(root), input) == [];
    assert WriteBits(NewWriter, []) == NewWriter;
  }

  /** One repeated byte compresses to the header alone. */
  lemma SingleCompress(input: seq<byte>)
    requires 0 < |input| < IntLimit && !TwoSymbols(input)
    ensures InputTable(input) == [Entry(input[0], |input|)]
    ensures Compress(input) == Header(|input|, [Entry(input[0], |input|)])
  {
    SingleSymbolTable(input);
    var es := InputTable(input);
    SingleLeafTree(es[0]);
    var root := BuildFromList(es);
    LeafWritesNothing(root, input);
    CompressParts(input, es, root);
    var header := Header(|input|, es);
    assert header + [] == header;
  }

  /** The loop as the format evidently intends it: a lone-leaf tree stands
      for `size` copies of its symbol, whatever the payload. */
  function DecodePayloadFixed(root: Tree, size: int, payload: seq<byte>): (res: Outcome)
    ensures root.Leaf? ==> res == Decoded(seq(if size > 0 then size else 0, _ => root.sym), false)
    ensures root.Node? ==> res == DecodePayload(root, size, payload)
  {
    if root.Leaf? then Decoded(seq(if size > 0 then size else 0, _ => root.sym), false)
    else DecodePayload(root, size, payload)
  }

  /** decompressFile with the lone-leaf case repaired. */
  function DecompressFixed(file: seq<byte>): (res: Outcome)
    ensures (|file| < 4 || file[..4] != Magic) <==> res == BadMagic
  {
    DecompressWith(file, true)
  }

  /** With the lone-leaf repair, and codes written whole as Compress writes
      them, every input the counters can count survives the round trip; the
      empty input compresses to an empty file, which is rejected as not a
      compressed file. */
  lemma RoundTripFixed(input: seq<byte>)
    requires |input| < IntLimit
    ensures input != [] ==> DecompressFixed(Compress(input)) == Decoded(input, false)
    ensures input == [] ==> DecompressFixed(Compress(input)) == BadMagic
  {
    if TwoSymbols(input) {
      RoundTripFixedTwo(input);
    } else if input != [] {
      RoundTripFixedOne(input);
    }
  }

  lemma RoundTripFixedTwo(input: seq<byte>)
    requires |input| < IntLimit && TwoSymbols(input)
    ensures DecompressFixed(Compress(input)) == Decoded(input, false)
  {
    var es := InputTable(input);
    TwoSymbolsNode(input);
    InputTableSum(input);
    var root := BuildFromList(es);
    var payload := Flush(WriteBits(NewWriter, Encode(Codes(root), input)));
    HeaderDecodes(input, es, payload, true);
    InputCovered(input);
    PayloadRoundTrip(root, input);
  }

  lemma RoundTripFixedOne(input: seq<byte>)
    requires 0 < |input| < IntLimit && !TwoSymbols(input)
    ensures DecompressFixed(Compress(input)) == Decoded(input, false)
  {
    SingleCompress(input);
    SingleHeaderFixed(input);
    SingleLeafRepeats(input);
  }

  /** The corrected loop repeats the lone leaf's symbol `size` times. */
  lemma SingleLeafRepeats(input: seq<byte>)
    requires 0 < |input| < IntLimit && !TwoSymbols(input)
    ensures DecodePayloadFixed(Leaf(input[0], |input|), |input|, []) == Decoded(input, false)
  {
    RepeatFirst(input);
  }

  /** The corrected decompressor runs its loop on the lone leaf. */
  lemma SingleHeaderFixed(input: seq<byte>)
    requires 0 < |input| < IntLimit && !TwoSymbols(input)
    ensures DecompressFixed(Header(|input|, [Entry(input[0], |input|)]))
         == DecodePayloadFixed(Leaf(input[0], |input|), |input|, [])
  {
    var es := [Entry(input[0], |input|)];
    SingleLeafTree(es[0]);
    HeaderDecodes(input, es, [], true);
    assert Header(|input|, es) + [] == Header(|input|, es);
  }

}
