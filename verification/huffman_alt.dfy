/** The alternate codec of huffman.c. An input of at most eight bytes is
    stored behind a 0xFF marker byte. A longer input gets:
    - a 0x00 marker;
    - the number of distinct bytes as one byte;
    - the input length as an `unsigned short`;
    - one (symbol, count) byte pair per distinct byte;
    - the codes, MSB-first.
    As written, the compressor never emits the final partial byte, stores
    counts modulo 256 and the length modulo 65536. The corrected codec at the
    end of the module fixes the three and round-trips every input. */
module HuffmanAlt {
  import opened Bytes
  import opened BitIO
  import opened HuffTree
  import opened TreeBuilder
  import HuffmanCoding

  /** Inputs of at most this many bytes are stored verbatim. */
  const SmallLimit := 8

  /** First byte of a verbatim file and of a Huffman file. */
  const PassMarker: byte := 0xFF
  const HuffMarker: byte := 0x00

  /** 2^16: one past the largest `unsigned short`. */
  const ShortLimit := 0x1_0000

  /** What decompressFile leaves in the output file. Undefined is behaviour C
      does not define (a NULL dereference); Rejected is only produced by the
      corrected decoder, for files no compressor writes. */
  datatype Result = Written(out: seq<byte>) | Undefined | Rejected

  // ---------------------------------------------------------------------
  // compressFile as written

  /** The tree that compressFile builds: buildHuffmanTree over the input's
      byte counts. */
  function AltTree(input: seq<byte>): (root: Tree)
    requires input != []
    ensures BuildFromCounts(Histogram(input)) == Some(root)
  {
    InputTableEmpty(input);
    BuildFromCounts(Histogram(input)).value
  }

  /** The codes of the input under that tree, in input order. */
  function AltBits(input: seq<byte>): seq<bool>
    requires input != []
  {
    Encode(Codes(AltTree(input)), input)
  }

  /** The (symbol, count) pairs of the header; `fputc` keeps the low byte
      of each count. */
  function PairBytes(es: seq<Entry>): (bs: seq<byte>)
    ensures |bs| == 2 * |es|
  {
    if es == [] then [] else [es[0].sym, es[0].freq % 256] + PairBytes(es[1..])
  }

  /** The entry count as `fputc` stores it: its low byte. */
  function CountByte(es: seq<Entry>): (n: byte)
    ensures n <= |es|
    ensures |es| < 256 ==> n == |es|
  {
    |es| % 256
  }

  /** The Huffman header: marker, entry count modulo 256, input length
      modulo 2^16 as a little-endian `unsigned short`, the pairs. */
  function AltHeader(input: seq<byte>): (bs: seq<byte>)
    ensures |bs| == 4 + 2 * |InputTable(input)| && bs[0] == HuffMarker
  {
    var es := InputTable(input);
    [HuffMarker, CountByte(es)] + EncodeLE(|input| % ShortLimit, 2) + PairBytes(es)
  }

  /** compressFile. writeBits emits each byte as soon as its eighth bit is
      in; flushBits works on a buffer of its own that is always empty, so
      the pending bits of the last byte are never written. Counts are
      `int`s, so the input is shorter than 2^31 bytes. */
  function Compress(input: seq<byte>): (file: seq<byte>)
    requires |input| < HuffmanCoding.IntLimit
    ensures |input| <= SmallLimit ==> file == [PassMarker] + input
    ensures |input| > SmallLimit ==> |file| > 4 && file[0] == HuffMarker
  {
    if |input| <= SmallLimit then [PassMarker] + input
    else AltHeader(input) + WriteBits(NewWriter, AltBits(input)).out
  }

  // ---------------------------------------------------------------------
  // decompressFile as written

  /** fgetc at position p: the byte, or -1 (EOF) past the end. */
  function GetC(file: seq<byte>, p: nat): (c: int)
    ensures -1 <= c < 256
    ensures p < |file| ==> c == file[p]
    ensures p >= |file| ==> c == -1
  {
    if p < |file| then file[p] else -1
  }

  /** The verbatim branch: at most eight of the bytes after the marker. */
  function Passthrough(file: seq<byte>): (out: seq<byte>)
    ensures |out| <= SmallLimit
    ensures file != [] ==> out <= file[1..]
    ensures file != [] && |file| <= SmallLimit + 1 ==> out == file[1..]
  {
    if file == [] then [] else
      var rest := file[1..];
      if |rest| <= SmallLimit then rest else rest[..SmallLimit]
  }

  /** A count array with every entry zero. */
  function Zero256(): (z: seq<int>)
    ensures |z| == 256 && forall b :: 0 <= b < 256 ==> z[b] == 0
  {
    seq(256, _ => 0)
  }

  /** The pair-reading loop: n times `ch = fgetc(in); freq[ch] = fgetc(in);`
      starting at byte `pos`. At end of file `ch` becomes 0xFF (EOF as an
      unsigned char) and the count -1. */
  function ReadPairs(file: seq<byte>, pos: nat, n: nat, freq: seq<int>): (r: seq<int>)
    requires |freq| == 256
    ensures |r| == 256
    decreases n
  {
    if n == 0 then freq
    else
      var ch := GetC(file, pos);
      var sym := if ch < 0 then 255 else ch;
      ReadPairs(file, pos + 2, n - 1, freq[sym := GetC(file, pos + 1)])
  }

  /** Bits k-1 down to 0 of one payload byte fed to the walk; the inner loop
      stops as soon as the wanted count is out. */
  function DecodeByte(root: Tree, w: Walk, b: byte, k: nat): (r: Walk)
    requires root.Node? && w.cur.Node?
    ensures r.cur.Node?
    ensures |r.out| + r.left == |w.out| + w.left
    decreases k
  {
    if k == 0 || w.left == 0 then w
    else DecodeByte(root, Step(root, w, BitAt(b, k - 1)), b, k - 1)
  }

  /** The outer loop: one payload byte at a time until the input or the
      wanted count runs out. */
  function DecodeBytes(root: Tree, w: Walk, payload: seq<byte>): (r: Walk)
    requires root.Node? && w.cur.Node?
    ensures r.cur.Node?
    ensures |r.out| + r.left == |w.out| + w.left
    decreases |payload|
  {
    if payload == [] || w.left == 0 then w
    else DecodeBytes(root, DecodeByte(root, w, payload[0], 8), payload[1..])
  }

  /** After the header: nothing is written for an empty payload or a zero
      size. Otherwise a missing tree (no positive count) or a lone-leaf root
      sends the walk through a NULL child, and an internal root is walked
      byte by byte. At most `size` bytes come out. */
  function DecodeHuffman(size: nat, freq: seq<int>, payload: seq<byte>): (res: Result)
    requires |freq| == 256
    ensures res.Written? || res.Undefined?
    ensures res.Written? ==> |res.out| <= size
    ensures res.Undefined? <==>
      payload != [] && size > 0 && (BuildFromCounts(freq).None? || BuildFromCounts(freq).value.Leaf?)
  {
    if payload == [] || size == 0 then Written([])
    else
      match BuildFromCounts(freq)
      case None => Undefined
      case Some(root) =>
        if root.Leaf? then Undefined
        else Written(DecodeBytes(root, Walk([], root, size), payload).out)
  }

  /** What the Huffman branch of decompressFile reads before the walk. */
  datatype Fields = Fields(size: nat, freq: seq<int>, payload: seq<byte>)

  /** The Huffman branch up to the walk: the entry count (EOF reads as -1
      and runs no pair), the size and the pairs; the payload is what follows
      them. None when the file ends before the payload: the loop then stops
      at its first read and the size is never consulted. */
  function ReadFields(file: seq<byte>): (f: Option<Fields>)
    ensures f.Some? ==> |f.value.freq| == 256 && f.value.size < ShortLimit
  {
    var unique := GetC(file, 1);
    var n := if unique < 0 then 0 else unique;
    var start := if 4 + 2 * n < |file| then 4 + 2 * n else |file|;
    if start == |file| then None
    else
      ShortBytes();
      Some(Fields(DecodeLE(file[2..4]), ReadPairs(file, 4, n, Zero256()), file[start..]))
  }

  /** decompressFile. An empty file reads the marker as EOF, which as an
      unsigned char is 0xFF. */
  function Decompress(file: seq<byte>): (res: Result)
    ensures res.Written? || res.Undefined?
    ensures file == [] ==> res == Written([])
    ensures file != [] && file[0] != PassMarker && res.Written? ==> |res.out| < ShortLimit
  {
    if file == [] || file[0] == PassMarker then Written(Passthrough(file))
    else
      match ReadFields(file)
      case None => Written([])
      case Some(f) => DecodeHuffman(f.size, f.freq, f.payload)
  }

  // ---------------------------------------------------------------------
  // The byte loop is the bit walk

  /** Feeding the low k bits of a byte one by one is decoding them as a bit string. */
  lemma {:induction false} DecodeByteBits(root: Tree, w: Walk, b: byte, k: nat)
    requires root.Node? && w.cur.Node?
    ensures DecodeByte(root, w, b, k) == DecodeBits(root, w, LowBits(b, k))
    decreases k
  {
    if k > 0 && w.left > 0 {
      var bits := LowBits(b, k);
      assert bits[0] == BitAt(b, k - 1);
      assert bits[1..] == LowBits(b, k - 1);
      DecodeByteBits(root, Step(root, w, BitAt(b, k - 1)), b, k - 1);
    }
  }

  /** The byte loop decodes the unpacked payload. */
  lemma {:induction false} DecodeBytesBits(root: Tree, w: Walk, payload: seq<byte>)
    requires root.Node? && w.cur.Node?
    ensures DecodeBytes(root, w, payload) == DecodeBits(root, w, Unpack(payload))
    decreases |payload|
  {
    if payload != [] {
      if w.left == 0 {
        DecodeDone(root, w, Unpack(payload));
      } else {
        var first := ByteBits(payload[0]);
        DecodeByteBits(root, w, payload[0], 8);
        DecodeBytesBits(root, DecodeByte(root, w, payload[0], 8), payload[1..]);
        DecodeAppend(root, w, first, Unpack(payload[1..]));
      }
    }
  }

  // ---------------------------------------------------------------------
  // The header as the decompressor reads it back

  /** The count array after `freq[sym] = count` for each entry in order. */
  function Assign(freq: seq<int>, es: seq<Entry>): (r: seq<int>)
    requires |freq| == 256
    ensures |r| == 256
    decreases |es|
  {
    if es == [] then freq else Assign(freq[es[0].sym := es[0].freq], es[1..])
  }

  ghost predicate Ascending(es: seq<Entry>)
  {
    forall k, m :: 0 <= k < m < |es| ==> es[k].sym < es[m].sym
  }

  /** With distinct symbols, an entry's count lands in its slot and every
      other slot keeps its value. */
  lemma {:induction false} AssignLookup(freq: seq<int>, es: seq<Entry>, b: byte)
    requires |freq| == 256 && Ascending(es)
    ensures (forall k :: 0 <= k < |es| ==> es[k].sym != b) ==> Assign(freq, es)[b] == freq[b]
    ensures forall k :: 0 <= k < |es| && es[k].sym == b ==> Assign(freq, es)[b] == es[k].freq
    decreases |es|
  {
    if es != [] {
      var next := freq[es[0].sym := es[0].freq];
      AssignLookup(next, es[1..], b);
      if es[0].sym == b {
        forall k | 0 <= k < |es| - 1 ensures es[1..][k].sym != b {
          assert es[1..][k] == es[k + 1];
        }
      } else {
        forall k | 0 < k < |es| && es[k].sym == b ensures Assign(freq, es)[b] == es[k].freq {
          assert es[1..][k - 1] == es[k];
        }
      }
    }
  }

  /** The entries with each count cut to its low byte. */
  function Wrap(es: seq<Entry>): (ws: seq<Entry>)
    ensures |ws| == |es|
    ensures forall k :: 0 <= k < |es| ==> ws[k] == Entry(es[k].sym, es[k].freq % 256)
  {
    seq(|es|, k requires 0 <= k < |es| => Entry(es[k].sym, es[k].freq % 256))
  }

  /** The pair-reading loop over the pairs the compressor wrote reads their
      first n entries with byte-sized counts. */
  lemma {:induction false} ReadPairsBytes(pre: seq<byte>, es: seq<Entry>, rest: seq<byte>, n: nat, freq: seq<int>)
    requires n <= |es| && |freq| == 256
    ensures ReadPairs(pre + PairBytes(es) + rest, |pre|, n, freq) == Assign(freq, Wrap(es[..n]))
    decreases n
  {
    if n > 0 {
      var e := es[0];
      var pair := [e.sym, e.freq % 256];
      var file := pre + PairBytes(es) + rest;
      assert file == (pre + pair) + PairBytes(es[1..]) + rest;
      assert GetC(file, |pre|) == e.sym;
      assert GetC(file, |pre| + 1) == e.freq % 256;
      ReadPairsBytes(pre + pair, es[1..], rest, n - 1, freq[e.sym := e.freq % 256]);
      assert Wrap(es[..n])[1..] == Wrap(es[1..][..n - 1]);
    }
  }

  /** Every count reduced to its low byte, as `(unsigned char)freq[i]` does. */
  function Mod256(h: seq<int>): (r: seq<int>)
    requires |h| == 256
    ensures |r| == 256
    ensures forall b :: 0 <= b < 256 ==> r[b] == h[b] % 256
  {
    seq(256, b requires 0 <= b < 256 => h[b] % 256)
  }

  /** Filling a zero array from the wrapped table of nonnegative counts
      gives every count modulo 256. */
  lemma WrapTable(h: seq<int>)
    requires |h| == 256 && forall b :: 0 <= b < 256 ==> h[b] >= 0
    ensures Assign(Zero256(), Wrap(Table(h))) == Mod256(h)
  {
    forall b: byte ensures Assign(Zero256(), Wrap(Table(h)))[b] == Mod256(h)[b] {
      WrapTableAt(h, b);
    }
  }

  /** The slot of one symbol after filling from the wrapped table. */
  lemma WrapTableAt(h: seq<int>, b: byte)
    requires |h| == 256 && h[b] >= 0
    ensures Assign(Zero256(), Wrap(Table(h)))[b] == h[b] % 256
  {
    var t := Table(h);
    var es := Wrap(t);
    assert Ascending(es) by {
      forall k, m | 0 <= k < m < |es| ensures es[k].sym < es[m].sym {
        assert es[k].sym == t[k].sym && es[m].sym == t[m].sym;
      }
    }
    AssignLookup(Zero256(), es, b);
    TableContents(h, b);
    var r := Assign(Zero256(), es);
    if h[b] > 0 {
      var k :| 0 <= k < |t| && t[k].sym == b;
      assert es[k] == Entry(b, h[b] % 256);
      assert r[b] == es[k].freq;
    } else {
      forall k | 0 <= k < |es| ensures es[k].sym != b {
        assert es[k].sym == t[k].sym;
      }
      assert r[b] == 0 && h[b] == 0;
    }
  }


  /** Filling a zero array from a table of nonnegative counts gives the
      counts back. */
  lemma AssignTable(h: seq<int>)
    requires |h| == 256 && forall b :: 0 <= b < 256 ==> h[b] >= 0
    ensures Assign(Zero256(), Table(h)) == h
  {
    forall b: byte ensures Assign(Zero256(), Table(h))[b] == h[b] {
      AssignLookup(Zero256(), Table(h), b);
      TableContents(h, b);
    }
  }

  /** The fields of a Huffman file as decompressFile reads them: the entry
      count modulo 256, the length modulo 2^16 and the counts of the first
      entries, modulo 256. */
  lemma AltFields(input: seq<byte>)
    requires SmallLimit < |input| < HuffmanCoding.IntLimit
    ensures var file := Compress(input);
      var es := InputTable(input);
      var n := CountByte(es);
      && GetC(file, 1) == n
      && DecodeLE(file[2..4]) == |input| % ShortLimit
      && ReadPairs(file, 4, n, Zero256()) == Assign(Zero256(), Wrap(es[..n]))
      && file[4 + 2 * |es|..] == WriteBits(NewWriter, AltBits(input)).out
  {
    var payload := WriteBits(NewWriter, AltBits(input)).out;
    var sz := EncodeLE(|input| % ShortLimit, 2);
    assert Compress(input) == [HuffMarker, CountByte(InputTable(input))] + sz + PairBytes(InputTable(input)) + payload;
    AltLayout(CountByte(InputTable(input)), sz, InputTable(input), payload);
    ShortBytes();
    DecodeEncodeLE(|input| % ShortLimit, 2);
  }

  lemma ShortBytes()
    ensures Pow256(2) == ShortLimit
  {
  }

  lemma AltLayout(n: byte, sz: seq<byte>, es: seq<Entry>, payload: seq<byte>)
    requires |sz| == 2 && n <= |es|
    ensures var file := [HuffMarker, n] + sz + PairBytes(es) + payload;
      && GetC(file, 1) == n
      && file[2..4] == sz
      && ReadPairs(file, 4, n, Zero256()) == Assign(Zero256(), Wrap(es[..n]))
      && file[4 + 2 * |es|..] == payload
  {
    var pre := [HuffMarker, n] + sz;
    ReadPairsBytes(pre, es, payload, n, Zero256());
  }

  /** With fewer than 256 distinct bytes the decompressor gets the length
      modulo 2^16, every count modulo 256 and the unflushed payload. */
  lemma AltReadBack(input: seq<byte>)
    requires SmallLimit < |input| < HuffmanCoding.IntLimit && |InputTable(input)| < 256
    ensures Decompress(Compress(input)) ==
      DecodeHuffman(|input| % ShortLimit, Mod256(Histogram(input)), WriteBits(NewWriter, AltBits(input)).out)
  {
    AltFieldsSmall(input);
    HuffmanFile(Compress(input), |InputTable(input)|, |input| % ShortLimit, Mod256(Histogram(input)),
      WriteBits(NewWriter, AltBits(input)).out);
  }

  /** The header fields of such a file, as decompressFile reads them. */
  lemma AltFieldsSmall(input: seq<byte>)
    requires SmallLimit < |input| < HuffmanCoding.IntLimit && |InputTable(input)| < 256
    ensures var file := Compress(input);
      var n := |InputTable(input)|;
      && |file| >= 4 + 2 * n && file[0] == HuffMarker && GetC(file, 1) == n
      && DecodeLE(file[2..4]) == |input| % ShortLimit
      && ReadPairs(file, 4, n, Zero256()) == Mod256(Histogram(input))
      && file[4 + 2 * n..] == WriteBits(NewWriter, AltBits(input)).out
  {
    var es := InputTable(input);
    AltFields(input);
    assert es[..|es|] == es;
    WrapTable(Histogram(input));
  }

  /** decompressFile on a Huffman file whose fields are known. */
  lemma HuffmanFile(file: seq<byte>, n: nat, size: nat, freq: seq<int>, payload: seq<byte>)
    requires |file| >= 4 + 2 * n && file[0] == HuffMarker && GetC(file, 1) == n
    requires DecodeLE(file[2..4]) == size && ReadPairs(file, 4, n, Zero256()) == freq
    requires file[4 + 2 * n..] == payload
    ensures Decompress(file) == DecodeHuffman(size, freq, payload)
  {
    if payload == [] {
      assert ReadFields(file) == None;
    } else {
      assert ReadFields(file) == Some(Fields(size, freq, payload));
    }
  }

  // ---------------------------------------------------------------------
  // What comes back, as written

  /** Inputs of at most eight bytes come back unchanged. */
  lemma SmallRoundTrip(input: seq<byte>)
    requires |input| <= SmallLimit
    ensures Decompress(Compress(input)) == Written(input)
  {
    assert ([PassMarker] + input)[1..] == input;
  }

  /** Decoding the first j bits of an encoding emits a prefix of the input,
      and the whole input exactly when no bit is missing. */
  lemma PrefixDecode(root: Tree, input: seq<byte>, j: nat)
    requires root.Node? && Covers(Codes(root), input) && j <= |Encode(Codes(root), input)|
    ensures var r := DecodeBits(root, Walk([], root, |input|), Encode(Codes(root), input)[..j]);
      r.out <= input && (r.out == input <==> j == |Encode(Codes(root), input)|)
  {
    if j < |Encode(Codes(root), input)| {
      PrefixTruncated(root, input, j);
    } else {
      PrefixWhole(root, input);
    }
  }

  /** All the bits decode to the whole input. */
  lemma PrefixWhole(root: Tree, input: seq<byte>)
    requires root.Node? && Covers(Codes(root), input)
    ensures var bits := Encode(Codes(root), input);
      DecodeBits(root, Walk([], root, |input|), bits[..|bits|]).out == input
  {
    var bits := Encode(Codes(root), input);
    var w := Walk([], root, |input|);
    var done := Walk(input, root, 0);
    DecodeEncoded(root, [], input, 0, []);
    assert Walk([], root, |input| + 0) == w;
    assert [] + input == input;
    assert Walk([] + input, root, 0) == done;
    assert bits + [] == bits;
    assert DecodeBits(root, w, bits) == DecodeBits(root, done, []) == done;
    assert bits[..|bits|] == bits;
  }

  /** A strict prefix of the bits decodes to a strict prefix of the input. */
  lemma PrefixTruncated(root: Tree, input: seq<byte>, j: nat)
    requires root.Node? && Covers(Codes(root), input) && j < |Encode(Codes(root), input)|
    ensures var r := DecodeBits(root, Walk([], root, |input|), Encode(Codes(root), input)[..j]);
      r.out <= input && r.out != input
  {
    var bits := Encode(Codes(root), input);
    var w := Walk([], root, |input|);
    DecodeTruncated(root, [], input, j);
    PrefixWhole(root, input);
    assert bits[..|bits|] == bits[..j] + bits[j..];
    DecodeAppend(root, w, bits[..j], bits[j..]);
  }

  /** The payload as written holds the complete bytes of the codes only,
      so with counts and length that fit their fields the decompressor
      returns a prefix of the input: all of it exactly when the codes fill
      whole bytes. */
  lemma FlushLoss(input: seq<byte>)
    requires SmallLimit < |input| < ShortLimit && |InputTable(input)| < 256 && TwoSymbols(input)
    requires forall b: byte :: multiset(input)[b] < 256
    ensures Decompress(Compress(input)).Written?
    ensures Decompress(Compress(input)).out <= input
    ensures Decompress(Compress(input)).out == input <==> |AltBits(input)| % 8 == 0
  {
    var root := AltTree(input);
    var payload := WriteBits(NewWriter, AltBits(input)).out;
    AltReadBack(input);
    CountsFit(input);
    SmallMod(|input|);
    AltRoot(input);
    NodeDecode(|input|, Histogram(input), payload, root);
    assert Decompress(Compress(input)) == Written(DecodeBytes(root, Walk([], root, |input|), payload).out);
    UnflushedDecode(root, input);
  }

  lemma SmallMod(k: nat)
    requires k < ShortLimit
    ensures k % ShortLimit == k
  {
  }

  /** The complete bytes of n bits need no padding. */
  lemma WholeBytes(n: nat)
    ensures PadLength(n - n % 8) == 0
  {
    assert n - n % 8 == 8 * (n / 8);
  }

  /** Counts below 256 survive the one-byte field. */
  lemma CountsFit(input: seq<byte>)
    requires forall b: byte :: multiset(input)[b] < 256
    ensures Mod256(Histogram(input)) == Histogram(input)
  {
    var h := Histogram(input);
    forall b: byte ensures Mod256(h)[b] == h[b] {
      assert h[b] == multiset(input)[b];
    }
  }

  /** With two distinct bytes the compressor's tree has an internal root
      and a code for every input byte. */
  lemma AltRoot(input: seq<byte>)
    requires TwoSymbols(input)
    ensures AltTree(input).Node? && Covers(Codes(AltTree(input)), input)
    ensures |Leaves(AltTree(input))| == |InputTable(input)| >= 2
  {
    var h := Histogram(input);
    var root := AltTree(input);
    BuildFromCountsProps(h);
    assert InputTable(input) == Table(h);
    TwoSymbolsRoot(root, input);
    CoveredByLeaves(root, input);
  }

  /** The walk over an internal root, once size and payload are non-trivial. */
  lemma NodeDecode(size: nat, freq: seq<int>, payload: seq<byte>, root: Tree)
    requires |freq| == 256 && size > 0 && BuildFromCounts(freq) == Some(root) && root.Node?
    ensures DecodeHuffman(size, freq, payload) == Written(DecodeBytes(root, Walk([], root, size), payload).out)
  {
  }

  /** Walking the bytes that writeBits emitted, without a flush, gives a
      prefix of the input, all of it exactly when the codes fill whole bytes. */
  lemma UnflushedDecode(root: Tree, input: seq<byte>)
    requires root.Node? && Covers(Codes(root), input)
    ensures var bits := Encode(Codes(root), input);
      var out := DecodeBytes(root, Walk([], root, |input|), WriteBits(NewWriter, bits).out).out;
      out <= input && (out == input <==> |bits| % 8 == 0)
  {
    var bits := Encode(Codes(root), input);
    var full := |bits| - |bits| % 8;
    UnflushedOutput(bits);
    CompleteBytesBits(bits);
    DecodeBytesBits(root, Walk([], root, |input|), Pack(bits[..full]));
    PrefixDecode(root, input, full);
  }

  /** The complete bytes of a bit string unpack to exactly those bits. */
  lemma CompleteBytesBits(bits: seq<bool>)
    ensures Unpack(Pack(bits[..|bits| - |bits| % 8])) == bits[..|bits| - |bits| % 8]
  {
    var full := |bits| - |bits| % 8;
    UnpackPack(bits[..full]);
    WholeBytes(|bits|);
    assert bits[..full] + Zeros(0) == bits[..full];
  }

  /** An input over two byte values, such as eight 'A' and one 'B', gets
      one-bit codes; when its length is not a multiple of 8 the last bits
      stay in the writer and a proper prefix comes back. */
  lemma TwoByteLoss(input: seq<byte>, x: byte, y: byte)
    requires SmallLimit < |input| < 256 && |input| % 8 != 0
    requires x != y && x in input && y in input
    requires forall i :: 0 <= i < |input| ==> input[i] == x || input[i] == y
    ensures Decompress(Compress(input)).Written?
    ensures Decompress(Compress(input)).out < input
  {
    var root := AltTree(input);
    TwoByteTable(input, x, y);
    AltRoot(input);
    ShortCounts(input);
    TwoLeafCodes(root);
    EncodeLength(Codes(root), input);
    FlushLoss(input);
  }

  /** Two distinct byte values make a two-entry table. */
  lemma TwoByteTable(input: seq<byte>, x: byte, y: byte)
    requires x != y && x in input && y in input
    requires forall i :: 0 <= i < |input| ==> input[i] == x || input[i] == y
    ensures TwoSymbols(input) && |InputTable(input)| == 2
  {
    var i :| 0 <= i < |input| && input[i] == (if input[0] == x then y else x);
    assert TwoSymbols(input);
    AltRoot(input);
    TableWithin(input, x, y);
  }

  lemma TableWithin(input: seq<byte>, x: byte, y: byte)
    requires forall i :: 0 <= i < |input| ==> input[i] == x || input[i] == y
    ensures |InputTable(input)| <= 2
  {
    var es := InputTable(input);
    forall k | 0 <= k < |es| ensures es[k].sym in {x, y} {
      InputTableContents(input, es[k].sym);
    }
    AscendingInSet(es, {x, y});
  }

  /** A table with strictly ascending symbols drawn from S has at most |S| entries. */
  lemma {:induction false} AscendingInSet(es: seq<Entry>, S: set<byte>)
    requires Ascending(es) && forall k :: 0 <= k < |es| ==> es[k].sym in S
    ensures |es| <= |S|
  {
    if es != [] {
      var rest := S - {es[0].sym};
      forall k | 0 <= k < |es| - 1 ensures es[1..][k].sym in rest {
        assert es[1..][k] == es[k + 1];
      }
      AscendingInSet(es[1..], rest);
    }
  }

  /** In an input shorter than 256 bytes every count fits a byte. */
  lemma ShortCounts(input: seq<byte>)
    requires |input| < 256
    ensures forall b: byte :: multiset(input)[b] < 256
  {
    var h := Histogram(input);
    forall b: byte ensures multiset(input)[b] < 256 {
      assert h[b] == multiset(input)[b];
    }
  }

  /** Eight 'A' and one 'B'. */
  const FlushExample: seq<byte> := [65, 65, 65, 65, 65, 65, 65, 65, 66]

  /** Only the first eight bytes of the example come back. */
  lemma FlushLossExample()
    ensures Decompress(Compress(FlushExample)).Written?
    ensures Decompress(Compress(FlushExample)).out < FlushExample
  {
    TwoByteLoss(FlushExample, 65, 66);
  }

  /** In a tree of two leaves every code is one bit long. */
  lemma TwoLeafCodes(t: Tree)
    requires t.Node? && |Leaves(t)| == 2
    ensures forall i :: 0 <= i < |Codes(t)| ==> |Codes(t)[i].code| == 1
  {
    OneLeaf(t.left);
    OneLeaf(t.right);
    assert [] + [false] == [false] && [] + [true] == [true];
    assert GenCodes(t.left, [] + [false]) == [CodeEntry(t.left.sym, [false])];
    assert GenCodes(t.right, [] + [true]) == [CodeEntry(t.right.sym, [true])];
    assert Codes(t) == GenCodes(t.left, [] + [false]) + GenCodes(t.right, [] + [true]);
  }

  /** With one-bit codes the encoding has one bit per input byte. */
  lemma {:induction false} EncodeLength(cs: seq<CodeEntry>, input: seq<byte>)
    requires Covers(cs, input) && forall i :: 0 <= i < |cs| ==> |cs[i].code| == 1
    ensures |Encode(cs, input)| == |input|
    decreases |input|
  {
    if input != [] {
      CoversTail(cs, input);
      EncodeLength(cs, input[1..]);
    }
  }

  /** A byte whose count reads back as zero has no leaf, so the walk never
      emits it. */
  lemma AbsentStaysAbsent(size: nat, freq: seq<int>, payload: seq<byte>, b: byte)
    requires |freq| == 256 && freq[b] <= 0
    ensures DecodeHuffman(size, freq, payload).Written? ==> b !in DecodeHuffman(size, freq, payload).out
  {
    if payload != [] && size > 0 && BuildFromCounts(freq).Some? && BuildFromCounts(freq).value.Node? {
      var root := BuildFromCounts(freq).value;
      NoLeafFor(freq, b);
      WalkAvoids(root, size, payload, b);
    }
  }

  /** The tree rebuilt from counts has no leaf for a byte whose count is not positive. */
  lemma NoLeafFor(freq: seq<int>, b: byte)
    requires |freq| == 256 && freq[b] <= 0 && BuildFromCounts(freq).Some?
    ensures b !in Symbols(BuildFromCounts(freq).value)
  {
    var root := BuildFromCounts(freq).value;
    var ls := LeafSeq(Table(freq));
    BuildFromCountsProps(freq);
    forall l | l in Leaves(root) ensures l.sym != b {
      assert l in multiset(ls);
      var k :| 0 <= k < |ls| && ls[k] == l;
    }
    NotASymbol(root, b);
  }

  /** The byte loop emits only symbols of the tree. */
  lemma WalkAvoids(root: Tree, size: nat, payload: seq<byte>, b: byte)
    requires root.Node? && b !in Symbols(root)
    ensures b !in DecodeBytes(root, Walk([], root, size), payload).out
  {
    DecodeBytesBits(root, Walk([], root, size), payload);
    DecodeSymbols(root, Walk([], root, size), Unpack(payload));
  }

  /** A byte that occurs a multiple of 256 times is stored with count 0 and
      cannot come back, so such an input is never restored. */
  lemma CountWrapLoses(input: seq<byte>, b: byte)
    requires SmallLimit < |input| < HuffmanCoding.IntLimit
    requires b in input && multiset(input)[b] % 256 == 0
    ensures Decompress(Compress(input)) != Written(input)
  {
    WrappedCountZero(input, b);
    AltFieldsRead(input);
    AbsentFromFile(Compress(input), b);
  }

  /** A Huffman file whose counts give `b` no positive count never
      decompresses to anything containing `b`. */
  lemma AbsentFromFile(file: seq<byte>, b: byte)
    requires file != [] && file[0] == HuffMarker
    requires ReadFields(file).Some? ==> ReadFields(file).value.freq[b] <= 0
    ensures Decompress(file).Written? ==> b !in Decompress(file).out
  {
    match ReadFields(file)
    case None =>
    case Some(f) =>
      AbsentStaysAbsent(f.size, f.freq, f.payload, b);
  }

  /** 256 copies of 'A' followed by one 'B'. */
  function CountExample(): (s: seq<byte>)
    ensures |s| == 257
  {
    seq(256, _ => 65) + [66]
  }

  /** The 256 'A' are stored with count 0: the example never comes back. */
  lemma CountWrapExample()
    ensures Decompress(Compress(CountExample())) != Written(CountExample())
  {
    var input := CountExample();
    RepeatCount(256, 65);
    assert multiset(input) == multiset(seq(256, _ => 65)) + multiset{66};
    assert input[0] == 65;
    CountWrapLoses(input, 65);
  }

  lemma {:induction false} RepeatCount(n: nat, x: byte)
    ensures multiset(seq(n, _ => x))[x] == n
  {
    if n > 0 {
      assert seq(n, _ => x) == seq(n - 1, _ => x) + [x];
      RepeatCount(n - 1, x);
    }
  }

  /** The count array the decompressor builds. */
  lemma AltFieldsRead(input: seq<byte>)
    requires SmallLimit < |input| < HuffmanCoding.IntLimit
    ensures var es := InputTable(input);
      ReadFields(Compress(input)).Some? ==>
        ReadFields(Compress(input)).value.freq == Assign(Zero256(), Wrap(es[..CountByte(es)]))
  {
    AltFields(input);
  }

  /** Such a byte reads back with count zero. */
  lemma WrappedCountZero(input: seq<byte>, b: byte)
    requires b in input && multiset(input)[b] % 256 == 0
    ensures var es := InputTable(input);
      Assign(Zero256(), Wrap(es[..CountByte(es)]))[b] == 0
  {
    var es := InputTable(input);
    var ws := Wrap(es[..CountByte(es)]);
    InputTableContents(input, b);
    forall k | 0 <= k < |ws| && ws[k].sym == b ensures ws[k].freq == 0 {
      assert ws[k] == Entry(es[k].sym, es[k].freq % 256);
    }
    assert Ascending(ws) by {
      forall k, m | 0 <= k < m < |ws| ensures ws[k].sym < ws[m].sym {
        assert ws[k].sym == es[k].sym && ws[m].sym == es[m].sym;
      }
    }
    AssignLookup(Zero256(), ws, b);
  }

  /** An input of 2^16 bytes or more is announced with its length modulo
      2^16, and fewer bytes than that come back. */
  lemma SizeWrapLoses(input: seq<byte>)
    requires ShortLimit <= |input| < HuffmanCoding.IntLimit
    ensures Decompress(Compress(input)) != Written(input)
  {
  }

  /** An input of more than eight copies of one byte gets an empty code:
      the file is the header alone and nothing comes back. */
  lemma SingleSymbolLost(input: seq<byte>)
    requires SmallLimit < |input| < HuffmanCoding.IntLimit && !TwoSymbols(input)
    ensures Decompress(Compress(input)) == Written([])
  {
    SingleLeafCodes(input);
    SingleSymbolTable(input);
    AltFields(input);
    EmptyPayloadFile(Compress(input), 1);
  }

  /** A Huffman file that ends where its pairs end decompresses to nothing. */
  lemma EmptyPayloadFile(file: seq<byte>, n: nat)
    requires file != [] && file[0] == HuffMarker && GetC(file, 1) == n && |file| <= 4 + 2 * n
    ensures Decompress(file) == Written([])
  {
    assert ReadFields(file) == None;
  }

  /** An input of one repeated byte is encoded with no bits at all. */
  lemma SingleLeafCodes(input: seq<byte>)
    requires input != [] && !TwoSymbols(input)
    ensures AltBits(input) == [] && WriteBits(NewWriter, AltBits(input)).out == []
  {
    var es := InputTable(input);
    var root := AltTree(input);
    SingleSymbolTable(input);
    BuildFromCountsProps(Histogram(input));
    assert LeafSeq(es) == [Leaf(input[0], |input|)];
    OneLeaf(root);
  }

  // ---------------------------------------------------------------------
  // The corrected codec

  /** Length of the corrected Huffman header before the table: marker,
      entry count (2 bytes), input length (4 bytes). */
  const FixedHeader := 7

  /** compressFile with the three defects fixed: the entry count and the
      length get fields wide enough for every input, each count is stored
      as in huffman_coding.c (symbol byte, 4-byte `int`), and the last
      partial byte is flushed. */
  function CompressFixed(input: seq<byte>): (file: seq<byte>)
    requires |input| < HuffmanCoding.IntLimit
    ensures |input| <= SmallLimit ==> file == [PassMarker] + input
    ensures |input| > SmallLimit ==> |file| >= FixedHeader && file[0] == HuffMarker
  {
    if |input| <= SmallLimit then [PassMarker] + input
    else
      var es := InputTable(input);
      [HuffMarker] + EncodeLE(|es|, 2) + EncodeLE(|input|, 4) + HuffmanCoding.TableBytes(es)
        + Flush(WriteBits(NewWriter, AltBits(input)))
  }

  /** The corrected walk: a lone-leaf root repeats its symbol `size` times;
      a missing tree or a payload that ends before `size` bytes are out is
      rejected. */
  function DecodeFixed(size: nat, freq: seq<int>, payload: seq<byte>): (res: Result)
    requires |freq| == 256
    ensures res.Written? || res.Rejected?
    ensures res.Written? ==> |res.out| == size
  {
    var built := BuildFromCounts(freq);
    if built.None? then (if size == 0 then Written([]) else Rejected)
    else DecodeFixedRoot(built.value, size, payload)
  }

  /** The corrected walk once a tree exists. */
  function DecodeFixedRoot(root: Tree, size: nat, payload: seq<byte>): (res: Result)
    ensures res.Written? || res.Rejected?
    ensures res.Written? ==> |res.out| == size
  {
    if root.Leaf? then Written(seq(size, _ => root.sym))
    else
      var w := DecodeBytes(root, Walk([], root, size), payload);
      if w.left > 0 then Rejected else Written(w.out)
  }

  /** The corrected header: entry count, length, the table, and the payload
      after it; None when the file is too short for the header or the table. */
  function FixedFields(file: seq<byte>): (f: Option<Fields>)
    ensures f.Some? ==> |f.value.freq| == 256
  {
    if |file| < FixedHeader then None
    else
      var unique := DecodeLE(file[1..3]);
      match HuffmanCoding.ParseTable(file[FixedHeader..], unique)
      case None => None
      case Some(es) =>
        Some(Fields(DecodeLE(file[3..7]), Assign(Zero256(), es), file[FixedHeader + 5 * unique..]))
  }

  /** decompressFile for the corrected format; files too short for their
      header or table are rejected. */
  function DecompressFixed(file: seq<byte>): (res: Result)
    ensures res.Written? || res.Rejected?
    ensures file != [] && file[0] != PassMarker && FixedFields(file).None? ==> res == Rejected
  {
    if file == [] || file[0] == PassMarker then Written(Passthrough(file))
    else
      match FixedFields(file)
      case None => Rejected
      case Some(f) => DecodeFixed(f.size, f.freq, f.payload)
  }

  /** The corrected codec restores every input. */
  lemma RoundTripFixed(input: seq<byte>)
    requires |input| < HuffmanCoding.IntLimit
    ensures DecompressFixed(CompressFixed(input)) == Written(input)
  {
    if |input| <= SmallLimit {
      assert ([PassMarker] + input)[1..] == input;
    } else {
      FixedReadBack(input);
      if TwoSymbols(input) {
        FixedTwo(input);
      } else {
        FixedOne(input);
      }
    }
  }

  /** The corrected decompressor reads back the length, the exact counts
      and the flushed payload. */
  lemma FixedReadBack(input: seq<byte>)
    requires SmallLimit < |input| < HuffmanCoding.IntLimit
    ensures DecompressFixed(CompressFixed(input)) ==
      DecodeFixed(|input|, Histogram(input), Flush(WriteBits(NewWriter, AltBits(input))))
  {
    var es := InputTable(input);
    var payload := Flush(WriteBits(NewWriter, AltBits(input)));
    var a, b := EncodeLE(|es|, 2), EncodeLE(|input|, 4);
    var file := [HuffMarker] + a + b + HuffmanCoding.TableBytes(es) + payload;
    assert CompressFixed(input) == file;
    FixedLayout(a, b, HuffmanCoding.TableBytes(es), payload);
    LengthFields(|es|, |input|);
    HuffmanCoding.ParseTableBytes(es, payload);
    AssignTable(Histogram(input));
    FixedFile(file, Fields(|input|, Histogram(input), payload));
  }

  /** decompressFile of the corrected format on a file whose fields are known. */
  lemma FixedFile(file: seq<byte>, f: Fields)
    requires |f.freq| == 256
    requires file != [] && file[0] == HuffMarker && FixedFields(file) == Some(f)
    ensures DecompressFixed(file) == DecodeFixed(f.size, f.freq, f.payload)
  {
  }

  /** Both length fields read back. */
  lemma LengthFields(n: nat, size: nat)
    requires n <= 256 && size < HuffmanCoding.IntLimit
    ensures DecodeLE(EncodeLE(n, 2)) == n && DecodeLE(EncodeLE(size, 4)) == size
  {
    ShortBytes();
    IntBytes();
    DecodeEncodeLE(n, 2);
    DecodeEncodeLE(size, 4);
  }

  /** Where the fields of a corrected header sit in a file that starts with it. */
  lemma FixedLayout(a: seq<byte>, b: seq<byte>, t: seq<byte>, p: seq<byte>)
    requires |a| == 2 && |b| == 4
    ensures var file := [HuffMarker] + a + b + t + p;
      && file[0] == HuffMarker && file[1..3] == a && file[3..7] == b
      && file[FixedHeader..] == t + p && file[FixedHeader + |t|..] == p
  {
    var file := [HuffMarker] + a + b + t + p;
    assert file == [HuffMarker] + (a + (b + (t + p)));
    assert file[1..] == a + (b + (t + p));
    assert file[3..] == b + (t + p);
  }

  lemma IntBytes()
    ensures Pow256(4) > HuffmanCoding.IntLimit
  {
  }

  /** Two distinct bytes: the flushed payload decodes to the whole input. */
  lemma FixedTwo(input: seq<byte>)
    requires TwoSymbols(input)
    ensures DecodeFixed(|input|, Histogram(input), Flush(WriteBits(NewWriter, AltBits(input)))) == Written(input)
  {
    var root := AltTree(input);
    var bits := AltBits(input);
    var payload := Flush(WriteBits(NewWriter, bits));
    AltRoot(input);
    FlushedDecode(root, input);
    assert DecodeFixed(|input|, Histogram(input), payload) ==
      (var w := DecodeBytes(root, Walk([], root, |input|), payload); if w.left > 0 then Rejected else Written(w.out));
  }

  /** Walking the flushed payload emits exactly the input. */
  lemma FlushedDecode(root: Tree, input: seq<byte>)
    requires root.Node? && Covers(Codes(root), input)
    ensures DecodeBytes(root, Walk([], root, |input|), Flush(WriteBits(NewWriter, Encode(Codes(root), input))))
         == Walk(input, root, 0)
  {
    var bits := Encode(Codes(root), input);
    var pad := Zeros(PadLength(|bits|));
    WriterPacks(bits);
    UnpackPack(bits);
    DecodeBytesBits(root, Walk([], root, |input|), Pack(bits));
    DecodeEncoded(root, [], input, 0, pad);
    assert [] + input == input;
  }

  /** One repeated byte: the lone leaf repeats it `size` times. */
  lemma FixedOne(input: seq<byte>)
    requires input != [] && !TwoSymbols(input)
    ensures DecodeFixed(|input|, Histogram(input), Flush(WriteBits(NewWriter, AltBits(input)))) == Written(input)
  {
    var es := InputTable(input);
    var root := AltTree(input);
    SingleSymbolTable(input);
    BuildFromCountsProps(Histogram(input));
    assert LeafSeq(es) == [Leaf(input[0], |input|)];
    OneLeaf(root);
    assert root == Leaf(input[0], |input|);
    assert seq(|input|, _ => input[0]) == input;
  }
}
