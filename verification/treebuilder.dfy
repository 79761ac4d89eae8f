/** Counting the input bytes and building the Huffman tree from the counts:
    the frequency pass and table of both compressors and the two
    `buildHuffmanTree` functions. Both merge loops take the two minima off the
    heap and push their parent back until one tree is left. */
module TreeBuilder {
  import opened Bytes
  import opened HuffTree
  import opened MinHeap

  // ---------------------------------------------------------------------
  // Frequencies

  /** Occurrences of b in the input. */
  function Count(input: seq<byte>, b: byte): (n: nat)
    ensures n == multiset(input)[b] && n <= |input|
  {
    if input == [] then 0
    else
      assert input == [input[0]] + input[1..];
      (if input[0] == b then 1 else 0) + Count(input[1..], b)
  }

  /** The `freq[256]` array filled by the counting loop of both compressors. */
  function Histogram(input: seq<byte>): (h: seq<nat>)
    ensures |h| == 256
    ensures forall b: byte :: h[b] == multiset(input)[b] && h[b] <= |input|
  {
    seq(256, b requires 0 <= b < 256 => Count(input, b))
  }

  /** One `(symbol, frequency)` pair: `data[i]`/`freqValues[i]` in
      huffman_coding.c, a stored table record in either container. */
  datatype Entry = Entry(sym: byte, freq: int)

  /** The pairs with a positive count, in ascending symbol order, from symbol
      i on (the table-filling loop; huffman_coding.c tests `freq[i] != 0` and
      huffman.c `freq[i] > 0`, which agree on counts). */
  function TableFrom(h: seq<int>, i: nat): (es: seq<Entry>)
    requires |h| == 256 && i <= 256
    ensures forall k :: 0 <= k < |es| ==> i <= es[k].sym && es[k].freq == h[es[k].sym] > 0
    ensures forall k, m :: 0 <= k < m < |es| ==> es[k].sym < es[m].sym
    decreases 256 - i
  {
    if i == 256 then []
    else
      var rest := TableFrom(h, i + 1);
      if h[i] > 0 then
        var es := [Entry(i, h[i])] + rest;
        assert forall k :: 0 < k < |es| ==> es[k] == rest[k - 1];
        es
      else rest
  }

  /** Every symbol from i on with a positive count has an entry. */
  lemma {:induction false} TableFromMember(h: seq<int>, i: nat, b: byte)
    requires |h| == 256 && i <= b && h[b] > 0
    ensures exists k :: 0 <= k < |TableFrom(h, i)| && TableFrom(h, i)[k].sym == b
    decreases 256 - i
  {
    var rest := TableFrom(h, i + 1);
    if i == b {
      assert TableFrom(h, i)[0].sym == b;
    } else {
      TableFromMember(h, i + 1, b);
      var k :| 0 <= k < |rest| && rest[k].sym == b;
      if h[i] > 0 {
        assert TableFrom(h, i)[k + 1] == rest[k];
      } else {
        assert TableFrom(h, i)[k] == rest[k];
      }
    }
  }

  /** The frequency table of a count array. */
  function Table(h: seq<int>): seq<Entry>
    requires |h| == 256
  {
    TableFrom(h, 0)
  }

  /** The table lists every symbol with a positive count, once, with its count,
      and no other symbol. */
  lemma TableContents(h: seq<int>, b: byte)
    requires |h| == 256
    ensures (exists k :: 0 <= k < |Table(h)| && Table(h)[k].sym == b) <==> h[b] > 0
    ensures forall k :: 0 <= k < |Table(h)| && Table(h)[k].sym == b ==> Table(h)[k].freq == h[b]
  {
    var es := Table(h);
    if h[b] > 0 {
      TableFromMember(h, 0, b);
    } else {
      forall k | 0 <= k < |es| ensures es[k].sym != b {
        assert h[es[k].sym] > 0;
      }
    }
  }

  /** The sum of the stored frequencies. */
  function SumFreq(es: seq<Entry>): int
  {
    if es == [] then 0 else es[0].freq + SumFreq(es[1..])
  }

  /** The table of a histogram adds up to the input length. */
  lemma {:induction false} TableSum(h: seq<int>, i: nat)
    requires |h| == 256 && i <= 256
    ensures SumFreq(TableFrom(h, i)) == SumPositive(h, i)
    decreases 256 - i
  {
    if i < 256 {
      TableSum(h, i + 1);
      if h[i] > 0 {
        assert ([Entry(i, h[i])] + TableFrom(h, i + 1))[1..] == TableFrom(h, i + 1);
      }
    }
  }

  /** The sum of the positive counts from index i on. */
  function SumPositive(h: seq<int>, i: nat): int
    requires |h| == 256 && i <= 256
    decreases 256 - i
  {
    if i == 256 then 0 else (if h[i] > 0 then h[i] else 0) + SumPositive(h, i + 1)
  }

  /** Counting the bytes and summing the counts gives back the input length. */
  lemma HistogramTotal(input: seq<byte>)
    ensures SumPositive(Histogram(input), 0) == |input|
  {
    HistogramSum(input, 0);
    CountsSum(input);
  }

  lemma {:induction false} HistogramSum(input: seq<byte>, i: nat)
    requires i <= 256
    ensures SumPositive(Histogram(input), i) == CountsFrom(input, i)
    decreases 256 - i
  {
    if i < 256 {
      HistogramSum(input, i + 1);
    }
  }

  /** The number of input bytes whose value is at least i. */
  function CountsFrom(input: seq<byte>, i: nat): nat
    requires i <= 256
    decreases 256 - i
  {
    if i == 256 then 0 else Count(input, i) + CountsFrom(input, i + 1)
  }

  lemma {:induction false} CountsSum(input: seq<byte>)
    ensures CountsFrom(input, 0) == |input|
  {
    if input != [] {
      CountsSum(input[1..]);
      CountsFromCons(input, 0);
      assert CountsFrom(input, 0) == CountsFrom(input[1..], 0) + 1;
    } else {
      CountsFromEmpty(input, 0);
    }
  }

  lemma {:induction false} CountsFromEmpty(input: seq<byte>, i: nat)
    requires input == [] && i <= 256
    ensures CountsFrom(input, i) == 0
    decreases 256 - i
  {
    if i < 256 {
      CountsFromEmpty(input, i + 1);
    }
  }

  lemma {:induction false} CountsFromCons(input: seq<byte>, i: nat)
    requires input != [] && i <= 256
    ensures CountsFrom(input, i) == CountsFrom(input[1..], i) + (if i <= input[0] then 1 else 0)
    decreases 256 - i
  {
    if i < 256 {
      CountsFromCons(input, i + 1);
    }
  }

  // ---------------------------------------------------------------------
  // The table of an input

  /** The frequency table both compressors build: every input byte with its
      count, in ascending symbol order. */
  function InputTable(input: seq<byte>): (es: seq<Entry>)
    ensures |es| <= 256
    ensures forall k :: 0 <= k < |es| ==> 0 < es[k].freq <= |input|
  {
    var h := Histogram(input);
    var es := Table(h);
    assert forall k :: 0 <= k < |es| ==> es[k].freq == h[es[k].sym];
    SymbolsBound(es);
    es
  }

  /** A strictly ascending table of bytes has at most 256 entries. */
  lemma SymbolsBound(es: seq<Entry>)
    requires forall k, m :: 0 <= k < m < |es| ==> es[k].sym < es[m].sym
    ensures |es| <= 256
  {
    if es != [] {
      AscendingGap(es, |es| - 1);
    }
  }

  lemma {:induction false} AscendingGap(es: seq<Entry>, k: nat)
    requires forall i, m :: 0 <= i < m < |es| ==> es[i].sym < es[m].sym
    requires k < |es|
    ensures es[k].sym >= es[0].sym + k
  {
    if k > 0 {
      AscendingGap(es, k - 1);
    }
  }

  /** An input byte has a table entry; a table entry's count is the byte's count. */
  lemma InputTableContents(input: seq<byte>, b: byte)
    ensures (exists k :: 0 <= k < |InputTable(input)| && InputTable(input)[k].sym == b) <==> b in input
    ensures forall k :: 0 <= k < |InputTable(input)| && InputTable(input)[k].sym == b ==>
              InputTable(input)[k].freq == multiset(input)[b]
  {
    var h := Histogram(input);
    assert InputTable(input) == Table(h);
    TableContents(h, b);
    assert h[b] == multiset(input)[b];
    assert b in input <==> b in multiset(input);
  }

  /** The table is empty exactly for the empty input (`uniqueChars == 0`). */
  lemma InputTableEmpty(input: seq<byte>)
    ensures InputTable(input) == [] <==> input == []
  {
    if input != [] {
      InputTableContents(input, input[0]);
    } else {
      InputTableSum(input);
      SumAtLeastLength(InputTable(input));
    }
  }

  /** The stored counts add up to the input length. */
  lemma InputTableSum(input: seq<byte>)
    ensures SumFreq(InputTable(input)) == |input|
  {
    TableSum(Histogram(input), 0);
    HistogramTotal(input);
  }

  lemma {:induction false} SumAtLeastLength(es: seq<Entry>)
    requires forall k :: 0 <= k < |es| ==> es[k].freq >= 1
    ensures SumFreq(es) >= |es|
  {
    if es != [] {
      SumAtLeastLength(es[1..]);
    }
  }

  /** The input has two different bytes. */
  ghost predicate TwoSymbols(input: seq<byte>)
  {
    input != [] && exists i :: 0 <= i < |input| && input[i] != input[0]
  }

  /** An input of one repeated byte has a one-entry table. */
  lemma SingleSymbolTable(input: seq<byte>)
    requires input != [] && !TwoSymbols(input)
    ensures InputTable(input) == [Entry(input[0], |input|)]
  {
    var es := InputTable(input);
    var x := input[0];
    InputTableContents(input, x);
    var k :| 0 <= k < |es| && es[k].sym == x;
    forall m | 0 <= m < |es| ensures es[m].sym == x {
      InputTableContents(input, es[m].sym);
      assert es[m].sym in input;
    }
    AscendingGap(es, |es| - 1);
    assert es[|es| - 1].sym == x && es[0].sym == x;
    assert multiset(input)[x] == |input| by {
      AllSame(input);
    }
  }

  lemma {:induction false} AllSame(input: seq<byte>)
    requires input != [] && !TwoSymbols(input)
    ensures multiset(input)[input[0]] == |input|
  {
    if |input| > 1 {
      var tail := input[1..];
      assert input[1] == input[0];
      forall i | 0 <= i < |tail| ensures tail[i] == tail[0] {
        assert tail[i] == input[i + 1];
      }
      AllSame(tail);
      assert input == [input[0]] + tail;
    } else {
      assert input == [input[0]];
    }
  }

  // ---------------------------------------------------------------------
  // The merge loop

  /** The trees of a forest are all well formed. */
  ghost predicate AllWellFormed(s: seq<Tree>)
  {
    forall t :: t in s ==> WellFormed(t)
  }

  /** One round of the loop body: extract the two minima and push their
      parent (left = first extracted) back onto the heap. */
  function MergeOnce(h: seq<Tree>): (r: seq<Tree>)
    requires |h| >= 2
    ensures |r| == |h| - 1
  {
    var first := ExtractMin(h);
    var second := ExtractMin(first.1);
    Insert(second.1, Node(first.0.freq + second.0.freq, first.0, second.0))
  }

  /** `while (size != 1)` (`size > 1` in huffman.c) followed by the final
      extractMin: the last tree left is the root, and it carries every leaf of
      the starting forest and the forest's total frequency. */
  function MergeAll(h: seq<Tree>): (root: Tree)
    requires |h| >= 1
    ensures Leaves(root) == ForestLeaves(h)
    ensures root.freq == ForestFreq(h)
    decreases |h|
  {
    if |h| == 1 then
      assert h[1..] == [];
      h[0]
    else
      MergeOnceTotals(h);
      MergeAll(MergeOnce(h))
  }

  /** One merge step on a heap joins a minimum with a minimum of what is left,
      and leaves a heap. */
  lemma MergeOnceHeap(h: seq<Tree>)
    requires |h| >= 2 && IsHeap(h)
    ensures forall j :: 0 <= j < |h| ==> ExtractMin(h).0.freq <= h[j].freq
    ensures forall j :: 0 <= j < |h| - 1 ==> ExtractMin(ExtractMin(h).1).0.freq <= ExtractMin(h).1[j].freq
    ensures IsHeap(MergeOnce(h))
  {
    var first := ExtractMin(h);
    ExtractMinHeap(h);
    ExtractMinHeap(first.1);
    var second := ExtractMin(first.1);
    var n := Node(first.0.freq + second.0.freq, first.0, second.0);
    assert MergeOnce(h) == Insert(second.1, n);
    InsertHeap(second.1, n);
  }

  lemma ForestSplit(a: seq<Tree>, x: Tree, b: seq<Tree>)
    requires multiset(a) == multiset(b) + multiset{x}
    ensures ForestLeaves(a) == Leaves(x) + ForestLeaves(b)
    ensures ForestFreq(a) == x.freq + ForestFreq(b)
  {
    assert multiset([x] + b) == multiset(a);
    ForestPermutation(a, [x] + b);
    assert ([x] + b)[1..] == b;
  }

  /** A merge step keeps the leaves and total frequency of the forest, and
      keeps its trees well formed. */
  lemma MergeOnceForest(h: seq<Tree>)
    requires |h| >= 2
    ensures ForestLeaves(MergeOnce(h)) == ForestLeaves(h)
    ensures ForestFreq(MergeOnce(h)) == ForestFreq(h)
    ensures AllWellFormed(h) ==> AllWellFormed(MergeOnce(h))
  {
    MergeOnceTotals(h);
    if AllWellFormed(h) {
      MergeOnceWellFormed(h);
    }
  }

  lemma MergeOnceTotals(h: seq<Tree>)
    requires |h| >= 2
    ensures ForestLeaves(MergeOnce(h)) == ForestLeaves(h)
    ensures ForestFreq(MergeOnce(h)) == ForestFreq(h)
  {
    var x, h1, y, h2 := MergeOnceParts(h);
    MergeParts(h, x, h1, y, h2, MergeOnce(h));
  }

  /** The two trees a merge step extracts, the heaps left after each
      extraction, and how the step's result is made of them. */
  lemma MergeOnceParts(h: seq<Tree>) returns (x: Tree, h1: seq<Tree>, y: Tree, h2: seq<Tree>)
    requires |h| >= 2
    ensures multiset(h1) + multiset{x} == multiset(h)
    ensures multiset(h2) + multiset{y} == multiset(h1)
    ensures multiset(MergeOnce(h)) == multiset(h2) + multiset{Node(x.freq + y.freq, x, y)}
  {
    var first := ExtractMin(h);
    var second := ExtractMin(first.1);
    x, h1, y, h2 := first.0, first.1, second.0, second.1;
  }

  /** Taking out x and y and putting in their join keeps the leaves and the
      total frequency. */
  lemma MergeParts(h: seq<Tree>, x: Tree, h1: seq<Tree>, y: Tree, h2: seq<Tree>, h3: seq<Tree>)
    requires multiset(h1) + multiset{x} == multiset(h)
    requires multiset(h2) + multiset{y} == multiset(h1)
    requires multiset(h3) == multiset(h2) + multiset{Node(x.freq + y.freq, x, y)}
    ensures ForestLeaves(h3) == ForestLeaves(h)
    ensures ForestFreq(h3) == ForestFreq(h)
  {
    ForestSplit(h, x, h1);
    ForestSplit(h1, y, h2);
    ForestSplit(h3, Node(x.freq + y.freq, x, y), h2);
  }

  lemma MergeOnceWellFormed(h: seq<Tree>)
    requires |h| >= 2 && AllWellFormed(h)
    ensures AllWellFormed(MergeOnce(h))
  {
    var first := ExtractMin(h);
    var second := ExtractMin(first.1);
    var n := Node(first.0.freq + second.0.freq, first.0, second.0);
    var h3 := Insert(second.1, n);
    assert MergeOnce(h) == h3;
    WellFormedSplit(h, first.0, first.1);
    WellFormedSplit(first.1, second.0, second.1);
    WellFormedJoin(h3, n, second.1);
  }


  lemma WellFormedSplit(a: seq<Tree>, x: Tree, b: seq<Tree>)
    requires multiset(a) == multiset(b) + multiset{x} && AllWellFormed(a)
    ensures WellFormed(x) && AllWellFormed(b)
  {
    assert x in multiset(a);
    forall t | t in b ensures WellFormed(t) {
      assert t in multiset(b);
      assert t in multiset(a);
    }
  }

  lemma WellFormedJoin(a: seq<Tree>, x: Tree, b: seq<Tree>)
    requires multiset(a) == multiset(b) + multiset{x} && AllWellFormed(b) && WellFormed(x)
    ensures AllWellFormed(a)
  {
    forall t | t in a ensures WellFormed(t) {
      assert t in multiset(a);
      if t != x {
        assert t in multiset(b);
      }
    }
  }

  /** The root carries exactly the leaves of the starting forest, its
      frequency is the forest's total, and it is well formed when the
      forest's trees are. */
  lemma {:induction false} MergeAllLeaves(h: seq<Tree>)
    requires |h| >= 1
    ensures Leaves(MergeAll(h)) == ForestLeaves(h)
    ensures MergeAll(h).freq == ForestFreq(h)
    ensures AllWellFormed(h) ==> WellFormed(MergeAll(h))
    decreases |h|
  {
    if |h| == 1 {
      assert h[1..] == [];
      assert h[0] in h;
    } else {
      MergeOnceForest(h);
      MergeAllLeaves(MergeOnce(h));
    }
  }

  // ---------------------------------------------------------------------
  // The two buildHuffmanTree functions

  /** One leaf per table entry, in table order (`newNode(data[i], freq[i])`). */
  function LeafSeq(es: seq<Entry>): (s: seq<Tree>)
    ensures |s| == |es|
    ensures forall k :: 0 <= k < |s| ==> s[k] == Leaf(es[k].sym, es[k].freq)
  {
    seq(|es|, k requires 0 <= k < |es| => Leaf(es[k].sym, es[k].freq))
  }

  /** buildHuffmanTree of huffman_coding.c on a non-empty list: the leaves go
      into the array in list order, buildMinHeap, then the merge loop and the
      final extractMin. The tree is well formed, its leaves are exactly the
      listed (symbol, frequency) pairs and its root frequency is their sum. */
  function BuildFromList(es: seq<Entry>): (root: Tree)
    requires |es| >= 1
    ensures Leaves(root) == multiset(LeafSeq(es))
    ensures root.freq == SumFreq(es)
    ensures WellFormed(root)
  {
    LeafForestProps(LeafSeq(es), BuildHeapCoding(LeafSeq(es)));
    LeafSeqFreq(es);
    MergeAll(BuildHeapCoding(LeafSeq(es)))
  }

  /** buildHuffmanTree(freq, 256) of huffman.c: one leaf per symbol with a
      positive count in ascending order, heapify from (size - 1) / 2, merge;
      None is the NULL that extractMin returns on an empty heap. */
  function BuildFromCounts(freq: seq<int>): (root: Option<Tree>)
    requires |freq| == 256
    ensures root.None? <==> Table(freq) == []
  {
    var heap := BuildHeapAlt(LeafSeq(Table(freq)));
    if |heap| == 0 then None else Some(MergeAll(heap))
  }

  /** huffman.c's tree, when there is one, has one leaf per symbol with a
      positive count, carrying that count, and weighs their sum. */
  lemma BuildFromCountsProps(freq: seq<int>)
    requires |freq| == 256 && BuildFromCounts(freq).Some?
    ensures Leaves(BuildFromCounts(freq).value) == multiset(LeafSeq(Table(freq)))
    ensures BuildFromCounts(freq).value.freq == SumPositive(freq, 0)
    ensures WellFormed(BuildFromCounts(freq).value)
  {
    var leaves, heap := BuildFromCountsParts(freq);
    LeafForestProps(leaves, heap);
    LeafSeqFreq(Table(freq));
    TableSum(freq, 0);
  }

  /** The leaves huffman.c's builder starts from, and the heap it merges. */
  lemma BuildFromCountsParts(freq: seq<int>) returns (leaves: seq<Tree>, heap: seq<Tree>)
    requires |freq| == 256 && BuildFromCounts(freq).Some?
    ensures leaves == LeafSeq(Table(freq))
    ensures forall k :: 0 <= k < |leaves| ==> leaves[k].Leaf?
    ensures |heap| >= 1 && multiset(heap) == multiset(leaves)
    ensures BuildFromCounts(freq).value == MergeAll(heap)
  {
    leaves := LeafSeq(Table(freq));
    heap := BuildHeapAlt(leaves);
  }

  lemma LeafForestProps(leaves: seq<Tree>, heap: seq<Tree>)
    requires |heap| >= 1 && multiset(heap) == multiset(leaves)
    requires forall k :: 0 <= k < |leaves| ==> leaves[k].Leaf?
    ensures Leaves(MergeAll(heap)) == multiset(leaves)
    ensures MergeAll(heap).freq == ForestFreq(leaves)
    ensures WellFormed(MergeAll(heap))
  {
    ForestPermutation(heap, leaves);
    LeafForest(leaves);
    forall t | t in heap ensures WellFormed(t) {
      assert t in multiset(leaves);
    }
    MergeAllLeaves(heap);
  }

  lemma {:induction false} LeafSeqFreq(es: seq<Entry>)
    ensures ForestFreq(LeafSeq(es)) == SumFreq(es)
  {
    if es != [] {
      LeafSeqFreq(es[1..]);
      assert LeafSeq(es)[1..] == LeafSeq(es[1..]);
    }
  }

  /** A leaf of the built tree for each listed entry. */
  lemma ListedLeaf(es: seq<Entry>, k: nat)
    requires |es| >= 1 && k < |es|
    ensures Leaf(es[k].sym, es[k].freq) in Leaves(BuildFromList(es))
  {
    assert LeafSeq(es)[k] == Leaf(es[k].sym, es[k].freq);
  }

  /** Every byte of the input has a code in a tree whose leaves are those
      of the input's table. */
  lemma CoveredByLeaves(root: Tree, input: seq<byte>)
    requires Leaves(root) == multiset(LeafSeq(InputTable(input)))
    ensures Covers(Codes(root), input)
  {
    var es := InputTable(input);
    forall i | 0 <= i < |input| ensures HasCode(Codes(root), input[i]) {
      var x := input[i];
      InputTableContents(input, x);
      var k :| 0 <= k < |es| && es[k].sym == x;
      assert LeafSeq(es)[k] == Leaf(es[k].sym, es[k].freq);
      LeavesHaveCodes(root, [], Leaf(es[k].sym, es[k].freq));
    }
  }

  /** Such a tree has an internal root when the input has two distinct bytes. */
  lemma TwoSymbolsRoot(root: Tree, input: seq<byte>)
    requires Leaves(root) == multiset(LeafSeq(InputTable(input))) && TwoSymbols(input)
    ensures |InputTable(input)| >= 2 && root.Node?
  {
    var es := InputTable(input);
    var i :| 0 <= i < |input| && input[i] != input[0];
    InputTableContents(input, input[i]);
    InputTableContents(input, input[0]);
    var ki :| 0 <= ki < |es| && es[ki].sym == input[i];
    var kj :| 0 <= kj < |es| && es[kj].sym == input[0];
    assert ki != kj;
    assert |Leaves(root)| == |LeafSeq(es)|;
  }
}
