/** Huffman trees as both codecs build them, the code table that
    `generateCodes` derives from a tree, and the bit-by-bit tree walk that both
    decompressors perform. */
module HuffTree {
  import opened Bytes

  /** A node of the C `Node` struct. A node whose two child pointers are NULL is
      a Leaf; every other node the builders create has two children. The
      placeholder character of internal nodes ('$' in huffman_coding.c, 0 in
      huffman.c) is never read and is not represented. */
  datatype Tree = Leaf(sym: byte, freq: int) | Node(freq: int, left: Tree, right: Tree)

  /** The leaf nodes of a tree, with repetition. */
  function Leaves(t: Tree): (m: multiset<Tree>)
    ensures |m| >= 1
    ensures forall l :: l in m ==> l.Leaf?
  {
    match t
    case Leaf(_, _) => multiset{t}
    case Node(_, l, r) => Leaves(l) + Leaves(r)
  }

  /** Every internal node carries the sum of its children's frequencies. */
  ghost predicate WellFormed(t: Tree)
  {
    match t
    case Leaf(_, _) => true
    case Node(f, l, r) => f == l.freq + r.freq && WellFormed(l) && WellFormed(r)
  }

  /** Sum of the leaf frequencies. */
  function Weight(t: Tree): int
  {
    match t
    case Leaf(_, f) => f
    case Node(_, l, r) => Weight(l) + Weight(r)
  }

  lemma {:induction false} WellFormedWeight(t: Tree)
    requires WellFormed(t)
    ensures t.freq == Weight(t)
  {
    match t
    case Leaf(_, _) =>
    case Node(_, l, r) =>
      WellFormedWeight(l);
      WellFormedWeight(r);
  }

  // ---------------------------------------------------------------------
  // Forests: the trees held by the priority queue

  /** The leaves of all trees of a forest. */
  function ForestLeaves(s: seq<Tree>): multiset<Tree>
  {
    if s == [] then multiset{} else Leaves(s[0]) + ForestLeaves(s[1..])
  }

  /** The summed root frequencies of a forest. */
  function ForestFreq(s: seq<Tree>): int
  {
    if s == [] then 0 else s[0].freq + ForestFreq(s[1..])
  }

  lemma {:induction false} ForestAppend(a: seq<Tree>, b: seq<Tree>)
    ensures ForestLeaves(a + b) == ForestLeaves(a) + ForestLeaves(b)
    ensures ForestFreq(a + b) == ForestFreq(a) + ForestFreq(b)
  {
    if a == [] {
      assert a + b == b;
    } else {
      assert (a + b)[1..] == a[1..] + b;
      ForestAppend(a[1..], b);
    }
  }

  /** The leaves and total frequency of a forest do not depend on the order in
      which the queue holds its trees. */
  lemma {:induction false} ForestPermutation(a: seq<Tree>, b: seq<Tree>)
    requires multiset(a) == multiset(b)
    ensures ForestLeaves(a) == ForestLeaves(b)
    ensures ForestFreq(a) == ForestFreq(b)
    decreases |a|
  {
    if a == [] {
      assert |b| == |multiset(b)| == 0;
    } else {
      var x := a[0];
      assert x in multiset(b);
      var k :| 0 <= k < |b| && b[k] == x;
      var rest := b[..k] + b[k + 1..];
      MultisetRemove(b, k);
      assert a == [x] + a[1..];
      assert multiset(a[1..]) == multiset(a) - multiset{x};
      ForestPermutation(a[1..], rest);
      ForestRemove(b, k);
    }
  }

  lemma MultisetRemove(b: seq<Tree>, k: nat)
    requires k < |b|
    ensures multiset(b[..k] + b[k + 1..]) == multiset(b) - multiset{b[k]}
  {
    assert b == b[..k] + [b[k]] + b[k + 1..];
    assert multiset(b) == multiset(b[..k]) + multiset{b[k]} + multiset(b[k + 1..]);
  }

  /** A forest with one more tree in front. */
  lemma ForestCons(y: Tree, q: seq<Tree>)
    ensures ForestLeaves([y] + q) == Leaves(y) + ForestLeaves(q)
    ensures ForestFreq([y] + q) == y.freq + ForestFreq(q)
  {
    assert ([y] + q)[0] == y && ([y] + q)[1..] == q;
  }

  lemma ForestRemove(b: seq<Tree>, k: nat)
    requires k < |b|
    ensures ForestLeaves(b) == Leaves(b[k]) + ForestLeaves(b[..k] + b[k + 1..])
    ensures ForestFreq(b) == b[k].freq + ForestFreq(b[..k] + b[k + 1..])
  {
    ForestSplit(b, k);
    ForestAppend(b[..k], [b[k]] + b[k + 1..]);
    ForestCons(b[k], b[k + 1..]);
    ForestAppend(b[..k], b[k + 1..]);
  }

  /** A forest is its trees before k, tree k, and the trees after it. */
  lemma ForestSplit(b: seq<Tree>, k: nat)
    requires k < |b|
    ensures b == b[..k] + ([b[k]] + b[k + 1..])
  {
  }


  /** The forest of the leaves alone carries exactly those leaves. */
  lemma {:induction false} LeafForest(s: seq<Tree>)
    requires forall i :: 0 <= i < |s| ==> s[i].Leaf?
    ensures ForestLeaves(s) == multiset(s)
  {
    if s != [] {
      LeafForest(s[1..]);
      assert s == [s[0]] + s[1..];
    }
  }

  // ---------------------------------------------------------------------
  // Paths and codes

  /** The subtree reached from t by following path (false = left, true = right);
      None when the path runs past a leaf, where the C child pointer is NULL. */
  function Follow(t: Tree, path: seq<bool>): Option<Tree>
    decreases |path|
  {
    if path == [] then Some(t)
    else if t.Leaf? then None
    else Follow(if path[0] then t.right else t.left, path[1..])
  }

  /** Following `path` from t ends exactly at a leaf carrying `sym`. */
  ghost predicate ReachesLeaf(t: Tree, path: seq<bool>, sym: byte)
  {
    Follow(t, path).Some? && Follow(t, path).value.Leaf? && Follow(t, path).value.sym == sym
  }

  /** One record of the code table (huffman_coding.c's `CharacterCode`, with
      `code`/`codeBits` as a bit string). */
  datatype CodeEntry = CodeEntry(sym: byte, code: seq<bool>)

  ghost predicate IsPrefix(p: seq<bool>, q: seq<bool>)
  {
    |p| <= |q| && q[..|p|] == p
  }

  /** No code of the table is a prefix of another entry's code. */
  ghost predicate PrefixFree(cs: seq<CodeEntry>)
  {
    forall i, j :: 0 <= i < |cs| && 0 <= j < |cs| && i != j ==> !IsPrefix(cs[i].code, cs[j].code)
  }

  /** generateCodes(t, prefix): depth-first, left subtree before right, one
      entry per leaf recording the path taken to it. */
  function GenCodes(t: Tree, prefix: seq<bool>): (cs: seq<CodeEntry>)
    ensures |cs| == |Leaves(t)|
    ensures forall i :: 0 <= i < |cs| ==> IsPrefix(prefix, cs[i].code)
  {
    match t
    case Leaf(s, _) => [CodeEntry(s, prefix)]
    case Node(_, l, r) =>
      var cl := GenCodes(l, prefix + [false]);
      var cr := GenCodes(r, prefix + [true]);
      forall i | 0 <= i < |cl| ensures IsPrefix(prefix, cl[i].code) {
        ExtendedPrefix(prefix, false, cl[i].code);
      }
      forall i | 0 <= i < |cr| ensures IsPrefix(prefix, cr[i].code) {
        ExtendedPrefix(prefix, true, cr[i].code);
      }
      cl + cr
  }

  lemma ExtendedPrefix(prefix: seq<bool>, b: bool, code: seq<bool>)
    requires IsPrefix(prefix + [b], code)
    ensures IsPrefix(prefix, code)
    ensures code[|prefix|] == b
    ensures code[|prefix|..] == [b] + code[|prefix| + 1..]
  {
    assert code[..|prefix|] == code[..|prefix| + 1][..|prefix|];
    assert code[|prefix|] == code[..|prefix| + 1][|prefix|];
  }

  /** The entry for each leaf records the path from the subtree's root to it. */
  lemma {:induction false} GenCodesReach(t: Tree, prefix: seq<bool>, i: nat)
    requires i < |GenCodes(t, prefix)|
    ensures ReachesLeaf(t, GenCodes(t, prefix)[i].code[|prefix|..], GenCodes(t, prefix)[i].sym)
  {
    match t
    case Leaf(s, _) =>
      assert GenCodes(t, prefix)[i].code[|prefix|..] == [];
    case Node(_, l, r) =>
      var cl := GenCodes(l, prefix + [false]);
      var cr := GenCodes(r, prefix + [true]);
      assert GenCodes(t, prefix) == cl + cr;
      if i < |cl| {
        var c := cl[i].code;
        GenCodesReach(l, prefix + [false], i);
        ExtendedPrefix(prefix, false, c);
        assert c[|prefix| + 1..] == c[|prefix|..][1..];
        assert Follow(t, c[|prefix|..]) == Follow(l, c[|prefix| + 1..]);
      } else {
        var c := cr[i - |cl|].code;
        GenCodesReach(r, prefix + [true], i - |cl|);
        ExtendedPrefix(prefix, true, c);
        assert c[|prefix| + 1..] == c[|prefix|..][1..];
        assert Follow(t, c[|prefix|..]) == Follow(r, c[|prefix| + 1..]);
      }
  }

  /** The codes of a tree: generateCodes(root, 0, 0, ...). There is one entry
      per leaf, no code is a prefix of another entry's code, and a lone leaf
      at the root gets the empty code. */
  function Codes(t: Tree): (cs: seq<CodeEntry>)
    ensures |cs| == |Leaves(t)|
    ensures PrefixFree(cs)
    ensures t.Leaf? ==> cs == [CodeEntry(t.sym, [])]
  {
    GenCodesPrefixFree(t, []);
    GenCodes(t, [])
  }

  /** Every code leads from the root to a leaf carrying the entry's symbol,
      so its length is that leaf's depth. */
  lemma CodesReachLeaves(t: Tree, i: nat)
    requires i < |Codes(t)|
    ensures ReachesLeaf(t, Codes(t)[i].code, Codes(t)[i].sym)
  {
    GenCodesReach(t, [], i);
    assert Codes(t)[i].code[0..] == Codes(t)[i].code;
  }

  /** Every leaf of the tree has an entry in the code table. */
  lemma {:induction false} LeavesHaveCodes(t: Tree, prefix: seq<bool>, l: Tree)
    requires l in Leaves(t)
    ensures exists i :: 0 <= i < |GenCodes(t, prefix)| && GenCodes(t, prefix)[i].sym == l.sym
  {
    match t
    case Leaf(s, _) =>
      assert GenCodes(t, prefix)[0].sym == l.sym;
    case Node(_, lt, rt) =>
      var cl := GenCodes(lt, prefix + [false]);
      var cr := GenCodes(rt, prefix + [true]);
      assert GenCodes(t, prefix) == cl + cr;
      if l in Leaves(lt) {
        LeavesHaveCodes(lt, prefix + [false], l);
        var i :| 0 <= i < |cl| && cl[i].sym == l.sym;
        assert (cl + cr)[i] == cl[i];
      } else {
        LeavesHaveCodes(rt, prefix + [true], l);
        var i :| 0 <= i < |cr| && cr[i].sym == l.sym;
        assert (cl + cr)[|cl| + i] == cr[i];
      }
  }

  /** Below an internal root every code is at least one bit long. */
  lemma NodeRootCodesNonEmpty(t: Tree, i: nat)
    requires t.Node? && i < |Codes(t)|
    ensures |Codes(t)[i].code| >= 1
  {
    CodesReachLeaves(t, i);
  }

  lemma PrefixOfLonger(p: seq<bool>, q: seq<bool>, r: seq<bool>)
    requires IsPrefix(p, r) && IsPrefix(q, r) && |p| <= |q|
    ensures IsPrefix(p, q)
  {
    assert q[..|p|] == r[..|q|][..|p|];
  }

  /** No code generated below `prefix` is a prefix of another one. */
  lemma {:induction false} GenCodesPrefixFree(t: Tree, prefix: seq<bool>)
    ensures PrefixFree(GenCodes(t, prefix))
  {
    match t
    case Leaf(_, _) =>
    case Node(_, l, r) =>
      var cl := GenCodes(l, prefix + [false]);
      var cr := GenCodes(r, prefix + [true]);
      assert GenCodes(t, prefix) == cl + cr;
      GenCodesPrefixFree(l, prefix + [false]);
      GenCodesPrefixFree(r, prefix + [true]);
      JoinPrefixFree(prefix, cl, cr);
  }

  lemma JoinPrefixFree(prefix: seq<bool>, cl: seq<CodeEntry>, cr: seq<CodeEntry>)
    requires PrefixFree(cl) && PrefixFree(cr)
    requires forall i :: 0 <= i < |cl| ==> IsPrefix(prefix + [false], cl[i].code)
    requires forall i :: 0 <= i < |cr| ==> IsPrefix(prefix + [true], cr[i].code)
    ensures PrefixFree(cl + cr)
  {
    var cs := cl + cr;
    forall i, j | 0 <= i < |cs| && 0 <= j < |cs| && i != j
      ensures !IsPrefix(cs[i].code, cs[j].code)
    {
      if i < |cl| && j >= |cl| {
        SidesDiffer(prefix, cl[i].code, false, cr[j - |cl|].code, true);
      } else if i >= |cl| && j < |cl| {
        SidesDiffer(prefix, cr[i - |cl|].code, true, cl[j].code, false);
      } else if i < |cl| {
        assert cs[i] == cl[i] && cs[j] == cl[j];
      } else {
        assert cs[i] == cr[i - |cl|] && cs[j] == cr[j - |cl|];
      }
    }
  }

  lemma SidesDiffer(prefix: seq<bool>, a: seq<bool>, ba: bool, b: seq<bool>, bb: bool)
    requires ba != bb
    requires IsPrefix(prefix + [ba], a) && IsPrefix(prefix + [bb], b)
    ensures !IsPrefix(a, b)
  {
    assert a[|prefix|] == ba;
    assert b[|prefix|] == bb;
  }

  // ---------------------------------------------------------------------
  // Encoding

  /** The code the compressor writes for `sym`: the last table entry for it,
      as both lookup tables are filled in table order; the empty code when the
      symbol has no entry (the memset zero entry, codeBits == 0). */
  function CodeFor(cs: seq<CodeEntry>, sym: byte): (code: seq<bool>)
    ensures (exists i :: 0 <= i < |cs| && cs[i].sym == sym) ==>
      exists i :: 0 <= i < |cs| && cs[i].sym == sym && cs[i].code == code
    ensures (forall i :: 0 <= i < |cs| ==> cs[i].sym != sym) ==> code == []
  {
    if cs == [] then []
    else if cs[|cs| - 1].sym == sym then cs[|cs| - 1].code
    else
      var r := CodeFor(cs[..|cs| - 1], sym);
      assert forall i :: 0 <= i < |cs| - 1 ==> cs[..|cs| - 1][i] == cs[i];
      r
  }

  /** The concatenated codes of the input bytes, in input order. A table of
      empty codes (the lone-leaf table) writes nothing at all. */
  function Encode(cs: seq<CodeEntry>, input: seq<byte>): (bits: seq<bool>)
    ensures (forall i :: 0 <= i < |cs| ==> cs[i].code == []) ==> bits == []
  {
    if input == [] then [] else CodeFor(cs, input[0]) + Encode(cs, input[1..])
  }

  /** The table has an entry for `sym`. */
  ghost predicate HasCode(cs: seq<CodeEntry>, sym: byte)
  {
    exists i :: 0 <= i < |cs| && cs[i].sym == sym
  }

  /** Every byte of the input is a symbol of the table. */
  ghost predicate Covers(cs: seq<CodeEntry>, input: seq<byte>)
  {
    forall k :: 0 <= k < |input| ==> HasCode(cs, input[k])
  }

  // ---------------------------------------------------------------------
  // The 32-bit code field of huffman_coding.c

  /** Width of the `unsigned int code` that generateCodes fills in. */
  const CodeWidth := 32

  /** Every code of the table fits the code field. */
  ghost predicate CodesFit(cs: seq<CodeEntry>)
  {
    forall i :: 0 <= i < |cs| ==> |cs[i].code| <= CodeWidth
  }

  /** The value generateCodes stores for a path. Each level shifts the code
      left by one and ors in the bit; the `unsigned int` keeps only the low 32
      bits, so the word holds the value of the last 32 bits of the path. */
  function CodeWord(path: seq<bool>): (v: nat)
    ensures v < Pow2(CodeWidth)
  {
    if |path| > CodeWidth then BitsValue(path[|path| - CodeWidth..])
    else
      Pow2Mono(|path|, CodeWidth);
      BitsValue(path)
  }

  lemma {:induction false} Pow2Mono(a: nat, b: nat)
    requires a <= b
    ensures Pow2(a) <= Pow2(b)
    decreases b
  {
    if a < b {
      Pow2Mono(a, b - 1);
    }
  }

  /** The bits the compress loop writes for one code, `(code >> (i-1)) & 1` for
      i = codeBits down to 1; None when a shift count reaches the width of the
      field, which C leaves undefined. */
  function EmitCode(path: seq<bool>): (bits: Option<seq<bool>>)
  {
    if |path| > CodeWidth then None else Some(LowBits(CodeWord(path), |path|))
  }

  /** The compress loop over the whole input, as written. */
  function EmitAll(cs: seq<CodeEntry>, input: seq<byte>): (bits: Option<seq<bool>>)
  {
    if input == [] then Some([])
    else
      match (EmitCode(CodeFor(cs, input[0])), EmitAll(cs, input[1..]))
      case (Some(a), Some(b)) => Some(a + b)
      case _ => None
  }

  /** A code that fits the field is written bit for bit. */
  lemma EmitCodeFits(path: seq<bool>)
    requires |path| <= CodeWidth
    ensures EmitCode(path) == Some(path)
  {
    LowBitsOfValue(path);
  }

  /** As written, two codes 33 bits long that differ only in their first bit
      are stored as the same word, and writing either shifts the word by 32. */
  lemma CodeWordCollides(path: seq<bool>)
    requires |path| == CodeWidth + 1
    ensures [!path[0]] + path[1..] != path
    ensures CodeWord(path) == CodeWord([!path[0]] + path[1..])
    ensures EmitCode(path) == None
  {
    var other := [!path[0]] + path[1..];
    assert other[0] != path[0];
    assert other[1..] == path[1..];
  }

  /** When every code fits the field, the compress loop writes exactly the
      concatenated codes; it is undefined exactly when some byte of the input
      has a longer code. */
  lemma {:induction false} EmitAllFits(cs: seq<CodeEntry>, input: seq<byte>)
    ensures CodesFit(cs) ==> EmitAll(cs, input) == Some(Encode(cs, input))
    ensures EmitAll(cs, input).None? <==> exists k :: 0 <= k < |input| && |CodeFor(cs, input[k])| > CodeWidth
  {
    if input != [] {
      EmitAllFits(cs, input[1..]);
      if |CodeFor(cs, input[0])| <= CodeWidth {
        EmitCodeFits(CodeFor(cs, input[0]));
      }
      assert forall k :: 1 <= k < |input| ==> input[k] == input[1..][k - 1];
    }
  }

  // ---------------------------------------------------------------------
  // Decoding: the tree walk of both decompressors

  /** Decoder state: bytes emitted, current node, bytes still wanted. */
  datatype Walk = Walk(out: seq<byte>, cur: Tree, left: nat)

  /** One payload bit: descend (1 = right, 0 = left); on reaching a leaf emit
      its symbol, count it and restart from the root. */
  function Step(root: Tree, w: Walk, bit: bool): (r: Walk)
    requires root.Node? && w.cur.Node? && w.left > 0
    ensures r.cur.Node?
    ensures |r.out| + r.left == |w.out| + w.left
  {
    var next := if bit then w.cur.right else w.cur.left;
    if next.Leaf? then Walk(w.out + [next.sym], root, w.left - 1)
    else Walk(w.out, next, w.left)
  }

  /** Feed bits to the walk until the wanted bytes are out or the bits end. */
  function DecodeBits(root: Tree, w: Walk, bits: seq<bool>): (r: Walk)
    requires root.Node? && w.cur.Node?
    ensures r.cur.Node?
    ensures |r.out| + r.left == |w.out| + w.left
    ensures w.out <= r.out
    decreases |bits|
  {
    if w.left == 0 || bits == [] then w else DecodeBits(root, Step(root, w, bits[0]), bits[1..])
  }

  /** Decoding a concatenation is decoding its parts in turn. */
  lemma {:induction false} DecodeAppend(root: Tree, w: Walk, a: seq<bool>, b: seq<bool>)
    requires root.Node? && w.cur.Node?
    ensures DecodeBits(root, w, a + b) == DecodeBits(root, DecodeBits(root, w, a), b)
    decreases |a|
  {
    if a == [] {
      assert a + b == b;
    } else if w.left == 0 {
      DecodeDone(root, w, a + b);
      DecodeDone(root, w, a);
      DecodeDone(root, w, b);
    } else {
      assert (a + b)[1..] == a[1..] + b;
      DecodeAppend(root, Step(root, w, a[0]), a[1..], b);
    }
  }

  /** Once the wanted count is reached further bits are ignored. */
  lemma DecodeDone(root: Tree, w: Walk, bits: seq<bool>)
    requires root.Node? && w.cur.Node? && w.left == 0
    ensures DecodeBits(root, w, bits) == w
  {
  }

  /** Walking a code from the node it starts at emits exactly its leaf's symbol. */
  lemma {:induction false} DecodeCode(root: Tree, w: Walk, code: seq<bool>, sym: byte)
    requires root.Node? && w.cur.Node? && w.left > 0
    requires code != [] && ReachesLeaf(w.cur, code, sym)
    ensures DecodeBits(root, w, code) == Walk(w.out + [sym], root, w.left - 1)
    decreases |code|
  {
    var next := if code[0] then w.cur.right else w.cur.left;
    assert Follow(w.cur, code) == Follow(next, code[1..]);
    if next.Leaf? {
      assert code[1..] == [];
    } else {
      DecodeCode(root, Step(root, w, code[0]), code[1..], sym);
    }
  }

  /** Walking a proper prefix of a code emits nothing. */
  lemma {:induction false} DecodePartialCode(root: Tree, w: Walk, code: seq<bool>, sym: byte, j: nat)
    requires root.Node? && w.cur.Node? && w.left > 0
    requires j < |code| && ReachesLeaf(w.cur, code, sym)
    ensures DecodeBits(root, w, code[..j]).out == w.out
    ensures DecodeBits(root, w, code[..j]).left == w.left
    decreases j
  {
    if j > 0 {
      var next := if code[0] then w.cur.right else w.cur.left;
      assert Follow(w.cur, code) == Follow(next, code[1..]);
      assert code[..j][0] == code[0];
      assert code[..j][1..] == code[1..][..j - 1];
      assert next.Node?;
      DecodePartialCode(root, Step(root, w, code[0]), code[1..], sym, j - 1);
    }
  }

  /** The code the compressor looks up for a covered byte leads to that byte's leaf. */
  lemma CodeForReachesLeaf(root: Tree, x: byte)
    requires root.Node?
    requires HasCode(Codes(root), x)
    ensures CodeFor(Codes(root), x) != []
    ensures ReachesLeaf(root, CodeFor(Codes(root), x), x)
  {
    var cs := Codes(root);
    var i :| 0 <= i < |cs| && cs[i].sym == x && cs[i].code == CodeFor(cs, x);
    CodesReachLeaves(root, i);
    NodeRootCodesNonEmpty(root, i);
  }

  lemma CoversTail(cs: seq<CodeEntry>, input: seq<byte>)
    requires input != [] && Covers(cs, input)
    ensures HasCode(cs, input[0]) && Covers(cs, input[1..])
  {
    assert HasCode(cs, input[0]);
    forall m | 0 <= m < |input[1..]|
      ensures HasCode(cs, input[1..][m])
    {
      assert input[1..][m] == input[m + 1];
    }
  }

  /** The code looked up for `x` is non-empty and leads from the root to x's leaf. */
  ghost predicate Decodes(root: Tree, cs: seq<CodeEntry>, x: byte)
  {
    CodeFor(cs, x) != [] && ReachesLeaf(root, CodeFor(cs, x), x)
  }

  /** Decoding the encoding of `input` emits exactly `input`, whatever follows. */
  lemma DecodeEncoded(root: Tree, out: seq<byte>, input: seq<byte>, k: nat, rest: seq<bool>)
    requires root.Node? && Covers(Codes(root), input)
    ensures DecodeBits(root, Walk(out, root, |input| + k), Encode(Codes(root), input) + rest)
         == DecodeBits(root, Walk(out + input, root, k), rest)
  {
    forall i | 0 <= i < |input| ensures Decodes(root, Codes(root), input[i]) {
      CodeForReachesLeaf(root, input[i]);
    }
    DecodeEncodedWith(root, Codes(root), out, input, k, rest);
  }

  lemma {:induction false} DecodeEncodedWith(root: Tree, cs: seq<CodeEntry>, out: seq<byte>, input: seq<byte>, k: nat, rest: seq<bool>)
    requires root.Node?
    requires forall i :: 0 <= i < |input| ==> Decodes(root, cs, input[i])
    ensures DecodeBits(root, Walk(out, root, |input| + k), Encode(cs, input) + rest)
         == DecodeBits(root, Walk(out + input, root, k), rest)
    decreases |input|
  {
    if input == [] {
      assert Encode(cs, input) + rest == rest;
      assert out + input == out;
    } else {
      var x, tail := input[0], input[1..];
      assert Decodes(root, cs, input[0]);
      forall i | 0 <= i < |tail| ensures Decodes(root, cs, tail[i]) {
        assert tail[i] == input[i + 1];
      }
      DecodeEncodedWith(root, cs, out + [x], tail, k, rest);
      DecodeEncodedFirst(root, cs, out, input, k, rest);
    }
  }

  /** The first symbol's code decodes to it, and the rest decodes as the
      recursive call says. */
  lemma DecodeEncodedFirst(root: Tree, cs: seq<CodeEntry>, out: seq<byte>, input: seq<byte>, k: nat, rest: seq<bool>)
    requires root.Node? && input != [] && Decodes(root, cs, input[0])
    requires DecodeBits(root, Walk(out + [input[0]], root, |input[1..]| + k), Encode(cs, input[1..]) + rest)
          == DecodeBits(root, Walk(out + [input[0]] + input[1..], root, k), rest)
    ensures DecodeBits(root, Walk(out, root, |input| + k), Encode(cs, input) + rest)
         == DecodeBits(root, Walk(out + input, root, k), rest)
  {
    var x, tail := input[0], input[1..];
    var n := |tail| + k;
    calc {
      DecodeBits(root, Walk(out, root, |input| + k), Encode(cs, input) + rest);
      { EncodeCons(cs, input, rest);
        DecodeSame(root, Walk(out, root, |input| + k), Walk(out, root, n + 1),
          Encode(cs, input) + rest, CodeFor(cs, x) + (Encode(cs, tail) + rest)); }
      DecodeBits(root, Walk(out, root, n + 1), CodeFor(cs, x) + (Encode(cs, tail) + rest));
      { DecodeOne(root, out, x, CodeFor(cs, x), Encode(cs, tail) + rest, n); }
      DecodeBits(root, Walk(out + [x], root, n), Encode(cs, tail) + rest);
      DecodeBits(root, Walk(out + [x] + tail, root, k), rest);
      { ConsSplit(out, input);
        DecodeSame(root, Walk(out + [x] + tail, root, k), Walk(out + input, root, k), rest, rest); }
      DecodeBits(root, Walk(out + input, root, k), rest);
    }
  }

  /** Decoding depends only on the walk and the bits. */
  lemma DecodeSame(root: Tree, w1: Walk, w2: Walk, b1: seq<bool>, b2: seq<bool>)
    requires root.Node? && w1.cur.Node? && w1 == w2 && b1 == b2
    ensures DecodeBits(root, w1, b1) == DecodeBits(root, w2, b2)
  {
  }

  lemma EncodeCons(cs: seq<CodeEntry>, input: seq<byte>, rest: seq<bool>)
    requires input != []
    ensures Encode(cs, input) + rest == CodeFor(cs, input[0]) + (Encode(cs, input[1..]) + rest)
  {
  }

  lemma ConsSplit<T>(out: seq<T>, input: seq<T>)
    requires input != []
    ensures out + input == out + [input[0]] + input[1..]
  {
    assert input == [input[0]] + input[1..];
  }

  /** Decoding one code and then the rest of the stream. */
  lemma DecodeOne(root: Tree, out: seq<byte>, x: byte, c: seq<bool>, more: seq<bool>, n: nat)
    requires root.Node? && c != [] && ReachesLeaf(root, c, x)
    ensures DecodeBits(root, Walk(out, root, n + 1), c + more)
         == DecodeBits(root, Walk(out + [x], root, n), more)
  {
    DecodeAppend(root, Walk(out, root, n + 1), c, more);
    DecodeCode(root, Walk(out, root, n + 1), c, x);
  }

  /** Decoding any strict prefix of the encoding of `input` leaves some of the
      wanted bytes unemitted. */
  lemma {:induction false} DecodeTruncated(root: Tree, out: seq<byte>, input: seq<byte>, j: nat)
    requires root.Node? && Covers(Codes(root), input)
    requires j < |Encode(Codes(root), input)|
    ensures DecodeBits(root, Walk(out, root, |input|), Encode(Codes(root), input)[..j]).left > 0
    decreases |input|
  {
    var c := CodeFor(Codes(root), input[0]);
    var e := Encode(Codes(root), input[1..]);
    assert Encode(Codes(root), input) == c + e;
    if j < |c| {
      TruncatedInFirst(root, out, input, j);
    } else {
      CoversTail(Codes(root), input);
      DecodeTruncated(root, out + [input[0]], input[1..], j - |c|);
      TruncatedAfterFirst(root, out, input, j);
    }
  }

  /** A cut inside the first code leaves every wanted byte unemitted. */
  lemma TruncatedInFirst(root: Tree, out: seq<byte>, input: seq<byte>, j: nat)
    requires root.Node? && Covers(Codes(root), input) && |input| > 0
    requires j < |CodeFor(Codes(root), input[0])|
    ensures DecodeBits(root, Walk(out, root, |input|), Encode(Codes(root), input)[..j]).left > 0
  {
    var cs := Codes(root);
    var x := input[0];
    var c := CodeFor(cs, x);
    var e := Encode(cs, input[1..]);
    CodeForReachesLeaf(root, x);
    assert Encode(cs, input) == c + e;
    assert (c + e)[..j] == c[..j];
    DecodePartialCode(root, Walk(out, root, |input|), c, x, j);
  }

  /** A cut after the first code decodes the first byte, then the cut rest. */
  lemma TruncatedAfterFirst(root: Tree, out: seq<byte>, input: seq<byte>, j: nat)
    requires root.Node? && Covers(Codes(root), input) && |input| > 0
    requires |CodeFor(Codes(root), input[0])| <= j < |Encode(Codes(root), input)|
    requires DecodeBits(root, Walk(out + [input[0]], root, |input[1..]|),
      Encode(Codes(root), input[1..])[..j - |CodeFor(Codes(root), input[0])|]).left > 0
    ensures DecodeBits(root, Walk(out, root, |input|), Encode(Codes(root), input)[..j]).left > 0
  {
    var cs := Codes(root);
    var x := input[0];
    var c := CodeFor(cs, x);
    var e := Encode(cs, input[1..]);
    CodeForReachesLeaf(root, x);
    var w := Walk(out, root, |input|);
    assert Encode(cs, input) == c + e;
    TakeAppend(c, e, j);
    DecodeCodeThen(root, w, c, x, e[..j - |c|]);
  }

  /** A prefix of `c + e` that reaches into `e`. */
  lemma TakeAppend<T>(c: seq<T>, e: seq<T>, j: nat)
    requires |c| <= j <= |c| + |e|
    ensures (c + e)[..j] == c + e[..j - |c|]
  {
  }

  /** Walking a whole code from the root, then more bits, is emitting the
      code's symbol and walking the rest from the root. */
  lemma DecodeCodeThen(root: Tree, w: Walk, c: seq<bool>, x: byte, rest: seq<bool>)
    requires root.Node? && w.cur == root && w.left > 0
    requires c != [] && ReachesLeaf(root, c, x)
    ensures DecodeBits(root, w, c + rest) == DecodeBits(root, Walk(w.out + [x], root, w.left - 1), rest)
  {
    DecodeAppend(root, w, c, rest);
    DecodeCode(root, w, c, x);
  }

  // ---------------------------------------------------------------------
  // What a walk can emit

  /** The symbols carried by the leaves of a tree. */
  function Symbols(t: Tree): set<byte>
  {
    match t
    case Leaf(s, _) => {s}
    case Node(_, l, r) => Symbols(l) + Symbols(r)
  }

  /** A byte that no leaf carries is not a symbol of the tree. */
  lemma {:induction false} NotASymbol(t: Tree, x: byte)
    requires forall l :: l in Leaves(t) ==> l.sym != x
    ensures x !in Symbols(t)
  {
    match t
    case Leaf(_, _) =>
      assert t in Leaves(t);
    case Node(_, l, r) =>
      NotASymbol(l, x);
      NotASymbol(r, x);
  }

  /** A tree with a single leaf is that leaf. */
  lemma OneLeaf(t: Tree)
    requires |Leaves(t)| == 1
    ensures t.Leaf? && Leaves(t) == multiset{t}
  {
  }

  /** A walk emits only symbols of the tree it walks. */
  lemma {:induction false} DecodeSymbols(root: Tree, w: Walk, bits: seq<bool>)
    requires root.Node? && w.cur.Node? && Symbols(w.cur) <= Symbols(root)
    ensures forall i :: |w.out| <= i < |DecodeBits(root, w, bits).out| ==>
              DecodeBits(root, w, bits).out[i] in Symbols(root)
    decreases |bits|
  {
    if w.left > 0 && bits != [] {
      var s := Step(root, w, bits[0]);
      DecodeSymbols(root, s, bits[1..]);
      var next := if bits[0] then w.cur.right else w.cur.left;
      assert Symbols(next) <= Symbols(w.cur);
      assert w.out <= s.out;
      assert next.Leaf? ==> next.sym in Symbols(next);
    }
  }
}
