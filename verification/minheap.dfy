/** The array-based binary min-heap on node frequency that both codecs use to
    build their trees (`minHeapify`, `extractMin`, `insertMinHeap`,
    `buildMinHeap`). The heap is the prefix `node[0 .. size)` of the C array,
    modelled as a sequence of trees; only the `freq` of a tree is compared. */
module MinHeap {
  import opened HuffTree

  /** Index of the parent of slot c > 0 (`(c - 1) / 2` with c positive). */
  function Parent(c: nat): (p: nat)
    requires c > 0
    ensures p < c && (c == 2 * p + 1 || c == 2 * p + 2)
  {
    (c - 1) / 2
  }

  /** C's `/` on int for a positive divisor: the quotient truncated toward
      zero, so the remainder `a - q * b` has the sign of `a` and is smaller
      than `b` in magnitude. */
  function CDiv(a: int, b: int): (q: int)
    requires b > 0
    ensures a >= 0 ==> 0 <= a - q * b < b
    ensures a < 0 ==> -b < a - q * b <= 0
  {
    if a >= 0 then a / b else -((-a) / b)
  }

  /** The heap property for every parent at index lo or beyond. */
  ghost predicate HeapFrom(a: seq<Tree>, lo: nat)
  {
    forall c :: 0 < c < |a| && Parent(c) >= lo ==> a[Parent(c)].freq <= a[c].freq
  }

  /** The heap property: no node is lighter than its parent. */
  ghost predicate IsHeap(a: seq<Tree>)
  {
    HeapFrom(a, 0)
  }

  /** The root of a heap is a minimum. */
  lemma {:induction false} HeapRootMin(a: seq<Tree>, j: nat)
    requires IsHeap(a) && j < |a|
    ensures a[0].freq <= a[j].freq
    decreases j
  {
    if j > 0 {
      HeapRootMin(a, Parent(j));
    }
  }

  /** The trivially ordered tail: no slot at or beyond lo has a child. */
  lemma NoChildrenFrom(a: seq<Tree>, lo: nat)
    requires 2 * lo + 1 >= |a|
    ensures HeapFrom(a, lo)
  {
  }

  function Swap(a: seq<Tree>, i: nat, j: nat): (r: seq<Tree>)
    requires i < |a| && j < |a|
    ensures |r| == |a| && r[i] == a[j] && r[j] == a[i]
    ensures forall k :: 0 <= k < |a| && k != i && k != j ==> r[k] == a[k]
    ensures multiset(r) == multiset(a)
  {
    a[i := a[j]][j := a[i]]
  }

  // ---------------------------------------------------------------------
  // minHeapify

  /** The `smallest` index of minHeapify: a child replaces i only when strictly
      lighter, and the right child only when strictly lighter than the pick so far. */
  function Smallest(a: seq<Tree>, i: nat): (s: nat)
    ensures s == i || (i < s < |a| && Parent(s) == i)
    ensures s != i ==> a[s].freq < a[i].freq
    ensures i < |a| ==> forall c :: 0 < c < |a| && Parent(c) == i ==> a[s].freq <= a[c].freq
  {
    var l, r := 2 * i + 1, 2 * i + 2;
    var s1 := if l < |a| && a[l].freq < a[i].freq then l else i;
    if r < |a| && a[r].freq < a[s1].freq then r else s1
  }

  /** minHeapify(i): swap i with its smallest child while that child is
      strictly lighter. Slots before i are never touched. */
  function SiftDown(a: seq<Tree>, i: nat): (r: seq<Tree>)
    ensures |r| == |a| && multiset(r) == multiset(a)
    ensures forall j :: 0 <= j < |a| && j < i ==> r[j] == a[j]
    decreases |a| - i
  {
    var s := Smallest(a, i);
    if s == i then a else SiftDown(Swap(a, i, s), s)
  }

  /** What minHeapify(i) needs: every pair below lo is ordered except those
      whose parent is i, and i's parent is no heavier than i's children. */
  ghost predicate SiftPre(a: seq<Tree>, lo: nat, i: nat)
  {
    && lo <= i < |a|
    && (forall c :: 0 < c < |a| && Parent(c) >= lo && Parent(c) != i ==> a[Parent(c)].freq <= a[c].freq)
    && (i > 0 && Parent(i) >= lo ==>
          forall c :: 0 < c < |a| && Parent(c) == i ==> a[Parent(i)].freq <= a[c].freq)
  }

  /** minHeapify restores the heap property from lo on. */
  lemma {:induction false} SiftDownHeap(a: seq<Tree>, lo: nat, i: nat)
    requires SiftPre(a, lo, i)
    ensures HeapFrom(SiftDown(a, i), lo)
    decreases |a| - i
  {
    var s := Smallest(a, i);
    if s != i {
      SwapKeepsPre(a, lo, i, s);
      SiftDownHeap(Swap(a, i, s), lo, s);
    }
  }

  lemma SwapKeepsPre(a: seq<Tree>, lo: nat, i: nat, s: nat)
    requires SiftPre(a, lo, i) && s == Smallest(a, i) && s != i
    ensures SiftPre(Swap(a, i, s), lo, s)
  {
    var b := Swap(a, i, s);
    forall c | 0 < c < |b| && Parent(c) >= lo && Parent(c) != s
      ensures b[Parent(c)].freq <= b[c].freq
    {
      if c == s {
      } else if c == i {
        assert b[Parent(i)] == a[Parent(i)];
      } else if Parent(c) == i {
        assert b[c] == a[c];
      } else {
        assert b[c] == a[c] && b[Parent(c)] == a[Parent(c)];
      }
    }
    forall c | 0 < c < |b| && Parent(c) == s
      ensures b[Parent(s)].freq <= b[c].freq
    {
      assert b[c] == a[c];
    }
  }

  // ---------------------------------------------------------------------
  // buildMinHeap: minHeapify from a start index down to 0

  /** minHeapify(i), minHeapify(i - 1), ..., minHeapify(0). */
  function HeapifyFrom(a: seq<Tree>, i: int): (r: seq<Tree>)
    requires i >= -1
    ensures |r| == |a| && multiset(r) == multiset(a)
    decreases i + 1
  {
    if i < 0 then a else HeapifyFrom(SiftDown(a, i), i - 1)
  }

  /** One step of the loop: minHeapify(i) extends the heap property from
      i + 1 down to i. */
  lemma HeapifyStep(a: seq<Tree>, i: nat)
    requires HeapFrom(a, i + 1)
    ensures HeapFrom(SiftDown(a, i), i)
  {
    if i < |a| {
      assert SiftPre(a, i, i);
      SiftDownHeap(a, i, i);
    } else {
      NoChildrenFrom(SiftDown(a, i), i);
    }
  }

  lemma HeapifyFromUnfold(a: seq<Tree>, i: nat)
    ensures HeapifyFrom(a, i) == HeapifyFrom(SiftDown(a, i), i - 1)
  {
  }

  /** buildMinHeap's loop: with the heap property holding from `lo` = i + 1
      on, minHeapify(i), ..., minHeapify(0) make the whole array a heap. */
  lemma {:induction false} HeapifyFromHeap(a: seq<Tree>, i: int, lo: nat)
    requires i >= -1 && lo == i + 1 && HeapFrom(a, lo)
    ensures IsHeap(HeapifyFrom(a, i))
    decreases lo
  {
    if i >= 0 {
      HeapifyStep(a, i);
      HeapifyFromHeap(SiftDown(a, i), i - 1, i);
      HeapifyFromUnfold(a, i);
    } else {
      assert HeapifyFrom(a, i) == a;
      assert HeapFrom(a, 0);
    }
  }

  /** buildMinHeap of huffman_coding.c: n = size - 1, start at (n - 1) / 2. */
  function BuildHeapCoding(a: seq<Tree>): (r: seq<Tree>)
    ensures |r| == |a| && multiset(r) == multiset(a)
    ensures IsHeap(r)
  {
    var start := CDiv(|a| - 2, 2);
    NoChildrenFrom(a, start + 1);
    HeapifyFromHeap(a, start, start + 1);
    HeapifyFrom(a, start)
  }

  /** The heapify loop of huffman.c's buildHuffmanTree: start at (size - 1) / 2. */
  function BuildHeapAlt(a: seq<Tree>): (r: seq<Tree>)
    ensures |r| == |a| && multiset(r) == multiset(a)
    ensures IsHeap(r)
  {
    var start := CDiv(|a| - 1, 2);
    NoChildrenFrom(a, start + 1);
    HeapifyFromHeap(a, start, start + 1);
    HeapifyFrom(a, start)
  }

  // ---------------------------------------------------------------------
  // extractMin

  /** extractMin on a non-empty heap: take the root, move the last node to the
      top, shrink by one and minHeapify(0). */
  function ExtractMin(a: seq<Tree>): (r: (Tree, seq<Tree>))
    requires |a| > 0
    ensures |r.1| == |a| - 1
    ensures multiset(r.1) + multiset{r.0} == multiset(a)
  {
    if |a| == 1 then (a[0], [])
    else
      var moved := [a[|a| - 1]] + a[1..|a| - 1];
      assert a == [a[0]] + a[1..|a| - 1] + [a[|a| - 1]];
      (a[0], SiftDown(moved, 0))
  }

  /** extractMin returns a minimum of the heap and leaves a heap behind. */
  lemma ExtractMinHeap(a: seq<Tree>)
    requires |a| > 0 && IsHeap(a)
    ensures IsHeap(ExtractMin(a).1)
    ensures forall j :: 0 <= j < |a| ==> ExtractMin(a).0.freq <= a[j].freq
  {
    forall j | 0 <= j < |a| ensures a[0].freq <= a[j].freq {
      HeapRootMin(a, j);
    }
    if |a| > 1 {
      var moved := [a[|a| - 1]] + a[1..|a| - 1];
      forall c | 0 < c < |moved| && Parent(c) != 0
        ensures moved[Parent(c)].freq <= moved[c].freq
      {
        assert moved[c] == a[c] && moved[Parent(c)] == a[Parent(c)];
      }
      SiftDownHeap(moved, 0, 0);
    }
  }

  // ---------------------------------------------------------------------
  // insertMinHeap

  /** The loop of insertMinHeap with the new node x held aside and slot i the
      hole: while x is strictly lighter than the hole's parent, the parent
      moves down into the hole; finally x fills the hole. */
  function SiftUp(a: seq<Tree>, i: nat, x: Tree): (r: seq<Tree>)
    requires i < |a|
    ensures |r| == |a| && multiset(r) == multiset(a[i := x])
    decreases i
  {
    if i > 0 && x.freq < a[Parent(i)].freq then
      var p := Parent(i);
      var a' := a[i := a[p]];
      assert a'[p := x] == Swap(a[i := x], i, p);
      SiftUp(a', p, x)
    else a[i := x]
  }

  /** insertMinHeap: grow by one slot and sift the new node up from it. */
  function Insert(a: seq<Tree>, x: Tree): (r: seq<Tree>)
    ensures |r| == |a| + 1 && multiset(r) == multiset(a) + multiset{x}
  {
    assert (a + [x])[|a| := x] == a + [x];
    SiftUp(a + [x], |a|, x)
  }

  /** What the insertion loop keeps, stated on the array with x in the hole:
      every pair not ending at the hole is ordered, and the hole's parent is no
      heavier than the hole's children. */
  ghost predicate SiftUpPre(a: seq<Tree>, i: nat, x: Tree)
  {
    && i < |a|
    && (forall c :: 0 < c < |a| && c != i ==> a[i := x][Parent(c)].freq <= a[i := x][c].freq)
    && (i > 0 ==> forall c :: 0 < c < |a| && Parent(c) == i ==> a[Parent(i)].freq <= a[c].freq)
  }

  lemma {:induction false} SiftUpHeap(a: seq<Tree>, i: nat, x: Tree)
    requires SiftUpPre(a, i, x)
    ensures IsHeap(SiftUp(a, i, x))
    decreases i
  {
    if i > 0 && x.freq < a[Parent(i)].freq {
      var p := Parent(i);
      SiftUpStep(a, i, x);
      SiftUpHeap(a[i := a[p]], p, x);
    } else {
      var b := a[i := x];
      forall c | 0 < c < |b| ensures b[Parent(c)].freq <= b[c].freq {
        if c == i {
          assert b[Parent(i)] == a[Parent(i)];
        }
      }
    }
  }

  lemma SiftUpStep(a: seq<Tree>, i: nat, x: Tree)
    requires SiftUpPre(a, i, x) && i > 0 && x.freq < a[Parent(i)].freq
    ensures SiftUpPre(a[i := a[Parent(i)]], Parent(i), x)
  {
    var p := Parent(i);
    var a' := a[i := a[p]];
    var b, b' := a[i := x], a'[p := x];
    forall c | 0 < c < |a'| && c != p
      ensures b'[Parent(c)].freq <= b'[c].freq
    {
      if c == i {
        assert b'[c] == a[p] && b'[p] == x;
      } else if Parent(c) == p {
        assert b'[c] == a[c] && b[c] == a[c] && b[p] == a[p];
      } else if Parent(c) == i {
        assert b'[i] == a[p] && b'[c] == a[c];
      } else {
        assert b'[c] == b[c] && b'[Parent(c)] == b[Parent(c)];
      }
    }
    if p > 0 {
      forall c | 0 < c < |a'| && Parent(c) == p
        ensures a'[Parent(p)].freq <= a'[c].freq
      {
        assert b[p] == a[p] && b[Parent(p)] == a[Parent(p)];
        if c != i {
          assert b[c] == a[c];
        }
      }
    }
  }

  /** insertMinHeap keeps the heap property. */
  lemma InsertHeap(a: seq<Tree>, x: Tree)
    requires IsHeap(a)
    ensures IsHeap(Insert(a, x))
  {
    var b: seq<Tree> := a + [x];
    assert b[|a| := x] == b;
    forall c | 0 < c < |b| && c != |a|
      ensures b[|a| := x][Parent(c)].freq <= b[|a| := x][c].freq
    {
      assert b[c] == a[c] && b[Parent(c)] == a[Parent(c)];
    }
    SiftUpHeap(b, |a|, x);
  }
}
