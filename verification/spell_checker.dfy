/** The spell checker: a binary search tree of dictionary words ordered by
    `strcmp`, exact lookup, and suggestions by Levenshtein edit distance. */
module SpellChecker {
  import opened Bytes

  /** A node stores its word in a 256-byte buffer with a terminating NUL. */
  const WordCapacity := 256

  /** A word the tree can hold: a C string that fits the node's buffer. */
  predicate ValidWord(w: string)
  {
    FitsBuffer(w, WordCapacity)
  }

  /** The sign of `strcmp`: lexicographic order on characters, a proper
      prefix ordered first. */
  function Compare(a: string, b: string): (c: int)
    ensures -1 <= c <= 1
    ensures c == 0 <==> a == b
  {
    if a == [] && b == [] then 0
    else if a == [] then -1
    else if b == [] then 1
    else if a[0] < b[0] then -1
    else if a[0] > b[0] then 1
    else
      var c := Compare(a[1..], b[1..]);
      assert a == [a[0]] + a[1..] && b == [b[0]] + b[1..];
      c
  }

  /** Swapping the arguments of `strcmp` flips the sign. */
  lemma {:induction false} CompareFlip(a: string, b: string)
    ensures Compare(b, a) == -Compare(a, b)
    decreases |a|
  {
    if a != [] && b != [] && a[0] == b[0] {
      CompareFlip(a[1..], b[1..]);
    }
  }

  // ---------------------------------------------------------------------
  // The tree

  datatype Bst = Empty | Node(word: string, left: Bst, right: Bst)

  /** The words stored in a tree. */
  function Words(t: Bst): set<string>
  {
    match t
    case Empty => {}
    case Node(w, l, r) => {w} + Words(l) + Words(r)
  }

  /** The search-tree order under `strcmp`: every word of a left subtree
      compares below its node, every word of a right subtree above. */
  ghost predicate Ordered(t: Bst)
  {
    match t
    case Empty => true
    case Node(w, l, r) =>
      && Ordered(l) && Ordered(r)
      && (forall x :: x in Words(l) ==> Compare(x, w) < 0)
      && (forall x :: x in Words(r) ==> Compare(x, w) > 0)
  }

  /** initializeTree: the empty tree. */
  function InitializeTree(): (t: Bst)
    ensures Words(t) == {} && Ordered(t)
  {
    Empty
  }

  /** insertWord: descend by `strcmp` and hang a new node where the search
      falls off; a word already on the path is left alone. */
  function InsertWord(t: Bst, w: string): (r: Bst)
    requires ValidWord(w)
    ensures Words(r) == Words(t) + {w}
    ensures r != Empty
  {
    match t
    case Empty => Node(w, Empty, Empty)
    case Node(x, l, rt) =>
      var c := Compare(w, x);
      if c < 0 then Node(x, InsertWord(l, w), rt)
      else if c > 0 then Node(x, l, InsertWord(rt, w))
      else t
  }

  /** searchWord: follow `strcmp` down one path. */
  function SearchWord(t: Bst, w: string): (found: bool)
    ensures found ==> w in Words(t)
    ensures t == Empty ==> !found
  {
    match t
    case Empty => false
    case Node(x, l, r) =>
      var c := Compare(w, x);
      if c == 0 then true
      else if c < 0 then SearchWord(l, w)
      else SearchWord(r, w)
  }

  /** Insertion keeps the search-tree order. */
  lemma {:induction false} InsertOrdered(t: Bst, w: string)
    requires ValidWord(w) && Ordered(t)
    ensures Ordered(InsertWord(t, w))
  {
    match t
    case Empty =>
    case Node(x, l, r) =>
      if Compare(w, x) < 0 {
        InsertOrdered(l, w);
      } else if Compare(w, x) > 0 {
        InsertOrdered(r, w);
      }
  }

  /** On an ordered tree the search finds a word exactly when it is stored:
      one path decides membership. */
  lemma {:induction false} SearchComplete(t: Bst, w: string)
    requires Ordered(t)
    ensures SearchWord(t, w) <==> w in Words(t)
  {
    match t
    case Empty =>
    case Node(x, l, r) =>
      var c := Compare(w, x);
      if c < 0 {
        SearchComplete(l, w);
        assert w !in Words(r);
      } else if c > 0 {
        SearchComplete(r, w);
        assert w !in Words(l);
      }
  }

  /** After an insertion the word is found and every earlier word still is. */
  lemma InsertThenSearch(t: Bst, w: string, v: string)
    requires ValidWord(w) && Ordered(t)
    ensures SearchWord(InsertWord(t, w), w)
    ensures SearchWord(t, v) ==> SearchWord(InsertWord(t, w), v)
  {
    InsertOrdered(t, w);
    SearchComplete(InsertWord(t, w), w);
    SearchComplete(InsertWord(t, w), v);
  }

  /** Inserting a word the ordered tree already holds changes nothing. */
  lemma {:induction false} InsertDuplicate(t: Bst, w: string)
    requires ValidWord(w) && Ordered(t) && w in Words(t)
    ensures InsertWord(t, w) == t
  {
    match t
    case Node(x, l, r) =>
      var c := Compare(w, x);
      if c < 0 {
        assert w !in Words(r);
        InsertDuplicate(l, w);
      } else if c > 0 {
        assert w !in Words(l);
        InsertDuplicate(r, w);
      }
  }

  // ---------------------------------------------------------------------
  // Edit distance

  function Min3(a: int, b: int, c: int): (m: int)
    ensures m <= a && m <= b && m <= c
    ensures m == a || m == b || m == c
  {
    if a < b then (if a < c then a else c) else (if b < c then b else c)
  }

  /** Levenshtein distance by the textbook recurrence on the last characters:
      deletion, insertion, or substitution (free when they agree). The
      distance is zero exactly between equal words. */
  function EditDistance(a: string, b: string): (d: nat)
    ensures d == 0 <==> a == b
    decreases |a| + |b|
  {
    if |a| == 0 then |b|
    else if |b| == 0 then |a|
    else
      var cost := if a[|a| - 1] == b[|b| - 1] then 0 else 1;
      var d := Min3(EditDistance(a[..|a| - 1], b) + 1,
                    EditDistance(a, b[..|b| - 1]) + 1,
                    EditDistance(a[..|a| - 1], b[..|b| - 1]) + cost);
      assert a == a[..|a| - 1] + [a[|a| - 1]] && b == b[..|b| - 1] + [b[|b| - 1]];
      d
  }

  /** The distance never exceeds the longer length. */
  lemma {:induction false} DistanceBound(a: string, b: string)
    ensures EditDistance(a, b) <= if |a| < |b| then |b| else |a|
    decreases |a| + |b|
  {
    if |a| > 0 && |b| > 0 {
      DistanceBound(a[..|a| - 1], b[..|b| - 1]);
    }
  }

  /** The distance is at least the difference of the lengths. */
  lemma {:induction false} DistanceLowerBound(a: string, b: string)
    ensures EditDistance(a, b) >= |a| - |b| && EditDistance(a, b) >= |b| - |a|
    decreases |a| + |b|
  {
    if |a| > 0 && |b| > 0 {
      DistanceLowerBound(a[..|a| - 1], b);
      DistanceLowerBound(a, b[..|b| - 1]);
      DistanceLowerBound(a[..|a| - 1], b[..|b| - 1]);
    }
  }

  /** The recurrence on prefixes of fixed words, as the matrix uses it. */
  lemma Recurrence(s1: string, s2: string, i: nat, j: nat)
    requires 0 < i <= |s1| && 0 < j <= |s2|
    ensures EditDistance(s1[..i], s2[..j]) ==
      Min3(EditDistance(s1[..i - 1], s2[..j]) + 1,
           EditDistance(s1[..i], s2[..j - 1]) + 1,
           EditDistance(s1[..i - 1], s2[..j - 1]) + (if s1[i - 1] == s2[j - 1] then 0 else 1))
  {
    assert s1[..i][..i - 1] == s1[..i - 1];
    assert s2[..j][..j - 1] == s2[..j - 1];
  }

  /** levenshteinDistance: the full (len1+1) x (len2+1) matrix, first
      column and row set to the prefix lengths, then filled row by row. */
  method LevenshteinDistance(s1: string, s2: string) returns (d: nat)
    ensures d == EditDistance(s1, s2)
  {
    var len1, len2 := |s1|, |s2|;
    if len1 == 0 {
      return len2;
    }
    if len2 == 0 {
      return len1;
    }
    var matrix := new nat[len1 + 1, len2 + 1];
    FillColumn(matrix, s1);
    FillFirstRow(matrix, s1, s2);
    var i := 1;
    while i <= len1
      invariant 1 <= i <= len1 + 1
      invariant forall a, b :: 0 <= a < i && 0 <= b <= len2 ==> matrix[a, b] == EditDistance(s1[..a], s2[..b])
      invariant forall a :: 0 <= a <= len1 ==> matrix[a, 0] == EditDistance(s1[..a], [])
    {
      FillRow(matrix, s1, s2, i);
      i := i + 1;
    }
    assert s1[..len1] == s1 && s2[..len2] == s2;
    d := matrix[len1, len2];
  }

  /** The first initialisation loop: column 0 holds the distances of the
      prefixes of s1 to the empty string. */
  method FillColumn(matrix: array2<nat>, s1: string)
    requires matrix.Length0 == |s1| + 1
    requires matrix.Length1 > 0
    modifies matrix
    ensures forall a :: 0 <= a <= |s1| ==> matrix[a, 0] == EditDistance(s1[..a], [])
  {
    var i := 0;
    while i <= |s1|
      invariant 0 <= i <= |s1| + 1
      invariant forall a :: 0 <= a < i ==> matrix[a, 0] == EditDistance(s1[..a], [])
    {
      matrix[i, 0] := i;
      i := i + 1;
    }
  }

  /** The second initialisation loop: row 0 holds the distances of the empty
      string to the prefixes of s2; column 0 is kept. */
  method FillFirstRow(matrix: array2<nat>, s1: string, s2: string)
    requires matrix.Length0 == |s1| + 1 && matrix.Length1 == |s2| + 1
    requires forall a :: 0 <= a <= |s1| ==> matrix[a, 0] == EditDistance(s1[..a], [])
    modifies matrix
    ensures forall a :: 0 <= a <= |s1| ==> matrix[a, 0] == EditDistance(s1[..a], [])
    ensures forall b :: 0 <= b <= |s2| ==> matrix[0, b] == EditDistance([], s2[..b])
  {
    var j := 0;
    while j <= |s2|
      invariant 0 <= j <= |s2| + 1
      invariant forall a :: 0 <= a <= |s1| ==> matrix[a, 0] == EditDistance(s1[..a], [])
      invariant forall b :: 0 <= b < j ==> matrix[0, b] == EditDistance([], s2[..b])
    {
      matrix[0, j] := j;
      j := j + 1;
    }
  }

  /** One pass of the inner loop: row i from row i-1 and its own first cell. */
  method FillRow(matrix: array2<nat>, s1: string, s2: string, i: nat)
    requires matrix.Length0 == |s1| + 1 && matrix.Length1 == |s2| + 1 && 0 < i <= |s1|
    requires forall b :: 0 <= b <= |s2| ==> matrix[i - 1, b] == EditDistance(s1[..i - 1], s2[..b])
    requires matrix[i, 0] == EditDistance(s1[..i], [])
    modifies matrix
    ensures forall b :: 0 <= b <= |s2| ==> matrix[i, b] == EditDistance(s1[..i], s2[..b])
    ensures forall a, b :: 0 <= a <= |s1| && 0 <= b <= |s2| && a != i ==> matrix[a, b] == old(matrix[a, b])
  {
    var j := 1;
    while j <= |s2|
      invariant 1 <= j <= |s2| + 1
      invariant forall b :: 0 <= b < j ==> matrix[i, b] == EditDistance(s1[..i], s2[..b])
      invariant forall a, b :: 0 <= a <= |s1| && 0 <= b <= |s2| && a != i ==> matrix[a, b] == old(matrix[a, b])
    {
      FillCell(matrix, s1, s2, i, j);
      j := j + 1;
    }
  }

  /** One cell of the inner loop: matrix[i][j] from its three neighbours
      above, to the left and diagonally above-left. */
  method FillCell(matrix: array2<nat>, s1: string, s2: string, i: nat, j: nat)
    requires matrix.Length0 == |s1| + 1 && matrix.Length1 == |s2| + 1
    requires 0 < i <= |s1| && 0 < j <= |s2|
    requires matrix[i - 1, j] == EditDistance(s1[..i - 1], s2[..j])
    requires matrix[i, j - 1] == EditDistance(s1[..i], s2[..j - 1])
    requires matrix[i - 1, j - 1] == EditDistance(s1[..i - 1], s2[..j - 1])
    modifies matrix
    ensures matrix[i, j] == EditDistance(s1[..i], s2[..j])
    ensures forall a, b :: 0 <= a <= |s1| && 0 <= b <= |s2| && (a, b) != (i, j) ==> matrix[a, b] == old(matrix[a, b])
  {
    var cost := if s1[i - 1] == s2[j - 1] then 0 else 1;
    Recurrence(s1, s2, i, j);
    matrix[i, j] := Min3(matrix[i - 1, j] + 1, matrix[i, j - 1] + 1, matrix[i - 1, j - 1] + cost);
  }

  // ---------------------------------------------------------------------
  // Suggestions

  /** The words of a tree in preorder: node, left subtree, right subtree. */
  function Preorder(t: Bst): (ws: seq<string>)
    ensures forall k :: 0 <= k < |ws| ==> ws[k] in Words(t)
    ensures forall x :: x in Words(t) ==> x in ws
  {
    match t
    case Empty => []
    case Node(w, l, r) => [w] + Preorder(l) + Preorder(r)
  }

  /** The words of `ws` within `maxDistance` of `query`, in order. */
  function Within(ws: seq<string>, query: string, maxDistance: int): (out: seq<string>)
    ensures forall x :: x in out <==> x in ws && EditDistance(query, x) <= maxDistance
  {
    if ws == [] then []
    else
      var rest := Within(ws[1..], query, maxDistance);
      assert forall x :: x in ws <==> x == ws[0] || x in ws[1..];
      if EditDistance(query, ws[0]) <= maxDistance then [ws[0]] + rest else rest
  }

  lemma {:induction false} WithinAppend(a: seq<string>, b: seq<string>, query: string, maxDistance: int)
    ensures Within(a + b, query, maxDistance) == Within(a, query, maxDistance) + Within(b, query, maxDistance)
  {
    if a != [] {
      assert (a + b)[1..] == a[1..] + b;
      WithinAppend(a[1..], b, query, maxDistance);
    } else {
      assert a + b == b;
    }
  }

  /** suggestWords: the distance from the query to each node's word, the
      node reported when within `maxDistance`, then the two subtrees. Every
      suggestion is a stored word close enough to the query. */
  function SuggestWords(t: Bst, query: string, maxDistance: int): (out: seq<string>)
    ensures forall k :: 0 <= k < |out| ==> out[k] in Words(t) && EditDistance(query, out[k]) <= maxDistance
  {
    match t
    case Empty => []
    case Node(w, l, r) =>
      (if EditDistance(query, w) <= maxDistance then [w] else [])
        + SuggestWords(l, query, maxDistance) + SuggestWords(r, query, maxDistance)
  }

  /** The suggestions are the preorder words within the distance, in
      preorder, so exactly the stored words close enough to the query. */
  lemma {:induction false} SuggestFilters(t: Bst, query: string, maxDistance: int)
    ensures SuggestWords(t, query, maxDistance) == Within(Preorder(t), query, maxDistance)
    ensures forall x :: x in SuggestWords(t, query, maxDistance) <==>
      x in Words(t) && EditDistance(query, x) <= maxDistance
  {
    match t
    case Empty =>
    case Node(w, l, r) =>
      SuggestFilters(l, query, maxDistance);
      SuggestFilters(r, query, maxDistance);
      WithinAppend([w] + Preorder(l), Preorder(r), query, maxDistance);
      WithinAppend([w], Preorder(l), query, maxDistance);
  }

  /** A stored word is always suggested for itself. */
  lemma SuggestSelf(t: Bst, w: string, maxDistance: int)
    requires w in Words(t) && maxDistance >= 0
    ensures w in SuggestWords(t, w, maxDistance)
  {
    SuggestFilters(t, w, maxDistance);
  }
}
