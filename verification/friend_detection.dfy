/** Friend detection: phone numbers as the nodes of an undirected call graph
    held in a 0/1 adjacency matrix, with find-or-add numbering and a
    direct-contact query. */
module FriendDetection {
  import opened Bytes

  const MaxNodes := 100
  /** Each number lives in a 10-byte buffer, NUL included. */
  const NumberCapacity := 10

  type Matrix = seq<seq<int>>

  /** The call graph: the matrix, nodeCount, and the number table addEdge
      keeps in its own `static` array, which outlives initializeGraph. */
  datatype CallGraph = CallGraph(graph: Matrix, nodeCount: nat, numbers: seq<string>)

  ghost predicate IsSquare(g: Matrix)
  {
    |g| == MaxNodes && forall u :: 0 <= u < MaxNodes ==> |g[u]| == MaxNodes
  }

  ghost predicate Valid(c: CallGraph)
  {
    IsSquare(c.graph) && |c.numbers| == MaxNodes && c.nodeCount <= MaxNodes
  }

  ghost predicate Symmetric(g: Matrix)
    requires IsSquare(g)
  {
    forall u, v :: 0 <= u < MaxNodes && 0 <= v < MaxNodes ==> g[u][v] == g[v][u]
  }

  ghost predicate ZeroOne(g: Matrix)
    requires IsSquare(g)
  {
    forall u, v :: 0 <= u < MaxNodes && 0 <= v < MaxNodes ==> g[u][v] == 0 || g[u][v] == 1
  }

  /** A `static` number table before anything is stored in it: every entry
      is the empty string. */
  function EmptyTable(): (t: seq<string>)
    ensures |t| == MaxNodes && forall k :: 0 <= k < MaxNodes ==> t[k] == ""
  {
    seq(MaxNodes, _ => "")
  }

  /** The state at program start. `graph` is a local array of main that
      nothing has written, so it holds whatever the stack held (`garbage`);
      nodeCount starts at 0; addEdge's `static` table is zero-initialised,
      so every number in it is the empty string. */
  function Start(garbage: Matrix): (c: CallGraph)
    requires IsSquare(garbage)
    ensures Valid(c) && c.nodeCount == 0
    ensures forall k :: 0 <= k < MaxNodes ==> c.numbers[k] == ""
  {
    CallGraph(garbage, 0, EmptyTable())
  }

  /** initializeGraph clears whatever the stack held: after it, the state
      no longer depends on the start matrix, and holds no node and no edge. */
  lemma StartCleared(g1: Matrix, g2: Matrix)
    requires IsSquare(g1) && IsSquare(g2)
    ensures InitializeGraph(Start(g1)) == InitializeGraph(Start(g2))
    ensures var c := InitializeGraph(Start(g1));
      && c.nodeCount == 0
      && (forall k :: 0 <= k < MaxNodes ==> c.numbers[k] == "")
      && forall u, v :: 0 <= u < MaxNodes && 0 <= v < MaxNodes ==> c.graph[u][v] == 0
  {
  }

  /** initializeGraph: every entry 0 and no nodes; addEdge's number table is
      not its to clear. */
  function InitializeGraph(c: CallGraph): (r: CallGraph)
    requires Valid(c)
    ensures Valid(r) && r.nodeCount == 0 && r.numbers == c.numbers
    ensures Symmetric(r.graph) && ZeroOne(r.graph)
    ensures forall u, v :: 0 <= u < MaxNodes && 0 <= v < MaxNodes ==> r.graph[u][v] == 0
  {
    CallGraph(seq(MaxNodes, _ => seq(MaxNodes, _ => 0)), 0, c.numbers)
  }

  /** The lookup loop: the first of the first `count` numbers equal to
      `number`, or -1. */
  function Lookup(numbers: seq<string>, count: nat, number: string): (i: int)
    requires count <= |numbers|
    ensures -1 <= i < count
    ensures i == -1 <==> number !in numbers[..count]
    ensures i >= 0 ==> numbers[i] == number && number !in numbers[..i]
  {
    if count == 0 then -1
    else
      var i := Lookup(numbers, count - 1, number);
      assert numbers[..count] == numbers[..count - 1] + [numbers[count - 1]];
      if i >= 0 then i
      else if numbers[count - 1] == number then count - 1
      else -1
  }

  /** Find-or-add: the index of the number, storing it at nodeCount and
      counting it when absent. */
  function FindOrAdd(c: CallGraph, number: string): (r: (CallGraph, nat))
    requires Valid(c) && FitsBuffer(number, NumberCapacity)
    requires Lookup(c.numbers, c.nodeCount, number) >= 0 || c.nodeCount < MaxNodes
    ensures Valid(r.0) && r.0.graph == c.graph
    ensures r.1 < r.0.nodeCount && r.0.numbers[r.1] == number
    ensures Lookup(c.numbers, c.nodeCount, number) >= 0 ==> r == (c, Lookup(c.numbers, c.nodeCount, number))
    ensures Lookup(c.numbers, c.nodeCount, number) < 0 ==>
      r.0.nodeCount == c.nodeCount + 1 && r.1 == c.nodeCount
      && r.0.numbers[..c.nodeCount] == c.numbers[..c.nodeCount]
  {
    var i := Lookup(c.numbers, c.nodeCount, number);
    if i >= 0 then (c, i)
    else (CallGraph(c.graph, c.nodeCount + 1, c.numbers[c.nodeCount := number]), c.nodeCount)
  }

  /** How many new numbers addEdge stores: the caller when absent, then the
      callee when absent and different from the caller. */
  function NewNumbers(c: CallGraph, caller: string, callee: string): (k: nat)
    requires Valid(c)
    ensures k <= 2 && (caller == callee ==> k <= 1)
  {
    (if Lookup(c.numbers, c.nodeCount, caller) < 0 then 1 else 0)
      + (if Lookup(c.numbers, c.nodeCount, callee) < 0 && callee != caller then 1 else 0)
  }

  /** The two stores at the end of addEdge. */
  function Connect(g: Matrix, i: nat, j: nat): (r: Matrix)
    requires IsSquare(g) && i < MaxNodes && j < MaxNodes
    ensures IsSquare(r) && r[i][j] == 1 && r[j][i] == 1
    ensures forall u, v :: 0 <= u < MaxNodes && 0 <= v < MaxNodes && !(u == i && v == j) && !(u == j && v == i) ==>
      r[u][v] == g[u][v]
  {
    var g1 := g[i := g[i][j := 1]];
    g1[j := g1[j][i := 1]]
  }

  /** addEdge: find or add the caller, then the callee, then mark the call
      in both directions. Buffer and table sizes are not checked in the
      source; the precondition keeps them within bounds. */
  function AddEdge(c: CallGraph, caller: string, callee: string): (r: CallGraph)
    requires Valid(c) && FitsBuffer(caller, NumberCapacity) && FitsBuffer(callee, NumberCapacity)
    requires c.nodeCount + NewNumbers(c, caller, callee) <= MaxNodes
    ensures Valid(r)
    ensures r.nodeCount == c.nodeCount + NewNumbers(c, caller, callee)
    ensures r.numbers[..c.nodeCount] == c.numbers[..c.nodeCount]
    ensures NewNumbers(c, caller, callee) == 2 ==>
      r.numbers[c.nodeCount] == caller && r.numbers[c.nodeCount + 1] == callee
    ensures var i, j := Lookup(r.numbers, r.nodeCount, caller), Lookup(r.numbers, r.nodeCount, callee);
      && 0 <= i && 0 <= j
      && r.graph[i][j] == 1 && r.graph[j][i] == 1
      && forall u, v :: 0 <= u < MaxNodes && 0 <= v < MaxNodes && !(u == i && v == j) && !(u == j && v == i) ==>
           r.graph[u][v] == c.graph[u][v]
  {
    AddEdgeNumbers(c, caller, callee);
    var first := FindOrAdd(c, caller);
    var second := FindOrAdd(first.0, callee);
    CallGraph(Connect(second.0.graph, first.1, second.1), second.0.nodeCount, second.0.numbers)
  }

  /** The two find-or-add steps of addEdge: the second one has room, the
      numbers stored are the new ones, in order, after the old ones, and
      both numbers are then found where the steps put them. */
  lemma AddEdgeNumbers(c: CallGraph, caller: string, callee: string)
    requires Valid(c) && FitsBuffer(caller, NumberCapacity) && FitsBuffer(callee, NumberCapacity)
    requires c.nodeCount + NewNumbers(c, caller, callee) <= MaxNodes
    ensures var first := FindOrAdd(c, caller);
      var c1, i := first.0, first.1;
      && (Lookup(c1.numbers, c1.nodeCount, callee) >= 0 || c1.nodeCount < MaxNodes)
      && var second := FindOrAdd(c1, callee);
         var c2, j := second.0, second.1;
         && Valid(c2) && c2.graph == c.graph
         && c2.nodeCount == c.nodeCount + NewNumbers(c, caller, callee)
         && c2.numbers[..c.nodeCount] == c.numbers[..c.nodeCount]
         && (NewNumbers(c, caller, callee) == 2 ==>
               c2.numbers[c.nodeCount] == caller && c2.numbers[c.nodeCount + 1] == callee)
         && Lookup(c2.numbers, c2.nodeCount, caller) == i
         && Lookup(c2.numbers, c2.nodeCount, callee) == j
  {
    var c1 := FindOrAdd(c, caller).0;
    SecondLookup(c, caller, callee);
    FirstKept(c1, caller, callee);
    FirstIndex(c, caller);
    FirstIndex(c1, callee);
  }

  /** The number found or stored is the one a later lookup finds. */
  lemma FirstIndex(c: CallGraph, number: string)
    requires Valid(c) && FitsBuffer(number, NumberCapacity)
    requires Lookup(c.numbers, c.nodeCount, number) >= 0 || c.nodeCount < MaxNodes
    ensures var (r, i) := FindOrAdd(c, number); Lookup(r.numbers, r.nodeCount, number) == i
  {
    var (r, i) := FindOrAdd(c, number);
    if Lookup(c.numbers, c.nodeCount, number) < 0 {
      assert r.numbers[..r.nodeCount] == c.numbers[..c.nodeCount] + [number];
    }
  }

  /** Storing the callee does not move where the caller is found. */
  lemma FirstKept(c1: CallGraph, caller: string, callee: string)
    requires Valid(c1) && FitsBuffer(callee, NumberCapacity)
    requires Lookup(c1.numbers, c1.nodeCount, callee) >= 0 || c1.nodeCount < MaxNodes
    requires Lookup(c1.numbers, c1.nodeCount, caller) >= 0
    ensures var r := FindOrAdd(c1, callee).0;
      Lookup(r.numbers, r.nodeCount, caller) == Lookup(c1.numbers, c1.nodeCount, caller)
  {
    var r := FindOrAdd(c1, callee).0;
    var i := Lookup(c1.numbers, c1.nodeCount, caller);
    if r != c1 {
      assert r.numbers[..i] == c1.numbers[..i];
    }
  }

  /** The callee is new after the caller is stored exactly when it was new
      before and is not the caller. */
  lemma SecondLookup(c: CallGraph, caller: string, callee: string)
    requires Valid(c) && FitsBuffer(caller, NumberCapacity)
    requires Lookup(c.numbers, c.nodeCount, caller) >= 0 || c.nodeCount < MaxNodes
    ensures var c1 := FindOrAdd(c, caller).0;
      Lookup(c1.numbers, c1.nodeCount, callee) < 0 <==>
        Lookup(c.numbers, c.nodeCount, callee) < 0 && callee != caller
  {
    var c1 := FindOrAdd(c, caller).0;
    if c1 != c {
      assert c1.numbers[..c1.nodeCount] == c.numbers[..c.nodeCount] + [caller];
    }
  }

  /** addEdge keeps the matrix symmetric and 0/1-valued. */
  lemma AddEdgeShape(c: CallGraph, caller: string, callee: string)
    requires Valid(c) && FitsBuffer(caller, NumberCapacity) && FitsBuffer(callee, NumberCapacity)
    requires c.nodeCount + NewNumbers(c, caller, callee) <= MaxNodes
    requires Symmetric(c.graph) && ZeroOne(c.graph)
    ensures Symmetric(AddEdge(c, caller, callee).graph) && ZeroOne(AddEdge(c, caller, callee).graph)
  {
    var r := AddEdge(c, caller, callee);
    var i, j := Lookup(r.numbers, r.nodeCount, caller), Lookup(r.numbers, r.nodeCount, callee);
    forall u, v | 0 <= u < MaxNodes && 0 <= v < MaxNodes ensures r.graph[u][v] == r.graph[v][u] {
      if !(u == i && v == j) && !(u == j && v == i) {
        assert !(v == i && u == j) && !(v == j && u == i);
      }
    }
  }

  // ---------------------------------------------------------------------
  // Direct contacts

  /** What findDirectContacts reports: "not found", or the indices of the
      contacts it lists with the numbers it prints for them. */
  datatype Contacts = NotFound | Listed(indices: seq<nat>, printed: seq<string>)

  /** The listing loop: the indices below `count` whose entry in the
      target's row is 1, in increasing order. */
  function Row(g: Matrix, t: nat, count: nat): (r: seq<nat>)
    requires IsSquare(g) && t < MaxNodes && count <= MaxNodes
    ensures forall k :: 0 <= k < |r| ==> r[k] < count
    ensures forall x: nat :: x in r <==> x < count && g[t][x] == 1
    ensures forall a, b :: 0 <= a < b < |r| ==> r[a] < r[b]
  {
    if count == 0 then []
    else
      var r := Row(g, t, count - 1);
      if g[t][count - 1] == 1 then r + [count - 1] else r
  }

  /** findDirectContacts reading its numbers from `numbers`. */
  function DirectContacts(c: CallGraph, numbers: seq<string>, target: string): (r: Contacts)
    requires Valid(c) && |numbers| == MaxNodes
    ensures r.NotFound? <==> target !in numbers[..c.nodeCount]
    ensures r.Listed? ==> |r.printed| == |r.indices|
  {
    var t := Lookup(numbers, c.nodeCount, target);
    if t < 0 then NotFound
    else
      var row := Row(c.graph, t, c.nodeCount);
      Listed(row, seq(|row|, k requires 0 <= k < |row| => numbers[row[k]]))
  }

  /** findDirectContacts as written: it declares a `static` number table of
      its own that nothing ever writes, so it searches empty strings and finds
      only the empty number, and that only once there is a node. */
  function FindDirectContacts(c: CallGraph, target: string): (r: Contacts)
    requires Valid(c)
    ensures r.NotFound? <==> target != "" || c.nodeCount == 0
  {
    var e := EmptyTable();
    assert c.nodeCount > 0 ==> e[..c.nodeCount][0] == "";
    DirectContacts(c, e, target)
  }

  /** findDirectContacts reading the numbers addEdge stored. */
  function FindDirectContactsShared(c: CallGraph, target: string): (r: Contacts)
    requires Valid(c)
    ensures r.NotFound? <==> target !in c.numbers[..c.nodeCount]
  {
    DirectContacts(c, c.numbers, target)
  }

  /** As written, no number other than the empty string is ever found, and
      the empty string finds row 0 as soon as there is a node. */
  lemma NeverFound(c: CallGraph, target: string)
    requires Valid(c)
    ensures target != "" ==> FindDirectContacts(c, target) == NotFound
    ensures target == "" && c.nodeCount > 0 ==>
      FindDirectContacts(c, target).Listed? && FindDirectContacts(c, target).indices == Row(c.graph, 0, c.nodeCount)
  {
    var e := EmptyTable();
    if target != "" {
      assert target !in e[..c.nodeCount];
    } else if c.nodeCount > 0 {
      assert e[0] == target;
    }
  }

  /** With the shared table, a known number lists exactly its neighbours
      among the first nodeCount nodes, each printed with its own number. */
  lemma SharedListsNeighbours(c: CallGraph, target: string)
    requires Valid(c) && target in c.numbers[..c.nodeCount]
    ensures var t := Lookup(c.numbers, c.nodeCount, target);
      var r := FindDirectContactsShared(c, target);
      && r.Listed? && c.numbers[t] == target
      && (forall x: nat :: x in r.indices <==> x < c.nodeCount && c.graph[t][x] == 1)
      && (forall k :: 0 <= k < |r.indices| ==> r.printed[k] == c.numbers[r.indices[k]])
  {
  }

  /** A first call between two numbers on a cleared graph. */
  lemma FirstCallOn(c0: CallGraph)
    requires Valid(c0) && c0.nodeCount == 0
    requires forall u, v :: 0 <= u < MaxNodes && 0 <= v < MaxNodes ==> c0.graph[u][v] == 0
    ensures FindDirectContacts(AddEdge(c0, "0781", "0782"), "0781") == NotFound
    ensures FindDirectContactsShared(AddEdge(c0, "0781", "0782"), "0781") == Listed([1], ["0782"])
  {
    var c := AddEdge(c0, "0781", "0782");
    NeverFound(c, "0781");
    assert NewNumbers(c0, "0781", "0782") == 2;
    assert c.nodeCount == 2 && c.numbers[0] == "0781" && c.numbers[1] == "0782";
    assert c.numbers[..2] == ["0781", "0782"];
    assert Lookup(c.numbers, 2, "0781") == 0;
    assert Lookup(c.numbers, 2, "0782") == 1;
    assert c.graph[0][1] == 1 && c.graph[0][0] == 0;
    assert Row(c.graph, 0, 1) == Row(c.graph, 0, 0) == [];
    assert Row(c.graph, 0, 2) == [1];
  }

  /** After the driver's first call "0781" is not found as written, while
      the shared table lists "0782" as its one contact, whatever the stack
      held before initializeGraph. */
  lemma FirstCallContacts(garbage: Matrix)
    requires IsSquare(garbage)
    ensures var c := AddEdge(InitializeGraph(Start(garbage)), "0781", "0782");
      FindDirectContacts(c, "0781") == NotFound && FindDirectContactsShared(c, "0781") == Listed([1], ["0782"])
  {
    FirstCallOn(InitializeGraph(Start(garbage)));
  }
}
