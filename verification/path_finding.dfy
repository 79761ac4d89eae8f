/** The city path finder: case- and space-insensitive city names, an
    undirected travel-time matrix with INT_MAX for "no road", and Dijkstra's
    algorithm with a predecessor chain for the route. */
module PathFinding {
  import opened Bytes

  const MaxCities := 100
  /** Each city name lives in a 50-byte buffer, NUL included. */
  const NameCapacity := 50
  /** INT_MAX: "no direct connection" in the matrix, "unreached" in the
      distance array. */
  const IntMax := 0x7FFF_FFFF

  // ---------------------------------------------------------------------
  // Names

  /** `isspace` in the C locale: space, tab, newline, vertical tab, form
      feed, carriage return. */
  predicate IsSpace(c: char)
  {
    c == ' ' || '\t' <= c <= '\r'
  }

  predicate IsUpper(c: char)
  {
    'A' <= c <= 'Z'
  }

  /** `tolower` in the C locale. */
  function ToLower(c: char): (r: char)
    ensures !IsUpper(r)
    ensures IsSpace(r) <==> IsSpace(c)
  {
    if IsUpper(c) then (c as int + 32) as char else c
  }

  /** The first loop of normalizeCity: skip leading white space. */
  function SkipLeading(s: string): (r: string)
    ensures |r| <= |s|
  {
    if s != [] && IsSpace(s[0]) then SkipLeading(s[1..]) else s
  }

  /** The copy loop: every character through `tolower`. */
  function Lower(s: string): (r: string)
    ensures |r| == |s|
  {
    if s == [] then [] else [ToLower(s[0])] + Lower(s[1..])
  }

  /** The last loop: back the end over trailing white space. */
  function DropTrailing(s: string): (r: string)
    ensures |r| <= |s|
  {
    if s != [] && IsSpace(s[|s| - 1]) then DropTrailing(s[..|s| - 1]) else s
  }

  /** normalizeCity: trim white space at both ends and lower-case. The
      normal form has no white space at either end and no upper-case letter. */
  function NormalizeCity(s: string): (r: string)
    ensures r == [] || (!IsSpace(r[0]) && !IsSpace(r[|r| - 1]))
    ensures forall k :: 0 <= k < |r| ==> !IsUpper(r[k])
  {
    var t := SkipLeading(s);
    var r := DropTrailing(Lower(t));
    SkipLeadingProps(s);
    LowerProps(t);
    DropTrailingProps(Lower(t));
    assert r != [] ==> r[0] == Lower(t)[0] == ToLower(t[0]);
    assert forall k :: 0 <= k < |r| ==> r[k] == Lower(t)[k];
    r
  }

  /** The first loop stops at a suffix that starts with a non-space, having
      skipped only white space. */
  lemma {:induction false} SkipLeadingProps(s: string)
    ensures var r := SkipLeading(s);
      && (r == [] || !IsSpace(r[0]))
      && r == s[|s| - |r|..]
      && forall k :: 0 <= k < |s| - |r| ==> IsSpace(s[k])
  {
    if s != [] && IsSpace(s[0]) {
      SkipLeadingProps(s[1..]);
    }
  }

  lemma {:induction false} LowerProps(s: string)
    ensures forall k :: 0 <= k < |s| ==> Lower(s)[k] == ToLower(s[k])
  {
    if s != [] {
      LowerProps(s[1..]);
    }
  }

  /** The last loop stops at a prefix that ends with a non-space, having
      dropped only white space. */
  lemma {:induction false} DropTrailingProps(s: string)
    ensures var r := DropTrailing(s);
      && (r == [] || !IsSpace(r[|r| - 1]))
      && r == s[..|r|]
      && forall k :: |r| <= k < |s| ==> IsSpace(s[k])
  {
    if s != [] && IsSpace(s[|s| - 1]) {
      DropTrailingProps(s[..|s| - 1]);
    }
  }

  /** The normal form is the lower-cased text between the white space the
      name starts and ends with. */
  lemma NormalizeMiddle(s: string)
    ensures exists i, j :: (0 <= i <= j <= |s| && NormalizeCity(s) == Lower(s[i..j])
      && (forall k :: 0 <= k < i ==> IsSpace(s[k]))
      && (forall k :: j <= k < |s| ==> IsSpace(s[k])))
  {
    var t := SkipLeading(s);
    var r := DropTrailing(Lower(t));
    SkipLeadingProps(s);
    LowerProps(t);
    DropTrailingProps(Lower(t));
    var i := |s| - |t|;
    var j := i + |r|;
    LowerPrefix(t, |r|);
    assert t[..|r|] == s[i..j];
    forall k | j <= k < |s| ensures IsSpace(s[k]) {
      assert IsSpace(Lower(t)[k - i]);
    }
  }

  /** Lower-casing commutes with taking a prefix. */
  lemma LowerPrefix(t: string, n: nat)
    requires n <= |t|
    ensures Lower(t)[..n] == Lower(t[..n])
  {
    LowerProps(t);
    LowerProps(t[..n]);
  }

  /** Normalizing twice is normalizing once. */
  lemma NormalizeIdempotent(s: string)
    ensures NormalizeCity(NormalizeCity(s)) == NormalizeCity(s)
  {
    var r := NormalizeCity(s);
    LowerKeeps(r);
    SkipNone(r);
    DropNone(r);
  }

  lemma LowerKeeps(r: string)
    requires forall k :: 0 <= k < |r| ==> !IsUpper(r[k])
    ensures Lower(r) == r
  {
    LowerProps(r);
  }

  lemma SkipNone(r: string)
    requires r == [] || !IsSpace(r[0])
    ensures SkipLeading(r) == r
  {
  }

  lemma DropNone(r: string)
    requires r == [] || !IsSpace(r[|r| - 1])
    ensures DropTrailing(r) == r
  {
  }

  /** The normal forms of the stored names, in order. */
  function Keys(names: seq<string>): (keys: seq<string>)
    ensures |keys| == |names|
    ensures forall k :: 0 <= k < |names| ==> keys[k] == NormalizeCity(names[k])
  {
    if names == [] then [] else Keys(names[..|names| - 1]) + [NormalizeCity(names[|names| - 1])]
  }

  lemma KeysAppend(names: seq<string>, name: string)
    ensures Keys(names + [name]) == Keys(names) + [NormalizeCity(name)]
  {
    assert (names + [name])[..|names|] == names;
  }

  /** The search loop from index `i` on: the first key equal to `key`. */
  function FindKey(keys: seq<string>, key: string, i: nat): (r: int)
    requires i <= |keys|
    ensures r == -1 || i <= r < |keys|
    ensures r == -1 <==> key !in keys[i..]
    ensures r >= 0 ==> keys[r] == key && key !in keys[i..r]
    decreases |keys| - i
  {
    if i == |keys| then -1
    else if keys[i] == key then i
    else
      var r := FindKey(keys, key, i + 1);
      assert keys[i..] == [keys[i]] + keys[i + 1..];
      assert r >= 0 ==> keys[i..r] == [keys[i]] + keys[i + 1..r];
      r
  }

  /** findCityIndex over the first `|names|` cities: the first name whose
      normal form matches the query's, or -1. */
  function FindCityIndex(names: seq<string>, name: string): (i: int)
    ensures -1 <= i < |names|
    ensures i == -1 <==> NormalizeCity(name) !in Keys(names)
    ensures i >= 0 ==> Keys(names)[i] == NormalizeCity(name) && NormalizeCity(name) !in Keys(names)[..i]
  {
    assert Keys(names)[0..] == Keys(names);
    FindKey(Keys(names), NormalizeCity(name), 0)
  }

  /** A name is stored at most once up to normal form. */
  ghost predicate DistinctNames(names: seq<string>)
  {
    forall i, j :: 0 <= i < j < |Keys(names)| ==> Keys(names)[i] != Keys(names)[j]
  }

  /** The find-or-add step of addEdge: the index of the name, appending it
      when no stored name matches. */
  function FindOrAdd(names: seq<string>, name: string): (r: (seq<string>, nat))
    ensures r.1 < |r.0| && Keys(r.0)[r.1] == NormalizeCity(name)
    ensures NormalizeCity(name) in Keys(names) ==> r.0 == names
    ensures NormalizeCity(name) !in Keys(names) ==> r.0 == names + [name]
  {
    var i := FindCityIndex(names, name);
    if i == -1 then
      KeysAppend(names, name);
      (names + [name], |names|)
    else (names, i)
  }

  /** The index found or made is the one a later lookup finds. */
  lemma FindOrAddFound(names: seq<string>, name: string)
    ensures FindCityIndex(FindOrAdd(names, name).0, name) == FindOrAdd(names, name).1
  {
    var (ns, i) := FindOrAdd(names, name);
    if ns != names {
      KeysAppend(names, name);
      assert Keys(ns)[..i] == Keys(names);
    }
  }

  /** Find-or-add keeps the stored names distinct. */
  lemma FindOrAddDistinct(names: seq<string>, name: string)
    requires DistinctNames(names)
    ensures DistinctNames(FindOrAdd(names, name).0)
  {
    KeysAppend(names, name);
  }

  /** Appending to the name list does not change an earlier lookup's answer. */
  lemma FindExtended(names: seq<string>, name: string, extra: string)
    requires FindCityIndex(names, name) >= 0
    ensures FindCityIndex(names + [extra], name) == FindCityIndex(names, name)
  {
    var i := FindCityIndex(names, name);
    KeysAppend(names, extra);
    assert Keys(names + [extra])[..i] == Keys(names)[..i];
  }

  // ---------------------------------------------------------------------
  // The road network

  type Matrix = seq<seq<int>>

  /** The network: the city names in order of first mention (cityCount is
      their number) and the MAX_CITIES x MAX_CITIES travel-time matrix. */
  datatype Network = Network(names: seq<string>, graph: Matrix)

  ghost predicate IsSquare(g: Matrix, n: nat)
  {
    |g| == n && forall u :: 0 <= u < n ==> |g[u]| == n
  }

  ghost predicate Valid(net: Network)
  {
    IsSquare(net.graph, MaxCities) && |net.names| <= MaxCities
  }

  ghost predicate Symmetric(g: Matrix)
    requires IsSquare(g, |g|)
  {
    forall u, v :: 0 <= u < |g| && 0 <= v < |g| ==> g[u][v] == g[v][u]
  }

  /** initializeGraph: no cities, a zero diagonal and INT_MAX everywhere
      else, so no road between distinct cities. */
  function InitializeGraph(): (net: Network)
    ensures Valid(net) && net.names == []
    ensures Symmetric(net.graph)
    ensures forall u, v :: 0 <= u < MaxCities && 0 <= v < MaxCities ==>
      (net.graph[u][v] == IntMax <==> u != v) && (u == v ==> net.graph[u][v] == 0)
  {
    Network([], seq(MaxCities, u => seq(MaxCities, v => if u == v then 0 else IntMax)))
  }

  /** The names addEdge leaves behind: find-or-add the origin, then the
      destination in the list that may now hold the origin. */
  function NamesAfter(names: seq<string>, from: string, to: string): seq<string>
  {
    FindOrAdd(FindOrAdd(names, from).0, to).0
  }

  /** The two stores at the end of addEdge. */
  function SetTime(g: Matrix, i: nat, j: nat, time: int): (r: Matrix)
    requires IsSquare(g, MaxCities) && i < MaxCities && j < MaxCities
    ensures IsSquare(r, MaxCities)
    ensures r[i][j] == time && r[j][i] == time
    ensures forall u, v :: 0 <= u < MaxCities && 0 <= v < MaxCities && !(u == i && v == j) && !(u == j && v == i) ==>
      r[u][v] == g[u][v]
  {
    var g1 := g[i := g[i][j := time]];
    g1[j := g1[j][i := time]]
  }

  /** The indices addEdge stores the time at: the origin's, found or
      made, then the destination's in the list that may now hold the origin. */
  function EdgeEnds(names: seq<string>, from: string, to: string): (ends: (nat, nat))
    ensures ends.0 < |NamesAfter(names, from, to)| && ends.1 < |NamesAfter(names, from, to)|
  {
    var (n1, i) := FindOrAdd(names, from);
    (i, FindOrAdd(n1, to).1)
  }

  /** addEdge: find or add both cities, then set the travel time in both
      directions. The name buffers and the city table are not checked in
      the source; the precondition keeps them within bounds. */
  function AddEdge(net: Network, from: string, to: string, time: int): (r: Network)
    requires Valid(net) && FitsBuffer(from, NameCapacity) && FitsBuffer(to, NameCapacity)
    requires |NamesAfter(net.names, from, to)| <= MaxCities
    ensures Valid(r) && r.names == NamesAfter(net.names, from, to)
    ensures var (i, j) := EdgeEnds(net.names, from, to);
      && r.graph[i][j] == time && r.graph[j][i] == time
      && forall u, v :: 0 <= u < MaxCities && 0 <= v < MaxCities && !(u == i && v == j) && !(u == j && v == i) ==>
           r.graph[u][v] == net.graph[u][v]
  {
    var (i, j) := EdgeEnds(net.names, from, to);
    Network(NamesAfter(net.names, from, to), SetTime(net.graph, i, j, time))
  }

  /** The ends addEdge used are where later lookups find the two names. */
  lemma LookupsAfter(names: seq<string>, from: string, to: string)
    ensures FindCityIndex(NamesAfter(names, from, to), from) == EdgeEnds(names, from, to).0
    ensures FindCityIndex(NamesAfter(names, from, to), to) == EdgeEnds(names, from, to).1
  {
    var n1 := FindOrAdd(names, from).0;
    var n2 := NamesAfter(names, from, to);
    FindOrAddFound(names, from);
    FindOrAddFound(n1, to);
    if n2 != n1 {
      FindExtended(n1, from, to);
    }
  }

  /** addEdge keeps the matrix symmetric. */
  lemma AddEdgeSymmetric(net: Network, from: string, to: string, time: int)
    requires Valid(net) && FitsBuffer(from, NameCapacity) && FitsBuffer(to, NameCapacity)
    requires |NamesAfter(net.names, from, to)| <= MaxCities
    requires Symmetric(net.graph)
    ensures Symmetric(AddEdge(net, from, to, time).graph)
  {
    var (i, j) := EdgeEnds(net.names, from, to);
    SetTimeSymmetric(net.graph, i, j, time);
  }

  lemma SetTimeSymmetric(g: Matrix, i: nat, j: nat, time: int)
    requires IsSquare(g, MaxCities) && i < MaxCities && j < MaxCities && Symmetric(g)
    ensures Symmetric(SetTime(g, i, j, time))
  {
    var r := SetTime(g, i, j, time);
    forall u, v | 0 <= u < MaxCities && 0 <= v < MaxCities ensures r[u][v] == r[v][u] {
      if !(u == i && v == j) && !(u == j && v == i) {
        assert !(v == i && u == j) && !(v == j && u == i);
        assert r[u][v] == g[u][v] && r[v][u] == g[v][u];
      }
    }
  }

  /** addEdge appends a city only when no stored name matches it: the origin
      when it is new, the destination when it is new and differs from the
      origin, so the stored names stay distinct and only grow at the end. */
  lemma AddEdgeNames(names: seq<string>, from: string, to: string)
    requires DistinctNames(names)
    ensures var r := NamesAfter(names, from, to);
      && DistinctNames(r) && names <= r
      && |r| == |names|
           + (if FindCityIndex(names, from) < 0 then 1 else 0)
           + (if FindCityIndex(names, to) < 0 && NormalizeCity(to) != NormalizeCity(from) then 1 else 0)
  {
    var n1 := FindOrAdd(names, from).0;
    FindOrAddDistinct(names, from);
    FindOrAddDistinct(n1, to);
    SecondLookup(names, from, to);
  }

  /** The destination is new to the list holding the origin exactly when it
      is new to the old list and is not the origin. */
  lemma SecondLookup(names: seq<string>, from: string, to: string)
    ensures FindCityIndex(FindOrAdd(names, from).0, to) < 0 <==>
      FindCityIndex(names, to) < 0 && NormalizeCity(to) != NormalizeCity(from)
  {
    KeysAppend(names, from);
  }

  // ---------------------------------------------------------------------
  // Paths

  /** The first `n` rows and columns of a square matrix: the cities. */
  ghost predicate Fits(g: Matrix, n: nat)
  {
    IsSquare(g, |g|) && n <= |g|
  }

  /** Travel times are never negative between the first `n` cities. */
  ghost predicate NonNegative(g: Matrix, n: nat)
    requires Fits(g, n)
  {
    forall u, v :: 0 <= u < n && 0 <= v < n ==> g[u][v] >= 0
  }

  ghost predicate OnCities(p: seq<nat>, n: nat)
  {
    forall k :: 0 <= k < |p| ==> p[k] < n
  }

  /** A route from `s` to `t` over roads between the first `n` cities. */
  ghost predicate IsPath(g: Matrix, n: nat, p: seq<nat>, s: nat, t: nat)
    requires Fits(g, n)
  {
    && |p| >= 1 && p[0] == s && p[|p| - 1] == t && OnCities(p, n)
    && forall k :: 0 <= k < |p| - 1 ==> g[p[k]][p[k + 1]] != IntMax
  }

  /** The total travel time of a route. */
  ghost function Weight(g: Matrix, n: nat, p: seq<nat>): int
    requires Fits(g, n) && OnCities(p, n)
  {
    if |p| <= 1 then 0 else Weight(g, n, p[..|p| - 1]) + g[p[|p| - 2]][p[|p| - 1]]
  }

  /** The edge times along a route, hop by hop. */
  ghost function EdgeTimes(g: Matrix, n: nat, p: seq<nat>): (ts: seq<int>)
    requires Fits(g, n) && OnCities(p, n)
    ensures |p| >= 1 ==> |ts| == |p| - 1
  {
    if |p| <= 1 then [] else EdgeTimes(g, n, p[..|p| - 1]) + [g[p[|p| - 2]][p[|p| - 1]]]
  }

  function Sum(xs: seq<int>): int
  {
    if xs == [] then 0 else Sum(xs[..|xs| - 1]) + xs[|xs| - 1]
  }

  /** A route's weight is the sum of its edge times. */
  lemma {:induction false} WeightIsSum(g: Matrix, n: nat, p: seq<nat>)
    requires Fits(g, n) && OnCities(p, n)
    ensures Sum(EdgeTimes(g, n, p)) == Weight(g, n, p)
  {
    if |p| > 1 {
      WeightIsSum(g, n, p[..|p| - 1]);
      assert EdgeTimes(g, n, p)[..|EdgeTimes(g, n, p)| - 1] == EdgeTimes(g, n, p[..|p| - 1]);
    }
  }

  /** With non-negative times a route weighs at least as much as any prefix. */
  lemma {:induction false} WeightPrefix(g: Matrix, n: nat, p: seq<nat>, m: nat)
    requires Fits(g, n) && NonNegative(g, n) && OnCities(p, n) && 1 <= m <= |p|
    ensures Weight(g, n, p[..m]) <= Weight(g, n, p)
    decreases |p|
  {
    if m < |p| {
      assert p[..|p| - 1][..m] == p[..m];
      WeightPrefix(g, n, p[..|p| - 1], m);
    } else {
      assert p[..m] == p;
    }
  }

  lemma WeightNonNegative(g: Matrix, n: nat, p: seq<nat>)
    requires Fits(g, n) && NonNegative(g, n) && OnCities(p, n) && |p| >= 1
    ensures Weight(g, n, p) >= 0
  {
    WeightPrefix(g, n, p, 1);
  }

  /** The prefix of a route up to its k-th city is a route to that city. */
  lemma PrefixPath(g: Matrix, n: nat, p: seq<nat>, s: nat, t: nat, k: nat)
    requires Fits(g, n) && IsPath(g, n, p, s, t) && k < |p|
    ensures IsPath(g, n, p[..k + 1], s, p[k])
    ensures k > 0 ==> Weight(g, n, p[..k + 1]) == Weight(g, n, p[..k]) + g[p[k - 1]][p[k]]
  {
    if k > 0 {
      assert p[..k + 1][..k] == p[..k];
    }
  }

  // ---------------------------------------------------------------------
  // Dijkstra

  /** The inner selection loop: the unvisited city with the smallest
      distance below INT_MAX, the first one on a tie; -1 when none is left. */
  method SelectMin(dist: seq<int>, visited: seq<bool>) returns (minIndex: int)
    requires |dist| == |visited|
    ensures -1 <= minIndex < |dist|
    ensures minIndex == -1 <==> forall j :: 0 <= j < |dist| && !visited[j] ==> dist[j] >= IntMax
    ensures minIndex >= 0 ==> !visited[minIndex] && dist[minIndex] < IntMax
    ensures minIndex >= 0 ==> forall j :: 0 <= j < |dist| && !visited[j] ==> dist[minIndex] <= dist[j]
    ensures minIndex >= 0 ==> forall j :: 0 <= j < minIndex && !visited[j] ==> dist[minIndex] < dist[j]
  {
    var minDistance := IntMax;
    minIndex := -1;
    var j := 0;
    while j < |dist|
      invariant 0 <= j <= |dist| && -1 <= minIndex < j
      invariant minIndex == -1 ==> minDistance == IntMax
      invariant minIndex >= 0 ==> !visited[minIndex] && minDistance == dist[minIndex] < IntMax
      invariant forall k :: 0 <= k < j && !visited[k] ==> minDistance <= dist[k]
      invariant minIndex >= 0 ==> forall k :: 0 <= k < minIndex && !visited[k] ==> minDistance < dist[k]
    {
      if !visited[j] && dist[j] < minDistance {
        minDistance := dist[j];
        minIndex := j;
      }
      j := j + 1;
    }
  }

  /** The effect of one relaxation pass from the city `u` just visited: an
      unvisited neighbour gets the shorter distance through `u` and `u` as
      its predecessor; everything else is left alone. */
  ghost predicate RelaxedFrom(g: Matrix, n: nat, u: nat, visited: seq<bool>,
                              dist: seq<int>, prev: seq<int>, dist': seq<int>, prev': seq<int>)
    requires Fits(g, n) && u < n && |visited| == |dist| == |prev| == n
  {
    && |dist'| == n && |prev'| == n
    && forall j :: 0 <= j < n ==>
         if !visited[j] && g[u][j] != IntMax && dist[u] + g[u][j] < dist[j]
         then dist'[j] == dist[u] + g[u][j] && prev'[j] == u
         else dist'[j] == dist[j] && prev'[j] == prev[j]
  }

  /** The relaxation loop. */
  method Relax(g: Matrix, n: nat, u: nat, visited: seq<bool>, dist: seq<int>, prev: seq<int>)
    returns (dist': seq<int>, prev': seq<int>)
    requires Fits(g, n) && u < n && |visited| == |dist| == |prev| == n && visited[u]
    ensures RelaxedFrom(g, n, u, visited, dist, prev, dist', prev')
  {
    dist', prev' := dist, prev;
    var j := 0;
    while j < n
      invariant 0 <= j <= n && |dist'| == n && |prev'| == n
      invariant dist'[u] == dist[u]
      invariant forall k :: 0 <= k < j ==>
         if !visited[k] && g[u][k] != IntMax && dist[u] + g[u][k] < dist[k]
         then dist'[k] == dist[u] + g[u][k] && prev'[k] == u
         else dist'[k] == dist[k] && prev'[k] == prev[k]
      invariant forall k :: j <= k < n ==> dist'[k] == dist[k] && prev'[k] == prev[k]
    {
      if !visited[j] && g[u][j] != IntMax && dist'[u] + g[u][j] < dist'[j] {
        dist' := dist'[j := dist'[u] + g[u][j]];
        prev' := prev'[j := u];
      }
      j := j + 1;
    }
  }

  /** displayShortestPath's walk back along the predecessors, as the route
      it prints from the start; empty where it prints "No path exists".
      The source recurses without a bound; `fuel` stands in for it. */
  function ShortestPath(prev: seq<int>, start: nat, v: nat, fuel: nat): (p: seq<nat>)
    requires v < |prev| && forall k :: 0 <= k < |prev| ==> -1 <= prev[k] < |prev|
    ensures p != [] ==> p[0] == start && p[|p| - 1] == v && forall k :: 0 <= k < |p| ==> p[k] < |prev| || p[k] == start
    decreases fuel
  {
    if v == start then [start]
    else if fuel == 0 || prev[v] < 0 then []
    else
      var p := ShortestPath(prev, start, prev[v], fuel - 1);
      if p == [] then [] else p + [v]
  }

  /** The minutes displayShortestPath prints for each hop: the difference of
      the distances at its two ends. */
  function HopTimes(dist: seq<int>, p: seq<nat>): (ts: seq<int>)
    requires forall k :: 0 <= k < |p| ==> p[k] < |dist|
    ensures |p| >= 1 ==> |ts| == |p| - 1
  {
    if |p| <= 1 then [] else HopTimes(dist, p[..|p| - 1]) + [dist[p[|p| - 1]] - dist[p[|p| - 2]]]
  }

  /** What the route display shows for a city with a finite distance: a
      route from the start over real roads whose hop times are the road
      times and whose total is the distance. */
  ghost predicate RouteTo(g: Matrix, n: nat, dist: seq<int>, prev: seq<int>, start: nat, v: nat)
    requires Fits(g, n) && |dist| == |prev| == n && v < n
    requires forall k :: 0 <= k < n ==> -1 <= prev[k] < n
  {
    Traced(g, n, dist, start, v, ShortestPath(prev, start, v, n))
  }

  /** The loop state: distances within [0, INT_MAX] with the start at 0,
      visited cities finite, predecessors -1 or a city, and the visit order
      `rank` (n for cities not yet visited). */
  ghost predicate Basics(n: nat, start: nat, dist: seq<int>, prev: seq<int>, visited: seq<bool>,
                         rank: seq<nat>, i: nat)
  {
    && |dist| == n && |prev| == n && |visited| == n && |rank| == n && start < n && i <= n
    && (forall v :: 0 <= v < n ==> 0 <= dist[v] <= IntMax)
    && dist[start] == 0
    && (forall v :: 0 <= v < n ==> -1 <= prev[v] < n)
    && (forall v :: 0 <= v < n && visited[v] ==> rank[v] < i && dist[v] < IntMax)
    && (forall v :: 0 <= v < n && !visited[v] ==> rank[v] == n)
  }

  /** Every finite distance other than the start's is its predecessor's
      plus the road between them, the predecessor visited earlier. */
  ghost predicate Chained(g: Matrix, n: nat, start: nat, dist: seq<int>, prev: seq<int>,
                          visited: seq<bool>, rank: seq<nat>)
    requires Fits(g, n) && |dist| == |prev| == |visited| == |rank| == n
  {
    forall v :: 0 <= v < n && v != start && dist[v] < IntMax ==>
      && 0 <= prev[v] < n && visited[prev[v]] && g[prev[v]][v] != IntMax
      && dist[v] == dist[prev[v]] + g[prev[v]][v] && rank[prev[v]] < rank[v]
  }

  /** A visited city's distance is at most the weight of every route to it. */
  ghost predicate Settled(g: Matrix, n: nat, start: nat, dist: seq<int>, visited: seq<bool>)
    requires Fits(g, n) && |dist| == |visited| == n
  {
    forall v, p :: 0 <= v < n && visited[v] && IsPath(g, n, p, start, v) ==> dist[v] <= Weight(g, n, p)
  }

  /** Every road from a visited city to an unvisited one has been relaxed. */
  ghost predicate Relaxed(g: Matrix, n: nat, dist: seq<int>, visited: seq<bool>)
    requires Fits(g, n) && |dist| == |visited| == n
  {
    forall w, v :: 0 <= w < n && 0 <= v < n && visited[w] && !visited[v] && g[w][v] != IntMax ==>
      dist[v] <= dist[w] + g[w][v]
  }

  /** The first city of a route that is not yet visited. */
  lemma FirstUnvisited(visited: seq<bool>, p: seq<nat>) returns (k: nat)
    requires |p| >= 1 && OnCities(p, |visited|) && !visited[p[|p| - 1]]
    ensures k < |p| && !visited[p[k]] && forall m :: 0 <= m < k ==> visited[p[m]]
  {
    k := 0;
    while visited[p[k]]
      invariant k < |p| && forall m :: 0 <= m < k ==> visited[p[m]]
      decreases |p| - k
    {
      k := k + 1;
    }
  }

  /** Every route to an unvisited city passes an unvisited city whose
      distance is at most the route's weight: where the route first leaves
      the visited cities. */
  lemma ExitBound(g: Matrix, n: nat, start: nat, dist: seq<int>, visited: seq<bool>, p: seq<nat>, v: nat)
    returns (y: nat)
    requires Fits(g, n) && NonNegative(g, n) && |dist| == |visited| == n && start < n && dist[start] == 0
    requires Settled(g, n, start, dist, visited) && Relaxed(g, n, dist, visited)
    requires v < n && !visited[v] && IsPath(g, n, p, start, v)
    ensures y < n && !visited[y] && dist[y] <= Weight(g, n, p)
  {
    var k := FirstUnvisited(visited, p);
    WeightPrefix(g, n, p, k + 1);
    PrefixPath(g, n, p, start, v, k);
    if k == 0 {
      WeightNonNegative(g, n, p[..1]);
    } else {
      PrefixPath(g, n, p, start, v, k - 1);
      assert dist[p[k - 1]] <= Weight(g, n, p[..k]);
    }
    y := p[k];
  }

  /** The city picked next is settled: no route to it is shorter than its
      distance. */
  lemma PickSettled(g: Matrix, n: nat, start: nat, dist: seq<int>, visited: seq<bool>, u: nat)
    requires Fits(g, n) && NonNegative(g, n) && |dist| == |visited| == n && start < n && dist[start] == 0
    requires Settled(g, n, start, dist, visited) && Relaxed(g, n, dist, visited)
    requires u < n && !visited[u] && forall j :: 0 <= j < n && !visited[j] ==> dist[u] <= dist[j]
    ensures forall p :: IsPath(g, n, p, start, u) ==> dist[u] <= Weight(g, n, p)
  {
    forall p | IsPath(g, n, p, start, u) ensures dist[u] <= Weight(g, n, p) {
      var y := ExitBound(g, n, start, dist, visited, p, u);
    }
  }

  /** One round keeps the visited cities settled. */
  lemma StepSettled(g: Matrix, n: nat, start: nat, dist: seq<int>, prev: seq<int>, visited: seq<bool>,
                    u: nat, dist': seq<int>, prev': seq<int>)
    requires Fits(g, n) && NonNegative(g, n) && |dist| == |prev| == |visited| == n && start < n && dist[start] == 0
    requires Settled(g, n, start, dist, visited) && Relaxed(g, n, dist, visited)
    requires u < n && !visited[u] && forall j :: 0 <= j < n && !visited[j] ==> dist[u] <= dist[j]
    requires RelaxedFrom(g, n, u, visited[u := true], dist, prev, dist', prev')
    ensures Settled(g, n, start, dist', visited[u := true])
  {
    PickSettled(g, n, start, dist, visited, u);
    var visited' := visited[u := true];
    forall v, p | 0 <= v < n && visited'[v] && IsPath(g, n, p, start, v) ensures dist'[v] <= Weight(g, n, p) {
      assert dist'[v] == dist[v];
    }
  }

  /** One round leaves every road out of a visited city relaxed. */
  lemma StepRelaxed(g: Matrix, n: nat, dist: seq<int>, prev: seq<int>, visited: seq<bool>,
                    u: nat, dist': seq<int>, prev': seq<int>)
    requires Fits(g, n) && |dist| == |prev| == |visited| == n
    requires Relaxed(g, n, dist, visited)
    requires u < n && !visited[u]
    requires RelaxedFrom(g, n, u, visited[u := true], dist, prev, dist', prev')
    ensures Relaxed(g, n, dist', visited[u := true])
  {
    var visited' := visited[u := true];
    forall w, v | 0 <= w < n && 0 <= v < n && visited'[w] && !visited'[v] && g[w][v] != IntMax
      ensures dist'[v] <= dist'[w] + g[w][v]
    {
      assert dist'[w] == dist[w];
    }
  }

  /** One round keeps the bounds and the predecessor chain. */
  lemma StepChained(g: Matrix, n: nat, start: nat, dist: seq<int>, prev: seq<int>, visited: seq<bool>,
                    rank: seq<nat>, i: nat, u: nat, dist': seq<int>, prev': seq<int>)
    requires Fits(g, n) && NonNegative(g, n) && i < n
    requires Basics(n, start, dist, prev, visited, rank, i) && Chained(g, n, start, dist, prev, visited, rank)
    requires u < n && !visited[u] && dist[u] < IntMax
    requires RelaxedFrom(g, n, u, visited[u := true], dist, prev, dist', prev')
    ensures Basics(n, start, dist', prev', visited[u := true], rank[u := i], i + 1)
    ensures Chained(g, n, start, dist', prev', visited[u := true], rank[u := i])
  {
    StepBasics(g, n, start, dist, prev, visited, rank, i, u, dist', prev');
    var visited', rank' := visited[u := true], rank[u := i];
    forall v | 0 <= v < n && v != start && dist'[v] < IntMax
      ensures && 0 <= prev'[v] < n && visited'[prev'[v]] && g[prev'[v]][v] != IntMax
              && dist'[v] == dist'[prev'[v]] + g[prev'[v]][v] && rank'[prev'[v]] < rank'[v]
    {
      StepChainedAt(g, n, start, dist, prev, visited, rank, i, u, dist', prev', v);
    }
  }

  lemma StepBasics(g: Matrix, n: nat, start: nat, dist: seq<int>, prev: seq<int>, visited: seq<bool>,
                   rank: seq<nat>, i: nat, u: nat, dist': seq<int>, prev': seq<int>)
    requires Fits(g, n) && NonNegative(g, n) && i < n
    requires Basics(n, start, dist, prev, visited, rank, i)
    requires u < n && !visited[u] && dist[u] < IntMax
    requires RelaxedFrom(g, n, u, visited[u := true], dist, prev, dist', prev')
    ensures Basics(n, start, dist', prev', visited[u := true], rank[u := i], i + 1)
  {
  }

  /** The predecessor link of one city after the round. */
  lemma StepChainedAt(g: Matrix, n: nat, start: nat, dist: seq<int>, prev: seq<int>, visited: seq<bool>,
                      rank: seq<nat>, i: nat, u: nat, dist': seq<int>, prev': seq<int>, v: nat)
    requires Fits(g, n) && NonNegative(g, n) && i < n
    requires Basics(n, start, dist, prev, visited, rank, i) && Chained(g, n, start, dist, prev, visited, rank)
    requires u < n && !visited[u] && dist[u] < IntMax
    requires RelaxedFrom(g, n, u, visited[u := true], dist, prev, dist', prev')
    requires Basics(n, start, dist', prev', visited[u := true], rank[u := i], i + 1)
    requires v < n && v != start && dist'[v] < IntMax
    ensures var visited', rank' := visited[u := true], rank[u := i];
      && 0 <= prev'[v] < n && visited'[prev'[v]] && g[prev'[v]][v] != IntMax
      && dist'[v] == dist'[prev'[v]] + g[prev'[v]][v] && rank'[prev'[v]] < rank'[v]
  {
    if prev'[v] != prev[v] || dist'[v] != dist[v] {
      assert prev'[v] == u && dist'[u] == dist[u];
    } else {
      assert visited[prev[v]] && prev[v] != u;
    }
  }

  /** Following the predecessors from a city with a finite distance reaches
      the start within the city's rank, along roads whose times add up to
      the distance hop by hop. */
  lemma {:induction false} ChainPath(g: Matrix, n: nat, start: nat, dist: seq<int>, prev: seq<int>,
                                     visited: seq<bool>, rank: seq<nat>, i: nat, v: nat, fuel: nat)
    requires Fits(g, n) && Basics(n, start, dist, prev, visited, rank, i)
    requires Chained(g, n, start, dist, prev, visited, rank)
    requires v < n && dist[v] < IntMax && rank[v] <= fuel
    ensures Traced(g, n, dist, start, v, ShortestPath(prev, start, v, fuel))
    decreases fuel
  {
    if v != start {
      ChainPath(g, n, start, dist, prev, visited, rank, i, prev[v], fuel - 1);
      ChainLink(g, n, start, dist, prev, visited, rank, i, v, fuel);
    } else {
      TracedStart(g, n, dist, start);
    }
  }

  /** The start alone is a route of weight 0. */
  lemma TracedStart(g: Matrix, n: nat, dist: seq<int>, start: nat)
    requires Fits(g, n) && |dist| == n && start < n && dist[start] == 0
    ensures Traced(g, n, dist, start, start, [start])
  {
  }

  /** One more hop: the route to the predecessor, extended by the road to v. */
  lemma ChainLink(g: Matrix, n: nat, start: nat, dist: seq<int>, prev: seq<int>,
                  visited: seq<bool>, rank: seq<nat>, i: nat, v: nat, fuel: nat)
    requires Fits(g, n) && Basics(n, start, dist, prev, visited, rank, i)
    requires Chained(g, n, start, dist, prev, visited, rank)
    requires v < n && v != start && dist[v] < IntMax && rank[v] <= fuel
    requires 0 <= prev[v] < n && Traced(g, n, dist, start, prev[v], ShortestPath(prev, start, prev[v], fuel - 1))
    ensures Traced(g, n, dist, start, v, ShortestPath(prev, start, v, fuel))
  {
    var u := prev[v];
    var q := ShortestPath(prev, start, u, fuel - 1);
    assert ShortestPath(prev, start, v, fuel) == q + [v];
    ExtendTraced(g, n, dist, start, u, v, q);
  }

  /** `p` is a route from `s` to `v` weighing `dist[v]` whose printed hop
      times are its road times. */
  ghost predicate Traced(g: Matrix, n: nat, dist: seq<int>, s: nat, v: nat, p: seq<nat>)
    requires Fits(g, n) && |dist| == n
  {
    && IsPath(g, n, p, s, v) && Weight(g, n, p) == dist[v]
    && HopTimes(dist, p) == EdgeTimes(g, n, p)
  }

  lemma ExtendTraced(g: Matrix, n: nat, dist: seq<int>, s: nat, u: nat, v: nat, q: seq<nat>)
    requires Fits(g, n) && |dist| == n && u < n && v < n
    requires Traced(g, n, dist, s, u, q)
    requires g[u][v] != IntMax && dist[v] == dist[u] + g[u][v]
    ensures Traced(g, n, dist, s, v, q + [v])
  {
    var p := q + [v];
    assert p[..|p| - 1] == q;
  }

  predicate Distinct(s: seq<nat>)
  {
    forall a, b :: 0 <= a < b < |s| ==> s[a] != s[b]
  }

  /** As many distinct elements of a finite set as it has members are all
      of its members. */
  lemma {:induction false} Covering(s: seq<nat>, S: set<nat>)
    requires Distinct(s) && (forall k :: 0 <= k < |s| ==> s[k] in S) && |s| >= |S|
    ensures forall x :: x in S ==> x in s
  {
    if s != [] {
      var S' := S - {s[0]};
      assert |S'| == |S| - 1;
      assert forall k :: 0 <= k < |s[1..]| ==> s[1..][k] == s[k + 1];
      Covering(s[1..], S');
      forall x | x in S ensures x in s {
        if x != s[0] {
          assert x in s[1..];
        }
      }
    }
  }

  /** The cities 0 .. n-1. */
  function Range(n: nat): (r: set<nat>)
    ensures forall x: nat :: x in r <==> x < n
    ensures |r| == n
  {
    if n == 0 then {} else Range(n - 1) + {n - 1}
  }

  /** Every city at a finite distance has the route its predecessors trace. */
  lemma AllRoutes(g: Matrix, n: nat, start: nat, dist: seq<int>, prev: seq<int>,
                  visited: seq<bool>, rank: seq<nat>, i: nat)
    requires Fits(g, n) && Basics(n, start, dist, prev, visited, rank, i)
    requires Chained(g, n, start, dist, prev, visited, rank)
    ensures forall v :: 0 <= v < n && dist[v] < IntMax ==> RouteTo(g, n, dist, prev, start, v)
  {
    forall v | 0 <= v < n && dist[v] < IntMax ensures RouteTo(g, n, dist, prev, start, v) {
      ChainPath(g, n, start, dist, prev, visited, rank, i, v, n);
    }
  }

  /** Visiting one more city extends the visiting order by it. */
  lemma OrderStep(n: nat, visited: seq<bool>, order: seq<nat>, u: nat)
    requires |visited| == n && u < n && !visited[u]
    requires Distinct(order) && OnCities(order, n)
    requires forall v :: 0 <= v < n ==> (visited[v] <==> v in order)
    ensures Distinct(order + [u]) && OnCities(order + [u], n)
    ensures forall v :: 0 <= v < n ==> (visited[u := true][v] <==> v in order + [u])
  {
    assert u !in order;
  }

  /** After `n` rounds that each visit a new city, every city is visited. */
  lemma AllVisited(n: nat, visited: seq<bool>, order: seq<nat>)
    requires |visited| == n && |order| == n && Distinct(order) && OnCities(order, n)
    requires forall v :: 0 <= v < n ==> (visited[v] <==> v in order)
    ensures forall v :: 0 <= v < n ==> visited[v]
  {
    Covering(order, Range(n));
  }

  /** When the loop ends every city is settled: the unvisited ones are at
      INT_MAX and every route to them weighs at least that much. */
  lemma AllSettled(g: Matrix, n: nat, start: nat, dist: seq<int>, visited: seq<bool>)
    requires Fits(g, n) && NonNegative(g, n) && |dist| == |visited| == n && start < n && dist[start] == 0
    requires forall v :: 0 <= v < n ==> dist[v] <= IntMax
    requires Settled(g, n, start, dist, visited) && Relaxed(g, n, dist, visited)
    requires forall j :: 0 <= j < n && !visited[j] ==> dist[j] >= IntMax
    ensures forall v, p :: 0 <= v < n && IsPath(g, n, p, start, v) ==> dist[v] <= Weight(g, n, p)
  {
    forall v, p | 0 <= v < n && IsPath(g, n, p, start, v) ensures dist[v] <= Weight(g, n, p) {
      if !visited[v] {
        var y := ExitBound(g, n, start, dist, visited, p, v);
      }
    }
  }

  /** The distance computation of dijkstra once both cities are known:
      every final distance is at most the weight of every route from the
      start, and a finite one is the weight of the route the predecessors
      trace, so it is the shortest travel time; INT_MAX means no route
      weighs less than INT_MAX. */
  method ShortestDistances(g: Matrix, n: nat, start: nat) returns (dist: seq<int>, prev: seq<int>)
    requires Fits(g, n) && NonNegative(g, n) && start < n
    ensures |dist| == n && |prev| == n && forall v :: 0 <= v < n ==> -1 <= prev[v] < n
    ensures dist[start] == 0 && forall v :: 0 <= v < n ==> 0 <= dist[v] <= IntMax
    ensures forall v, p :: 0 <= v < n && IsPath(g, n, p, start, v) ==> dist[v] <= Weight(g, n, p)
    ensures forall v :: 0 <= v < n && dist[v] < IntMax ==> RouteTo(g, n, dist, prev, start, v)
  {
    dist := seq(n, _ => IntMax)[start := 0];
    prev := seq(n, _ => -1);
    var visited := seq(n, _ => false);
    ghost var rank: seq<nat> := seq(n, _ => n);
    ghost var order: seq<nat> := [];
    var i := 0;
    var done := false;
    while i < n && !done
      decreases n - i, !done
      invariant Basics(n, start, dist, prev, visited, rank, i)
      invariant Chained(g, n, start, dist, prev, visited, rank)
      invariant Settled(g, n, start, dist, visited) && Relaxed(g, n, dist, visited)
      invariant |order| == i && Distinct(order) && OnCities(order, n)
      invariant forall v :: 0 <= v < n ==> (visited[v] <==> v in order)
      invariant done ==> forall j :: 0 <= j < n && !visited[j] ==> dist[j] >= IntMax
    {
      var u := SelectMin(dist, visited);
      if u == -1 {
        done := true;
      } else {
        var visited' := visited[u := true];
        var dist', prev' := Relax(g, n, u, visited', dist, prev);
        StepSettled(g, n, start, dist, prev, visited, u, dist', prev');
        StepRelaxed(g, n, dist, prev, visited, u, dist', prev');
        StepChained(g, n, start, dist, prev, visited, rank, i, u, dist', prev');
        OrderStep(n, visited, order, u);
        visited, dist, prev := visited', dist', prev';
        rank := rank[u := i];
        order := order + [u];
        i := i + 1;
      }
    }
    if !done {
      AllVisited(n, visited, order);
    }
    AllSettled(g, n, start, dist, visited);
    AllRoutes(g, n, start, dist, prev, visited, rank, i);
  }

  /** What dijkstra reports: unknown city names (either or both), no route,
      or the route with its per-hop minutes and total travel time. */
  datatype Trip =
    | Unknown(startMissing: bool, endMissing: bool)
    | NoPath
    | Route(cities: seq<nat>, minutes: seq<int>, total: int)

  /** dijkstra: look both names up; with both known, run the distance
      computation and report the route the predecessors trace. The route
      reported is a shortest one, and "no path" means no route weighs less
      than INT_MAX. */
  method Dijkstra(net: Network, startCity: string, endCity: string) returns (t: Trip)
    requires Valid(net) && NonNegative(net.graph, |net.names|)
    ensures var s, e := FindCityIndex(net.names, startCity), FindCityIndex(net.names, endCity);
      && (t.Unknown? <==> s == -1 || e == -1)
      && (t.Unknown? ==> t.startMissing == (s == -1) && t.endMissing == (e == -1))
      && (t.NoPath? ==> forall p :: IsPath(net.graph, |net.names|, p, s, e) ==>
            Weight(net.graph, |net.names|, p) >= IntMax)
      && (t.Route? ==>
            && IsPath(net.graph, |net.names|, t.cities, s, e)
            && t.total == Weight(net.graph, |net.names|, t.cities) < IntMax
            && t.minutes == EdgeTimes(net.graph, |net.names|, t.cities)
            && forall p :: IsPath(net.graph, |net.names|, p, s, e) ==>
                 t.total <= Weight(net.graph, |net.names|, p))
  {
    var n := |net.names|;
    var s := FindCityIndex(net.names, startCity);
    var e := FindCityIndex(net.names, endCity);
    if s == -1 || e == -1 {
      return Unknown(s == -1, e == -1);
    }
    var dist, prev := ShortestDistances(net.graph, n, s);
    if dist[e] == IntMax {
      return NoPath;
    }
    var route := ShortestPath(prev, s, e, n);
    t := Route(route, HopTimes(dist, route), dist[e]);
  }
}
