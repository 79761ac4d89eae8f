/** The MP3 player's playlist: a doubly linked list of song names and the
    cursor that the next / previous / quit commands move along it. Nodes
    live in an arena (a sequence indexed by node), and the `next` and `prev`
    links are arena indices, `None` standing for NULL. */
module Mp3Player {
  import opened Bytes

  /** A song name is copied into a 256-byte buffer, NUL included. */
  const NameCapacity := 256

  datatype SongNode = SongNode(songName: string, next: Option<nat>, prev: Option<nat>)

  /** The arena of allocated nodes and the head pointer. */
  datatype Playlist = Playlist(nodes: seq<SongNode>, head: Option<nat>)

  /** The shape every playlist built by initializePlaylist and addSong has:
      the nodes are linked in allocation order, the head is the first node,
      and the list is empty exactly when the head is NULL. */
  ghost predicate Chain(p: Playlist)
  {
    && (p.head == None <==> |p.nodes| == 0)
    && (|p.nodes| > 0 ==> p.head == Some(0))
    && forall k :: 0 <= k < |p.nodes| ==>
         && p.nodes[k].next == (if k + 1 < |p.nodes| then Some(k + 1) else None)
         && p.nodes[k].prev == (if k > 0 then Some(k - 1) else None)
  }

  /** The song names of the arena, in allocation order. */
  function Names(p: Playlist): (r: seq<string>)
    ensures |r| == |p.nodes|
  {
    seq(|p.nodes|, k requires 0 <= k < |p.nodes| => p.nodes[k].songName)
  }

  /** Walking the `next` links from `at`, as displayPlaylist does, for at
      most `fuel` nodes. */
  function Walk(p: Playlist, at: Option<nat>, fuel: nat): (r: seq<string>)
    ensures |r| <= fuel
    decreases fuel
  {
    if fuel == 0 || at == None || at.value >= |p.nodes| then []
    else [p.nodes[at.value].songName] + Walk(p, p.nodes[at.value].next, fuel - 1)
  }

  /** initializePlaylist: the head is NULL. */
  function InitializePlaylist(): (p: Playlist)
    ensures Chain(p) && Names(p) == [] && p.head == None
  {
    Playlist([], None)
  }

  /** addSong. `mallocOk` is whether malloc succeeded; when it does not,
      the playlist is left as it was. Otherwise the new node goes after the
      tail, found by following `next` from the head. */
  method AddSong(p: Playlist, songName: string, mallocOk: bool) returns (r: Playlist)
    requires Chain(p) && FitsBuffer(songName, NameCapacity)
    ensures Chain(r)
    ensures !mallocOk ==> r == p
    ensures mallocOk ==> Names(r) == Names(p) + [songName]
    ensures p.head != None ==> r.head == p.head
  {
    if !mallocOk {
      return p;
    }
    var n := |p.nodes|;
    var song := SongNode(songName, None, None);
    if p.head == None {
      r := Playlist([song], Some(n));
      return;
    }
    var temp := p.head.value;
    // every node the walk has passed has a successor, so the tail lies ahead
    while p.nodes[temp].next != None
      invariant temp < n
      invariant forall k :: 0 <= k < temp ==> p.nodes[k].next != None
      decreases n - temp
    {
      temp := p.nodes[temp].next.value;
    }
    assert temp == n - 1;
    var tail := p.nodes[temp];
    r := Playlist(p.nodes[temp := tail.(next := Some(n))] + [song.(prev := Some(temp))], p.head);
    assert Names(r) == Names(p) + [songName];
  }

  /** The links agree with each other: b follows a exactly when a precedes
      b, the head has no predecessor and the tail no successor. */
  lemma LinksConsistent(p: Playlist)
    requires Chain(p)
    ensures forall a, b :: 0 <= a < |p.nodes| && 0 <= b < |p.nodes| ==>
      (p.nodes[a].next == Some(b) <==> p.nodes[b].prev == Some(a))
    ensures p.head != None ==> p.head.value < |p.nodes| && p.nodes[p.head.value].prev == None
    ensures |p.nodes| > 0 ==> p.nodes[|p.nodes| - 1].next == None
  {
    forall a, b | 0 <= a < |p.nodes| && 0 <= b < |p.nodes|
      ensures p.nodes[a].next == Some(b) <==> p.nodes[b].prev == Some(a)
    {
      assert p.nodes[a].next == Some(b) <==> b == a + 1;
    }
  }

  /** Walking from node k visits the names from k on, in allocation order. */
  lemma {:induction false} WalkFrom(p: Playlist, k: nat)
    requires Chain(p) && k <= |p.nodes|
    ensures Walk(p, if k < |p.nodes| then Some(k) else None, |p.nodes| - k) == Names(p)[k..]
    decreases |p.nodes| - k
  {
    if k < |p.nodes| {
      WalkFrom(p, k + 1);
      assert Names(p)[k..] == [p.nodes[k].songName] + Names(p)[k + 1..];
    }
  }

  /** Walking the whole list from the head visits every name in order, so
      the allocation order is the list order. */
  lemma WalkNames(p: Playlist)
    requires Chain(p)
    ensures Walk(p, p.head, |p.nodes|) == Names(p)
  {
    WalkFrom(p, 0);
  }

  /** What one command prints. */
  datatype Event = Played(name: string) | EndReached | BeginningReached | Exited | Invalid

  /** One pass of the navigatePlaylist loop on `command`, from node `cur`:
      the new cursor and what is printed. */
  function Step(p: Playlist, cur: nat, command: string): (r: (nat, Event))
    requires Chain(p) && cur < |p.nodes|
    ensures r.0 < |p.nodes|
    ensures r.1.Played? ==> r.1.name == Names(p)[r.0]
  {
    var node := p.nodes[cur];
    if command == "n" then
      match node.next
      case Some(k) => (k, Played(p.nodes[k].songName))
      case None => (cur, EndReached)
    else if command == "p" then
      match node.prev
      case Some(k) => (k, Played(p.nodes[k].songName))
      case None => (cur, BeginningReached)
    else if command == "q" then (cur, Exited)
    else (cur, Invalid)
  }

  /** Where the cursor goes, by position: "n" advances unless at the last
      song, "p" goes back unless at the first, anything else stays. */
  function Moved(count: nat, pos: nat, command: string): nat
  {
    if command == "n" && pos + 1 < count then pos + 1
    else if command == "p" && pos > 0 then pos - 1
    else pos
  }

  /** Step moves the cursor by position, reports the ends of the list and
      plays the song it lands on. */
  lemma StepMoves(p: Playlist, cur: nat, command: string)
    requires Chain(p) && cur < |p.nodes|
    ensures Step(p, cur, command).0 == Moved(|p.nodes|, cur, command)
    ensures var e := Step(p, cur, command).1;
      && (e.Played? <==> (command == "n" || command == "p") && Moved(|p.nodes|, cur, command) != cur)
      && (e == EndReached <==> command == "n" && cur + 1 == |p.nodes|)
      && (e == BeginningReached <==> command == "p" && cur == 0)
      && (e == Exited <==> command == "q")
  {
  }

  /** navigatePlaylist over a finite command input: it stops at the first
      "q" or when the input ends. The result is the final cursor and the
      events printed. */
  function Navigate(p: Playlist, cur: nat, commands: seq<string>): (r: (nat, seq<Event>))
    requires Chain(p) && cur < |p.nodes|
    ensures r.0 < |p.nodes| && |r.1| <= |commands|
    ensures "q" in commands ==> |r.1| > 0 && r.1[|r.1| - 1] == Exited
    decreases |commands|
  {
    if commands == [] then (cur, [])
    else
      var (next, e) := Step(p, cur, commands[0]);
      if commands[0] == "q" then (cur, [e])
      else
        assert commands == [commands[0]] + commands[1..];
        var (last, rest) := Navigate(p, next, commands[1..]);
        (last, [e] + rest)
  }

  /** The cursor position after a run of commands, computed on positions
      alone. */
  function Position(count: nat, pos: nat, commands: seq<string>): nat
    decreases |commands|
  {
    if commands == [] || commands[0] == "q" then pos
    else Position(count, Moved(count, pos, commands[0]), commands[1..])
  }

  /** navigatePlaylist ends where the positional reading says. */
  lemma {:induction false} NavigatePosition(p: Playlist, cur: nat, commands: seq<string>)
    requires Chain(p) && cur < |p.nodes|
    ensures Navigate(p, cur, commands).0 == Position(|p.nodes|, cur, commands)
    decreases |commands|
  {
    if commands != [] && commands[0] != "q" {
      StepMoves(p, cur, commands[0]);
      NavigatePosition(p, Step(p, cur, commands[0]).0, commands[1..]);
    }
  }

  /** Nothing after the first "q" is read. */
  lemma {:induction false} QuitStops(p: Playlist, cur: nat, before: seq<string>, after: seq<string>)
    requires Chain(p) && cur < |p.nodes| && "q" !in before
    ensures Navigate(p, cur, before + ["q"] + after) == Navigate(p, cur, before + ["q"])
    decreases |before|
  {
    if before != [] {
      assert (before + ["q"] + after)[1..] == before[1..] + ["q"] + after;
      assert (before + ["q"])[1..] == before[1..] + ["q"];
      QuitStops(p, Step(p, cur, before[0]).0, before[1..], after);
    } else {
      assert (before + ["q"] + after)[0] == "q";
    }
  }

  /** The cursor never leaves the list: k "n" commands from position pos
      end at the last song at the latest. */
  lemma {:induction false} ForwardClamps(count: nat, pos: nat, k: nat)
    requires pos < count
    ensures Position(count, pos, seq(k, _ => "n")) == if pos + k < count then pos + k else count - 1
    decreases k
  {
    if k > 0 {
      var cs := seq(k, _ => "n");
      assert cs[0] == "n" && cs[1..] == seq(k - 1, _ => "n");
      ForwardClamps(count, Moved(count, pos, "n"), k - 1);
    }
  }
}
