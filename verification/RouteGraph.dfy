/** Building the dependency graph from the collected tables, by worker threads whose
    walks interleave. */
module RouteGraph {
  import opened Digraph
  import opened CreditGraph
  import opened CreditLoops
  import opened Fabric
  import opened RouteTables

  const MAX_SLS: nat := 32
  const MAX_THREADS: nat := 4
  const SMALL_FABRIC: nat := 100

  /** One walk: from a source FI to a destination FI on one service level. */
  datatype Item = Item(src: NodeId, dst: NodeId, sl: nat)

  /** What all walks share: the fabric, its tables, the LID of each FI and the used SLs. */
  datatype Setup = Setup(f: Fabric, t: Tables, lid: map<NodeId, Lid>, usedSLs: set<nat>)

  ghost predicate ValidSetup(s: Setup) {
    && ValidTables(s.f, s.t) && PortsListed(s.f)
    && forall d :: d in s.lid ==> IsOwner(s.f, d, s.lid[d])
  }

  ghost predicate ValidItem(s: Setup, item: Item) {
    item.src in s.lid && item.dst in s.lid && item.sl < MAX_SLS
  }

  /** The SC a walk uses at device dev with exit port x, or None where the walk
      reports an error: SL2SC at the source, SC2SC at later switches, otherwise as before. */
  function NextSc(s: Setup, item: Item, dev: NodeId, x: PortId, prev: Option<Conn>, sc: nat): Option<nat>
    requires ValidSetup(s) && ValidItem(s, item) && x in s.f.ports && (prev.Some? ==> prev.value in s.t.link)
  {
    if s.usedSLs == {} then Some(sc)
    else if dev == item.src then
      if s.f.ports[x].qos.Some? then
        assert ValidPort(s.f, x);
        Some(s.f.ports[x].qos.value.sl2sc[item.sl])
      else Some(sc)
    else if prev.None? || dev !in s.f.nodes || !s.f.nodes[dev].isSwitch then Some(sc)
    else
      assert IsCable(s.f, prev.value, s.t.link[prev.value]);
      var entry := FindNodePort(s.f, dev, s.f.ports[s.t.link[prev.value]].num);
      if entry.None? then None
      else if s.f.ports[entry.value].qos.Some? && s.f.ports[x].num in s.f.ports[entry.value].qos.value.scsc then
        assert ValidPort(s.f, entry.value);
        var table := s.f.ports[entry.value].qos.value.scsc[s.f.ports[x].num];
        if sc < |table| then Some(table[sc]) else Some(sc)
      else Some(sc)
  }

  /** The connection a walk takes out of dev, if the tables have one. */
  function NextConn(s: Setup, item: Item, dev: NodeId, prev: Option<Conn>, sc: nat): (c: Option<Conn>)
    requires ValidSetup(s) && ValidItem(s, item) && (prev.Some? ==> prev.value in s.t.link)
    ensures c.Some? ==> c.value.dev == dev && c.value in s.t.link && (dev, s.lid[item.dst]) in s.t.route
    ensures c.Some? ==> c.value.port == s.f.ports[s.t.route[(dev, s.lid[item.dst])]].num
  {
    var dlid := s.lid[item.dst];
    if (dev, dlid) !in s.t.route then None
    else
      var x := s.t.route[(dev, dlid)];
      assert OwnExit(s.f, dev, x);
      var next := NextSc(s, item, dev, x, prev, sc);
      if next.None? then None
      else
        var c := Conn(dev, s.f.ports[x].num, next.value);
        if c in s.t.link then Some(c) else None
  }

  /** Switches left to cross from dev; 0 where the walk stops. */
  ghost function Left(s: Setup, item: Item, dev: NodeId): nat
    requires ValidSetup(s) && ValidItem(s, item)
  {
    if dev == item.dst || (dev, s.lid[item.dst]) !in s.t.route then 0
    else 1 + Remaining(s.f, s.t, dev, s.lid[item.dst])
  }

  /** The device a connection leads to. */
  function FarEnd(s: Setup, c: Conn): NodeId
    requires ValidSetup(s) && c in s.t.link
  {
    assert IsCable(s.f, c, s.t.link[c]);
    s.f.ports[s.t.link[c]].node
  }

  lemma WalkAdvances(s: Setup, item: Item, c: Conn)
    requires ValidSetup(s) && ValidItem(s, item) && c.dev != item.dst
    requires c in s.t.link && (c.dev, s.lid[item.dst]) in s.t.route
    requires c.port == s.f.ports[s.t.route[(c.dev, s.lid[item.dst])]].num
    ensures Left(s, item, FarEnd(s, c)) < Left(s, item, c.dev)
  {
    NextHopCloser(s.f, s.t, s.lid[item.dst], item.dst, c);
  }

  /** The dependencies one walk adds from dev on, having come over prev on sc. */
  ghost function Trail(s: Setup, item: Item, dev: NodeId, prev: Option<Conn>, sc: nat): set<(Conn, Conn)>
    requires ValidSetup(s) && ValidItem(s, item) && (prev.Some? ==> prev.value in s.t.link)
    decreases Left(s, item, dev)
  {
    if dev == item.dst then {}
    else
      var c := NextConn(s, item, dev, prev, sc);
      if c.None? || c == prev then {}
      else
        WalkAdvances(s, item, c.value);
        (if prev.Some? then {(prev.value, c.value)} else {})
        + Trail(s, item, FarEnd(s, c.value), c, c.value.sc)
  }

  /** Every dependency of a walk joins two consecutive connections towards the
      destination: the first leads to the device that the second leaves. */
  lemma {:induction false} TrailConsecutive(s: Setup, item: Item, dev: NodeId, prev: Option<Conn>, sc: nat, d: (Conn, Conn))
    requires ValidSetup(s) && ValidItem(s, item)
    requires prev.Some? ==> prev.value in s.t.link && FarEnd(s, prev.value) == dev && Towards(s, prev.value, s.lid[item.dst])
    requires d in Trail(s, item, dev, prev, sc)
    ensures d.0 in s.t.link && d.1 in s.t.link && FarEnd(s, d.0) == d.1.dev != item.dst
    ensures Towards(s, d.0, s.lid[item.dst]) && Towards(s, d.1, s.lid[item.dst])
    decreases Left(s, item, dev)
  {
    hide ValidSetup, NextConn, FarEnd, Left;
    var c := NextConn(s, item, dev, prev, sc);
    ExitKnown(s, dev, s.lid[item.dst]);
    assert Towards(s, c.value, s.lid[item.dst]);
    if prev.None? || d != (prev.value, c.value) {
      WalkAdvances(s, item, c.value);
      TrailConsecutive(s, item, FarEnd(s, c.value), c, c.value.sc, d);
    }
  }

  lemma ExitKnown(s: Setup, dev: NodeId, dlid: Lid)
    requires ValidSetup(s) && (dev, dlid) in s.t.route
    ensures s.t.route[(dev, dlid)] in s.f.ports
  {
    assert OwnExit(s.f, dev, s.t.route[(dev, dlid)]);
  }

  /** A connection out of the port its device sends dlid through. */
  ghost predicate Towards(s: Setup, c: Conn, dlid: Lid) {
    (c.dev, dlid) in s.t.route && s.t.route[(c.dev, dlid)] in s.f.ports && s.f.ports[s.t.route[(c.dev, dlid)]].num == c.port
  }

  /** The dependencies of a whole walk. */
  ghost function ItemDeps(s: Setup, item: Item): set<(Conn, Conn)>
    requires ValidSetup(s) && ValidItem(s, item)
  {
    Trail(s, item, item.src, None, 0)
  }

  /** Enters connection c, and its dependency on the connection before it, into
      the graph.  ok is false where the graph refuses a connection that follows itself. */
  method Record(g: Graph<Conn>, prev: Option<Conn>, prevId: nat, c: Conn) returns (id: nat, ok: bool)
    requires g.Valid() && Growing(g.State())
    requires prev.Some? ==> prevId < |g.vertices| && g.vertices[prevId].conn == prev.value
    modifies g
    ensures g.Valid() && Growing(g.State())
    ensures id < |g.vertices| && g.vertices[id].conn == c
    ensures ok <==> prev != Some(c)
    ensures g.Deps() == old(g.Deps()) + (if ok && prev.Some? then {(prev.value, c)} else {})
  {
    hide CreditGraph.Deps, Growing, ValidVertex, ValidArcs;
    id := g.AddVertex(c);
    ok := true;
    if prev.Some? {
      assert ValidIds(g.State());
      var arc := g.AddArc(prevId, id);
      ok := arc != -1;
    }
  }

  lemma TrailUnfolds(s: Setup, item: Item, dev: NodeId, prev: Option<Conn>, sc: nat)
    requires ValidSetup(s) && ValidItem(s, item) && (prev.Some? ==> prev.value in s.t.link) && dev != item.dst
    ensures var c := NextConn(s, item, dev, prev, sc);
            Trail(s, item, dev, prev, sc) ==
              if c.None? || c == prev then {}
              else (if prev.Some? then {(prev.value, c.value)} else {}) + Trail(s, item, FarEnd(s, c.value), c, c.value.sc)
  {
    hide ValidSetup, NextConn, FarEnd;
  }

  /** One walk under the lock: follows the tables and enters every connection it
      takes, and every pair of consecutive ones, into the graph. */
  method Walk(s: Setup, item: Item, g: Graph<Conn>)
    requires ValidSetup(s) && ValidItem(s, item) && g.Valid() && Growing(g.State())
    modifies g
    ensures g.Valid() && Growing(g.State())
    ensures g.Deps() == old(g.Deps()) + ItemDeps(s, item)
  {
    hide ValidState, CreditGraph.Deps, Growing, ValidSetup, NextConn, Trail, FarEnd, Left;
    var dev, sc, prev := item.src, 0, None;
    var prevId: nat := 0;
    ghost var D := g.Deps();
    NothingAhead(s, item);
    while dev != item.dst
      invariant g.Valid() && Growing(g.State())
      invariant prev.Some? ==> prev.value in s.t.link && prevId < |g.vertices| && g.vertices[prevId].conn == prev.value
      invariant g.Deps() + Trail(s, item, dev, prev, sc) == D + ItemDeps(s, item)
      decreases Left(s, item, dev)
    {
      TrailUnfolds(s, item, dev, prev, sc);
      var c := NextConn(s, item, dev, prev, sc);
      if c.None? {
        return;
      }
      var id, ok := Record(g, prev, prevId, c.value);
      if !ok {
        return;
      }
      WalkAdvances(s, item, c.value);
      dev, sc, prev, prevId := FarEnd(s, c.value), c.value.sc, c, id;
    }
  }

  lemma NothingAhead(s: Setup, item: Item)
    requires ValidSetup(s) && ValidItem(s, item)
    ensures forall prev: Option<Conn>, sc: nat :: (prev.Some? ==> prev.value in s.t.link) ==> Trail(s, item, item.dst, prev, sc) == {}
  {
    hide ValidSetup;
  }

  // ---- dividing the sources among threads ----

  datatype Slice = Slice(start: nat, length: nat)

  /** The slices follow one another from 0 to n, so each source is in exactly one. */
  ghost predicate Tile(slices: seq<Slice>, n: nat) {
    if slices == [] then n == 0
    else
      var last := slices[|slices| - 1];
      last.start + last.length == n && Tile(slices[..|slices| - 1], last.start)
  }

  /** One slice below 100 sources, else four, the last taking the remainder. */
  method AssignSlices(n: nat) returns (slices: seq<Slice>)
    ensures Tile(slices, n) && 0 < |slices| <= MAX_THREADS
  {
    var share := n / MAX_THREADS;
    if n < SMALL_FABRIC {
      return [Slice(0, n)];
    }
    slices := [];
    var l, start := 0, 0;
    for h := 0 to n
      invariant |slices| < MAX_THREADS && Tile(slices, |slices| * share)
      invariant h == |slices| * share + l
      invariant |slices| < MAX_THREADS - 1 ==> l < share
      invariant l > 0 ==> start == |slices| * share
    {
      if l == 0 {
        start := h;
      }
      l := l + 1;
      if |slices| < MAX_THREADS - 1 && l >= share {
        l := 0;
        assert (slices + [Slice(start, share)])[..|slices|] == slices;
        slices := slices + [Slice(start, share)];
      }
    }
    assert (slices + [Slice(start, share + n % MAX_THREADS)])[..|slices|] == slices;
    slices := slices + [Slice(start, share + n % MAX_THREADS)];
  }

  // ---- the items of a thread ----

  /** The service levels below n that are walked: the used ones, or 0 alone. */
  function Levels(usedSLs: set<nat>, n: nat): (sls: seq<nat>)
    ensures forall sl :: sl in sls <==> sl < n && (if usedSLs == {} then sl == 0 else sl in usedSLs)
  {
    if n == 0 then []
    else if (if usedSLs == {} then n - 1 == 0 else n - 1 in usedSLs) then Levels(usedSLs, n - 1) + [n - 1]
    else Levels(usedSLs, n - 1)
  }

  function PairItems(s: Setup, src: NodeId, dst: NodeId): (items: seq<Item>)
    ensures forall x :: x in items <==> x.src == src && x.dst == dst && x.sl in Levels(s.usedSLs, MAX_SLS)
  {
    var sls := Levels(s.usedSLs, MAX_SLS);
    var items := seq(|sls|, i requires 0 <= i < |sls| => Item(src, dst, sls[i]));
    assert forall x :: x in items ==> exists i :: 0 <= i < |sls| && x == Item(src, dst, sls[i]);
    assert forall i :: 0 <= i < |sls| ==> items[i] == Item(src, dst, sls[i]);
    items
  }

  /** The walks from source i to the first n destinations. */
  function SourceItems(s: Setup, fis: seq<NodeId>, i: nat, n: nat): seq<Item>
    requires i < |fis| && n <= |fis|
  {
    if n == 0 then []
    else SourceItems(s, fis, i, n - 1) + (if n - 1 == i then [] else PairItems(s, fis[i], fis[n - 1]))
  }

  /** The walks from sources lo to hi - 1. */
  function SliceItems(s: Setup, fis: seq<NodeId>, lo: nat, hi: nat): seq<Item>
    requires lo <= hi <= |fis|
    decreases hi - lo
  {
    if lo == hi then [] else SliceItems(s, fis, lo, hi - 1) + SourceItems(s, fis, hi - 1, |fis|)
  }

  lemma {:induction false} SliceItemsJoin(s: Setup, fis: seq<NodeId>, lo: nat, mid: nat, hi: nat)
    requires lo <= mid <= hi <= |fis|
    ensures SliceItems(s, fis, lo, mid) + SliceItems(s, fis, mid, hi) == SliceItems(s, fis, lo, hi)
    decreases hi
  {
    hide SourceItems, PairItems;
    if mid < hi {
      SliceItemsJoin(s, fis, lo, mid, hi - 1);
    }
  }

  /** A walk between two different FIs on a walked service level. */
  ghost predicate Wanted(s: Setup, fis: seq<NodeId>, i: nat, n: nat, x: Item)
    requires i < |fis| && n <= |fis|
  {
    x.src == fis[i] && x.sl in Levels(s.usedSLs, MAX_SLS) && exists j :: 0 <= j < n && j != i && x.dst == fis[j]
  }

  lemma {:induction false} SourceItemsWanted(s: Setup, fis: seq<NodeId>, i: nat, n: nat, x: Item)
    requires i < |fis| && n <= |fis|
    ensures x in SourceItems(s, fis, i, n) <==> Wanted(s, fis, i, n, x)
  {
    hide Levels, PairItems;
    if n > 0 {
      SourceItemsWanted(s, fis, i, n - 1, x);
      var last := if n - 1 == i then [] else PairItems(s, fis[i], fis[n - 1]);
      assert x in last <==> n - 1 != i && x.src == fis[i] && x.dst == fis[n - 1] && x.sl in Levels(s.usedSLs, MAX_SLS);
      assert SourceItems(s, fis, i, n) == SourceItems(s, fis, i, n - 1) + last;
      hide SourceItems;
    }
  }

  /** The items are all walks between different FIs on the walked service levels. */
  lemma {:induction false} SliceItemsWanted(s: Setup, fis: seq<NodeId>, hi: nat, x: Item)
    requires hi <= |fis|
    ensures x in SliceItems(s, fis, 0, hi) <==> exists i: nat :: i < hi && Wanted(s, fis, i, |fis|, x)
  {
    hide Levels, Wanted, SourceItems, PairItems;
    if hi > 0 {
      SliceItemsWanted(s, fis, hi - 1, x);
      SourceItemsWanted(s, fis, hi - 1, |fis|, x);
    }
  }

  // ---- interleaving ----

  function Flat(threads: seq<seq<Item>>): seq<Item> {
    if threads == [] then [] else Flat(threads[..|threads| - 1]) + threads[|threads| - 1]
  }

  /** Taking the next item of thread k takes it out of the work left. */
  lemma {:induction false} TakeNext(threads: seq<seq<Item>>, k: nat)
    requires k < |threads| && threads[k] != []
    ensures multiset(Flat(threads)) == multiset(Flat(threads[k := threads[k][1..]])) + multiset{threads[k][0]}
    ensures |Flat(threads)| == |Flat(threads[k := threads[k][1..]])| + 1
  {
    var n := |threads| - 1;
    var after := threads[k := threads[k][1..]];
    assert Flat(threads) == Flat(threads[..n]) + threads[n] && Flat(after) == Flat(after[..n]) + after[n];
    if k < n {
      assert after[..n] == threads[..n][k := threads[k][1..]];
      TakeNext(threads[..n], k);
    } else {
      assert after[..n] == threads[..n];
      assert threads[n] == [threads[n][0]] + threads[n][1..];
    }
    hide Flat;
  }

  ghost predicate ValidItems(s: Setup, items: seq<Item>) {
    forall x :: x in items ==> ValidItem(s, x)
  }

  /** What a collection of walks adds to the graph, in whatever order. */
  ghost function ItemsDeps(s: Setup, items: multiset<Item>): set<(Conn, Conn)>
    requires ValidSetup(s) && forall x :: x in items ==> ValidItem(s, x)
  {
    set x, d | x in items && d in ItemDeps(s, x) :: d
  }

  lemma ItemsDepsAdd(s: Setup, items: multiset<Item>, x: Item)
    requires ValidSetup(s) && ValidItem(s, x) && forall y :: y in items ==> ValidItem(s, y)
    ensures ItemsDeps(s, items + multiset{x}) == ItemsDeps(s, items) + ItemDeps(s, x)
  {
    hide ValidSetup, ItemDeps;
  }

  /** Runs the threads in any order, one locked walk at a time: which thread goes
      next is left open, and the dependencies come out the same. */
  method RunThreads(s: Setup, threads: seq<seq<Item>>, g: Graph<Conn>)
    requires ValidSetup(s) && ValidItems(s, Flat(threads)) && g.Valid() && Growing(g.State())
    modifies g
    ensures g.Valid() && Growing(g.State())
    ensures g.Deps() == old(g.Deps()) + ItemsDeps(s, multiset(Flat(threads)))
  {
    hide ValidState, CreditGraph.Deps, Growing, ValidSetup, ItemsDeps, Flat;
    var rest := threads;
    ghost var work := multiset(Flat(threads));
    ghost var done: multiset<Item> := multiset{};
    NoItemsDeps(s);
    assert forall x :: x in work ==> ValidItem(s, x);
    while exists k :: 0 <= k < |rest| && rest[k] != []
      invariant done + multiset(Flat(rest)) == work
      invariant g.Valid() && Growing(g.State())
      invariant g.Deps() == old(g.Deps()) + ItemsDeps(s, done)
      decreases |Flat(rest)|
    {
      var k :| 0 <= k < |rest| && rest[k] != [];
      var x := rest[k][0];
      TakeNext(rest, k);
      ItemsDepsAdd(s, done, x);
      Walk(s, x, g);
      done := done + multiset{x};
      rest := rest[k := rest[k][1..]];
    }
    AllDone(rest);
    assert done == work;
  }

  lemma NoItemsDeps(s: Setup)
    requires ValidSetup(s)
    ensures ItemsDeps(s, multiset{}) == {}
  {
    hide ValidSetup;
  }

  lemma {:induction false} AllDone(threads: seq<seq<Item>>)
    requires forall k :: 0 <= k < |threads| ==> threads[k] == []
    ensures Flat(threads) == []
  {
    if threads != [] {
      AllDone(threads[..|threads| - 1]);
    }
  }

  function Threads(s: Setup, fis: seq<NodeId>, slices: seq<Slice>): seq<seq<Item>>
    requires forall k :: 0 <= k < |slices| ==> slices[k].start + slices[k].length <= |fis|
  {
    seq(|slices|, k requires 0 <= k < |slices| => SliceItems(s, fis, slices[k].start, slices[k].start + slices[k].length))
  }

  lemma {:induction false} TileBounds(slices: seq<Slice>, n: nat)
    requires Tile(slices, n)
    ensures forall k :: 0 <= k < |slices| ==> slices[k].start + slices[k].length <= n
  {
    if slices != [] {
      TileBounds(slices[..|slices| - 1], slices[|slices| - 1].start);
    }
  }

  lemma {:induction false} ThreadsCover(s: Setup, fis: seq<NodeId>, slices: seq<Slice>, n: nat)
    requires Tile(slices, n) && n <= |fis|
    requires forall k :: 0 <= k < |slices| ==> slices[k].start + slices[k].length <= |fis|
    ensures Flat(Threads(s, fis, slices)) == SliceItems(s, fis, 0, n)
  {
    hide SourceItems, PairItems;
    if slices != [] {
      var m := |slices| - 1;
      ThreadsCover(s, fis, slices[..m], slices[m].start);
      assert Threads(s, fis, slices)[..m] == Threads(s, fis, slices[..m]);
      SliceItemsJoin(s, fis, 0, slices[m].start, n);
    }
  }

  /** The whole build: slices the FIs, runs the threads, and ends with the
      dependencies of all walks between different FIs. */
  method BuildRouteGraph(s: Setup, fis: seq<NodeId>) returns (g: Graph<Conn>)
    requires ValidSetup(s) && forall i :: 0 <= i < |fis| ==> fis[i] in s.lid
    ensures fresh(g) && g.Valid() && ValidItems(s, SliceItems(s, fis, 0, |fis|))
    ensures g.Deps() == ItemsDeps(s, multiset(SliceItems(s, fis, 0, |fis|)))
  {
    hide ValidState, CreditGraph.Deps, ValidSetup, ItemsDeps;
    g := new Graph();
    var slices := AssignSlices(|fis|);
    TileBounds(slices, |fis|);
    ThreadsCover(s, fis, slices, |fis|);
    ItemsAreValid(s, fis);
    RunThreads(s, Threads(s, fis, slices), g);
  }

  /** The credit-loop validation from tables to verdict. */
  method Validate(s: Setup, fis: seq<NodeId>) returns (deadlockFree: bool, count: nat)
    requires ValidSetup(s) && forall i :: 0 <= i < |fis| ==> fis[i] in s.lid
    ensures ValidItems(s, SliceItems(s, fis, 0, |fis|))
    ensures deadlockFree <==> !HasCycle(ItemsDeps(s, multiset(SliceItems(s, fis, 0, |fis|))))
    ensures deadlockFree <==> count == 0
    ensures LoopCount(ItemsDeps(s, multiset(SliceItems(s, fis, 0, |fis|))), count)
  {
    hide ValidState, CreditGraph.Deps, ValidSetup, ItemsDeps, Pieces, IsCore, LoopCount;
    var g := BuildRouteGraph(s, fis);
    ghost var pieces;
    deadlockFree, count, pieces := Verdict(g);
  }

  lemma ItemsAreValid(s: Setup, fis: seq<NodeId>)
    requires forall i :: 0 <= i < |fis| ==> fis[i] in s.lid
    ensures ValidItems(s, SliceItems(s, fis, 0, |fis|))
  {
    hide SliceItems;
    forall x | x in SliceItems(s, fis, 0, |fis|)
      ensures ValidItem(s, x)
    {
      SliceItemsWanted(s, fis, |fis|, x);
    }
  }
}
