/** The credit-loop validation as a whole, and its verdict in terms of plain forwarding:
    which pairs of connections packets really use one after the other. */
module RouteVerdict {
  import opened Digraph
  import opened Fabric
  import opened RouteWalk
  import opened RouteTables
  import opened RouteGraph
  import SC = ScClosure

  /** Packets sent from an FI port to a LID on one service level. */
  datatype Flow = Flow(f: Fabric, start: PortId, dlid: Lid, usedSLs: set<nat>, sl: nat) {
    ghost predicate Valid() {
      Startable(f, start) && !IsSwitch(f, start) && sl < 32
    }

    /** The port they leave through after crossing n switches; port 0 of a switch is
        where they arrive. */
    ghost function ExitAt(n: nat): (x: Option<PortId>)
      requires Valid()
      ensures x.Some? ==> x.value in f.ports
    {
      if n == 0 then Some(start)
      else
        var p := At(f, start, dlid, n - 1);
        if p.None? || !Transit(f, p.value, n - 1) then None
        else
          var x := Exit(f, p.value, dlid);
          if x.Some? && f.ports[x.value].num == 0 then None else x
    }

    /** The SC they leave on: SL2SC at the start, then SC2SC at every switch that has
        a table; SC 0 if service levels are not looked at. */
    ghost function ScAt(n: nat): nat
      requires Valid()
    {
      if usedSLs == {} then 0
      else if n == 0 then StartSc(f, start, sl)
      else
        var sc, p, x := ScAt(n - 1), At(f, start, dlid, n - 1), ExitAt(n);
        if p.None? || x.None? then sc else SwitchSc(f, p.value, x.value, sc)
    }

    /** They get as far as leaving after n switches: no device dropped them for being on
        SC 15. */
    ghost predicate Live(n: nat)
      requires Valid()
    {
      ExitAt(n).Some? && ScAt(n) != INVALID_SC && (n > 0 ==> Live(n - 1))
    }

    ghost function ConnAt(n: nat): Conn
      requires Valid() && ExitAt(n).Some?
    {
      Conn(f.ports[ExitAt(n).value].node, f.ports[ExitAt(n).value].num, ScAt(n))
    }

    /** The device they leave after crossing n switches. */
    ghost function DevAt(n: nat): NodeId
      requires Valid()
    {
      if n == 0 then f.ports[start].node
      else if At(f, start, dlid, n - 1).Some? then f.ports[At(f, start, dlid, n - 1).value].node
      else 0
    }

    ghost predicate Crosses(n: nat)
      requires Valid()
    {
      Live(n) && Live(n + 1)
    }

    ghost function DepAt(n: nat): (Conn, Conn)
      requires Valid() && Crosses(n)
    {
      (ConnAt(n), ConnAt(n + 1))
    }

    /** The dependencies from switch lo on, within the hop limit. */
    ghost function DepsFrom(lo: nat): set<(Conn, Conn)>
      requires Valid()
    {
      set n: nat | lo <= n < MAX_HOPS && Crosses(n) :: DepAt(n)
    }

    /** Every pair of connections the packets use one after the other. */
    ghost function Deps(): set<(Conn, Conn)>
      requires Valid()
    {
      DepsFrom(0)
    }

    /** Every hop has connections for the SC the packets are on. */
    ghost predicate Covered(usedSCs: seq<nat>)
      requires Valid()
    {
      forall n: nat :: Live(n) ==> ScAt(n) in HopScs(f, ExitAt(n).value, usedSCs)
    }
  }

  ghost function StartSc(f: Fabric, p: PortId, sl: nat): nat
    requires ValidFabric(f) && p in f.ports && sl < 32
  {
    assert ValidPort(f, p);
    if f.ports[p].qos.Some? then f.ports[p].qos.value.sl2sc[sl] else 0
  }

  ghost function SwitchSc(f: Fabric, p: PortId, x: PortId, sc: nat): nat
    requires p in f.ports && x in f.ports
  {
    if f.ports[p].qos.Some? && f.ports[x].num in f.ports[p].qos.value.scsc then
      var table := f.ports[p].qos.value.scsc[f.ports[x].num];
      if sc < |table| then table[sc] else sc
    else sc
  }

  // ---- a trace is what forwarding does ----

  lemma {:induction false} TraceForwards(w: Flow, trace: seq<Hop>, i: nat)
    requires w.Valid() && IsRoute(w.f, w.start, w.dlid, trace) && i < |trace| - 1
    ensures w.ExitAt(i) == trace[i].exit && At(w.f, w.start, w.dlid, i) == trace[i + 1].entry
    ensures trace[i].exit.Some? && trace[i + 1].entry.Some? && w.ExitAt(i).Some?
    ensures trace[i].exit.value in w.f.ports && trace[i + 1].entry.value in w.f.ports
    ensures w.f.ports[trace[i].exit.value].neighbor == trace[i + 1].entry
    ensures i > 0 ==> trace[i].entry.Some? && trace[i].entry.value in w.f.ports && IsSwitch(w.f, trace[i].entry.value)
                      && w.f.ports[trace[i].entry.value].node == w.f.ports[trace[i].exit.value].node
  {
    assert HopInDevice(w.f, trace[i]) && HopInDevice(w.f, trace[i + 1]);
    var x := trace[i].exit.value;
    assert ValidPort(w.f, x);
    if i > 0 {
      TraceForwards(w, trace, i - 1);
      var p := trace[i].entry.value;
      assert ValidPort(w.f, p) && ValidPort(w.f, trace[i - 1].exit.value);
      assert Exit(w.f, p, w.dlid) == Some(x);
      assert Transit(w.f, p, i - 1);
    }
  }

  lemma {:induction false} NothingAfter(w: Flow, m: nat, n: nat)
    requires w.Valid() && m <= n && m > 0 && At(w.f, w.start, w.dlid, m - 1).Some?
    requires !Transit(w.f, At(w.f, w.start, w.dlid, m - 1).value, m - 1)
    ensures w.ExitAt(n) == None && At(w.f, w.start, w.dlid, n) == None
  {
    if m < n {
      NothingAfter(w, m, n - 1);
    }
  }

  lemma TraceEnd(w: Flow, trace: seq<Hop>, dest: PortId)
    requires w.Valid() && IsRoute(w.f, w.start, w.dlid, trace) && EndsAt(trace, dest)
    ensures |trace| > 1 && dest in w.f.ports && !IsSwitch(w.f, dest)
    ensures At(w.f, w.start, w.dlid, |trace| - 2) == Some(dest)
  {
    RouteNotEmpty(w.f, w.start, w.dlid, trace);
    TraceForwards(w, trace, |trace| - 2);
  }

  /** A delivered trace of m cables crosses m - 1 switches, within the hop limit. */
  lemma TraceLength(w: Flow, trace: seq<Hop>, dest: PortId)
    requires w.Valid() && IsRoute(w.f, w.start, w.dlid, trace) && EndsAt(trace, dest) && Delivered(w.f, w.start, w.dlid, 0)
    ensures 1 <= |trace| - 1 <= MAX_HOPS + 1
    ensures dest in w.f.ports && !IsSwitch(w.f, dest)
    ensures At(w.f, w.start, w.dlid, |trace| - 2) == Some(dest)
    ensures forall n: nat :: n >= |trace| - 1 ==> w.ExitAt(n) == None
  {
    hide Delivered, ValidFabric, At, IsRoute, Flow.ExitAt;
    TraceEnd(w, trace, dest);
    var m := |trace| - 1;
    OnlyHere(w.f, w.start, w.dlid, 0, m - 1);
    WithinLimit(w, m - 1);
    forall n: nat | n >= m
      ensures w.ExitAt(n) == None
    {
      NothingAfter(w, m, n);
    }
  }

  lemma WithinLimit(w: Flow, n: nat)
    requires w.Valid() && Delivered(w.f, w.start, w.dlid, 0) && forall k :: Arrives(w.f, w.start, w.dlid, k) ==> k == n
    ensures n <= MAX_HOPS
  {
    hide Arrives, ValidFabric;
    var k: nat :| k <= MAX_HOPS && DeliveredAt(w.f, w.start, w.dlid, 0, k);
  }

  // ---- a walk over the tables follows forwarding ----

  /** The walk of an item over tables that hold the whole trace of its flow. */
  ghost predicate Track(s: Setup, item: Item, w: Flow, trace: seq<Hop>, dest: PortId) {
    && ValidSetup(s) && ValidItem(s, item)
    && w == Flow(s.f, w.start, s.lid[item.dst], s.usedSLs, item.sl) && w.Valid()
    && IsRoute(w.f, w.start, w.dlid, trace) && EndsAt(trace, dest) && Delivered(w.f, w.start, w.dlid, 0)
    && dest in s.f.ports && !IsSwitch(s.f, dest)
    && s.f.ports[w.start].node == item.src != item.dst && s.f.ports[dest].node == item.dst
  }

  ghost predicate Taken(s: Setup, w: Flow, trace: seq<Hop>) {
    forall i: nat :: i < |trace| - 1 ==> HopTaken(s, w, trace, i)
  }

  ghost predicate HopTaken(s: Setup, w: Flow, trace: seq<Hop>, i: nat)
    requires i < |trace| - 1
  {
    Joined(s.f, trace, i) && var x := trace[i].exit.value; (s.f.ports[x].node, w.dlid) in s.t.route && s.t.route[(s.f.ports[x].node, w.dlid)] == x
  }

  /** Where a walk stands that has taken the first k cables. */
  ghost predicate StandsAt(s: Setup, w: Flow, k: nat, prev: Option<Conn>, sc: nat)
    requires w.Valid()
  {
    if k == 0 then prev == None && sc == 0
    else w.Live(k - 1) && prev == Some(w.ConnAt(k - 1)) && w.ConnAt(k - 1) in s.t.link && sc == w.ScAt(k - 1)
  }

  /** The devices of a trace: the source, switches, the destination. */
  lemma DevicesOnTrace(s: Setup, item: Item, w: Flow, trace: seq<Hop>, dest: PortId, k: nat)
    requires Track(s, item, w, trace, dest) && k <= |trace| - 1
    ensures k < |trace| - 1 ==> w.ExitAt(k).Some? && w.f.ports[w.ExitAt(k).value].node == w.DevAt(k) != item.dst
    ensures k == |trace| - 1 ==> w.DevAt(k) == item.dst
    ensures 0 < k < |trace| - 1 ==> w.DevAt(k) != item.src && w.DevAt(k) in w.f.nodes && w.f.nodes[w.DevAt(k)].isSwitch
    ensures 0 < k ==> At(w.f, w.start, w.dlid, k - 1).Some? && w.ExitAt(k - 1).Some?
                      && w.f.ports[w.ExitAt(k - 1).value].neighbor == At(w.f, w.start, w.dlid, k - 1)
  {
    TraceLength(w, trace, dest);
    if k < |trace| - 1 {
      TraceForwards(w, trace, k);
    }
    if k > 0 {
      TraceForwards(w, trace, k - 1);
    }
    hide At, IsRoute, Delivered, ValidSetup;
    assert ValidPort(w.f, w.start) && ValidPort(w.f, dest);
  }

  /** The port entered is the one the walk looks up from the connection before. */
  lemma EntryIs(s: Setup, item: Item, w: Flow, trace: seq<Hop>, dest: PortId, k: nat)
    requires w.Valid() && w.f == s.f && w.ExitAt(k).Some? && w.ConnAt(k) in s.t.link
    requires Track(s, item, w, trace, dest) && k + 1 < |trace| - 1
    ensures var p := At(w.f, w.start, w.dlid, k);
            p.Some? && s.t.link[w.ConnAt(k)] == p.value
            && w.DevAt(k + 1) in s.f.nodes && FindNodePort(s.f, w.DevAt(k + 1), s.f.ports[p.value].num) == p
  {
    DevicesOnTrace(s, item, w, trace, dest, k + 1);
    hide IsRoute, Delivered;
    var p := At(w.f, w.start, w.dlid, k).value;
    LinkFits(s.f, s.t, w.ExitAt(k).value, p, w.ScAt(k));
  }

  /** At each device the walk picks the SC the packets are on. */
  lemma NextScIs(s: Setup, item: Item, w: Flow, trace: seq<Hop>, dest: PortId, k: nat, prev: Option<Conn>, sc: nat)
    requires Track(s, item, w, trace, dest) && k < |trace| - 1 && StandsAt(s, w, k, prev, sc)
    ensures w.ExitAt(k).Some?
    ensures NextSc(s, item, w.DevAt(k), w.ExitAt(k).value, prev, sc) == Some(w.ScAt(k))
  {
    hide IsRoute, Delivered, ValidFabric, ValidSetup, At;
    DevicesOnTrace(s, item, w, trace, dest, k);
    if k > 0 {
      EntryIs(s, item, w, trace, dest, k - 1);
    }
  }

  /** It takes the next cable of the trace if there is a connection for that SC, and
      then stands one cable further. */
  lemma NextConnIs(s: Setup, item: Item, w: Flow, trace: seq<Hop>, dest: PortId, k: nat, prev: Option<Conn>, sc: nat)
    requires Track(s, item, w, trace, dest) && Taken(s, w, trace) && k < |trace| - 1 && StandsAt(s, w, k, prev, sc)
    ensures w.ExitAt(k).Some? && w.DevAt(k) != item.dst
    ensures NextConn(s, item, w.DevAt(k), prev, sc) == if w.ConnAt(k) in s.t.link then Some(w.ConnAt(k)) else None
    ensures w.ConnAt(k) in s.t.link ==> FarEnd(s, w.ConnAt(k)) == w.DevAt(k + 1)
    ensures w.ConnAt(k).dev == w.DevAt(k)
  {
    NextScIs(s, item, w, trace, dest, k, prev, sc);
    DevicesOnTrace(s, item, w, trace, dest, k);
    DevicesOnTrace(s, item, w, trace, dest, k + 1);
    TraceForwards(w, trace, k);
    assert HopTaken(s, w, trace, k);
    var x := w.ExitAt(k).value;
    LinkFits(s.f, s.t, x, At(w.f, w.start, w.dlid, k).value, w.ScAt(k));
    hide IsRoute, Delivered, NextSc, At;
  }

  /** No walk takes the same connection twice in a row. */
  lemma NoRepeat(s: Setup, item: Item, w: Flow, trace: seq<Hop>, dest: PortId, k: nat)
    requires w.Valid() && w.ExitAt(k).Some? && w.ExitAt(k + 1).Some? && w.ConnAt(k) in s.t.link
    requires Track(s, item, w, trace, dest) && Taken(s, w, trace) && k + 1 < |trace| - 1
    ensures w.ConnAt(k + 1) != w.ConnAt(k)
  {
    DevicesOnTrace(s, item, w, trace, dest, k);
    DevicesOnTrace(s, item, w, trace, dest, k + 1);
    TraceForwards(w, trace, k);
    assert HopTaken(s, w, trace, k);
    var c := w.ConnAt(k);
    LinkFits(s.f, s.t, w.ExitAt(k).value, At(w.f, w.start, w.dlid, k).value, w.ScAt(k));
    hide IsRoute, Delivered, At, Left;
    WalkAdvances(s, item, c);
    assert FarEnd(s, c) == w.DevAt(k + 1);
  }

  /** The walk gets to its destination. */
  ghost predicate Reaches(s: Setup, item: Item, dev: NodeId, prev: Option<Conn>, sc: nat)
    requires ValidSetup(s) && ValidItem(s, item) && (prev.Some? ==> prev.value in s.t.link)
    decreases Left(s, item, dev)
  {
    dev == item.dst
    || var c := NextConn(s, item, dev, prev, sc);
       c.Some? && c != prev && (WalkAdvances(s, item, c.value); Reaches(s, item, FarEnd(s, c.value), c, c.value.sc))
  }

  lemma DepsUnfold(w: Flow, lo: nat)
    requires w.Valid() && lo < MAX_HOPS && w.Crosses(lo)
    ensures w.DepsFrom(lo) == {w.DepAt(lo)} + w.DepsFrom(lo + 1)
  {
    hide ValidFabric;
  }

  lemma {:induction false} LiveEarlier(w: Flow, m: nat, n: nat)
    requires w.Valid() && m <= n && w.Live(n)
    ensures w.Live(m)
  {
    hide ValidFabric;
    if m < n {
      LiveEarlier(w, m, n - 1);
    }
  }

  lemma DepsNone(w: Flow, lo: nat)
    requires w.Valid() && !w.Crosses(lo)
    ensures w.DepsFrom(lo) == {}
  {
    hide ValidFabric, Flow.Live;
    forall n: nat | lo <= n && w.Crosses(n)
      ensures false
    {
      LiveEarlier(w, lo + 1, n + 1);
      LiveEarlier(w, lo, n);
    }
  }

  function Before(k: nat): nat {
    if k == 0 then 0 else k - 1
  }

  /** The tables have the connections of every dependency of the packets. */
  ghost predicate HasConns(t: Tables, w: Flow)
    requires w.Valid()
  {
    forall n: nat :: w.Crosses(n) ==> w.ConnAt(n) in t.link && w.ConnAt(n + 1) in t.link
  }

  /** There are no connections for SC 15. */
  ghost predicate NoInvalid(t: Tables) {
    forall c :: c in t.link ==> c.sc != INVALID_SC
  }

  /** From its k-th device on, a walk adds dependencies of its flow only, and all of
      them if it has the connections; then it also arrives, unless the packets are
      dropped. */
  lemma {:induction false} WalkIsFlow(s: Setup, item: Item, w: Flow, trace: seq<Hop>, dest: PortId, k: nat, prev: Option<Conn>, sc: nat)
    requires Track(s, item, w, trace, dest) && Taken(s, w, trace) && k <= |trace| - 1 && StandsAt(s, w, k, prev, sc) && NoInvalid(s.t)
    ensures Trail(s, item, w.DevAt(k), prev, sc) <= w.DepsFrom(Before(k))
    ensures HasConns(s.t, w) ==> Trail(s, item, w.DevAt(k), prev, sc) == w.DepsFrom(Before(k))
    ensures HasConns(s.t, w) && |trace| > 2 && w.Live(|trace| - 2) ==> Reaches(s, item, w.DevAt(k), prev, sc)
    decreases |trace| - k
  {
    hide Taken, ValidSetup, IsRoute, Delivered, At, NextConn, FarEnd, Left, ValidFabric, Flow.DepsFrom, Flow.ExitAt, Flow.ScAt, Flow.DevAt;
    TraceLength(w, trace, dest);
    var dev := w.DevAt(k);
    if k == |trace| - 1 {
      DevicesOnTrace(s, item, w, trace, dest, k);
      DepsNone(w, Before(k));
    } else {
      NextConnIs(s, item, w, trace, dest, k, prev, sc);
      TrailUnfolds(s, item, dev, prev, sc);
      var c := w.ConnAt(k);
      if w.Live(|trace| - 2) {
        LiveEarlier(w, k, |trace| - 2);
        if |trace| > 2 {
          LiveEarlier(w, Before(k), |trace| - 2);
          LiveEarlier(w, Before(k) + 1, |trace| - 2);
        }
      }
      if c in s.t.link {
        assert w.Live(k);
        if k > 0 {
          NoRepeat(s, item, w, trace, dest, k - 1);
          DepsUnfold(w, k - 1);
        }
        WalkIsFlow(s, item, w, trace, dest, k + 1, Some(c), c.sc);
      } else if HasConns(s.t, w) {
        DepsNone(w, Before(k));
      }
    }
  }

  /** A whole item: its walk adds dependencies of its flow only, and all of them
      exactly if the tables have their connections; then it also arrives, unless the
      packets are dropped on the way. */
  lemma ItemIsFlow(s: Setup, item: Item, p: Path, trace: seq<Hop>, usedSCs: seq<nat>)
    requires ValidSetup(s) && ValidItem(s, item) && ValidPath(s.f, p) && !Direct(s.f, p.start, p.dest) && NoInvalid(s.t)
    requires s.f.ports[p.start].node == item.src != item.dst && s.f.ports[p.dest].node == item.dst && p.dlid == s.lid[item.dst]
    requires PathFits(s.f, s.t, p, trace) && PathEntered(s.f, s.t, p, trace, usedSCs)
    ensures ItemDeps(s, item) <= FlowOf(s.f, p, s.usedSLs, item.sl).Deps()
    ensures HasConns(s.t, FlowOf(s.f, p, s.usedSLs, item.sl)) <==> ItemDeps(s, item) == FlowOf(s.f, p, s.usedSLs, item.sl).Deps()
    ensures HasConns(s.t, FlowOf(s.f, p, s.usedSLs, item.sl)) && |trace| > 2 && FlowOf(s.f, p, s.usedSLs, item.sl).Live(|trace| - 2) ==>
              Reaches(s, item, item.src, None, 0)
  {
    var w := FlowOf(s.f, p, s.usedSLs, item.sl);
    assert Track(s, item, w, trace, p.dest);
    assert StandsAt(s, w, 0, None, 0);
    EnteredTaken(s, w, trace, usedSCs);
    hide Trail, ValidSetup, IsRoute, Delivered, ValidFabric, HasConns;
    WalkIsFlow(s, item, w, trace, p.dest, 0, None, 0);
    if !HasConns(s.t, w) {
      var d := MissingConn(s, w, trace, p.dest);
      if d in ItemDeps(s, item) {
        TrailConsecutive(s, item, item.src, None, 0, d);
      }
    }
  }

  /** Some dependency of the packets lacks a connection. */
  lemma MissingConn(s: Setup, w: Flow, trace: seq<Hop>, dest: PortId) returns (d: (Conn, Conn))
    requires w.Valid() && IsRoute(w.f, w.start, w.dlid, trace) && EndsAt(trace, dest) && Delivered(w.f, w.start, w.dlid, 0)
    requires !HasConns(s.t, w)
    ensures d in w.Deps() && (d.0 !in s.t.link || d.1 !in s.t.link)
  {
    hide Delivered, ValidFabric, IsRoute, Flow.ExitAt, Flow.ScAt;
    var n: nat :| w.Crosses(n) && (w.ConnAt(n) !in s.t.link || w.ConnAt(n + 1) !in s.t.link);
    TraceLength(w, trace, dest);
    d := w.DepAt(n);
  }

  lemma EnteredTaken(s: Setup, w: Flow, trace: seq<Hop>, usedSCs: seq<nat>)
    requires TraceEntered(s.f, s.t, w.dlid, trace, |trace| - 1, usedSCs)
    ensures Taken(s, w, trace)
  {
    hide LinksEntered;
  }

  // ---- all flows of the fabric ----

  function FlowOf(f: Fabric, p: Path, usedSLs: set<nat>, sl: nat): Flow {
    Flow(f, p.start, p.dlid, usedSLs, sl)
  }

  /** A path between two different FIs that crosses a switch. */
  ghost predicate Between(f: Fabric, p: Path) {
    ValidPath(f, p) && !Direct(f, p.start, p.dest) && f.ports[p.start].node != f.ports[p.dest].node
  }

  /** The path goes to the LID that stands for its FI; packets to other LIDs of the FI
      are never walked. */
  ghost predicate ToFirstLid(f: Fabric, lid: map<NodeId, Lid>, p: Path) {
    p.dest in f.ports && f.ports[p.dest].node in lid && p.dlid == lid[f.ports[p.dest].node]
  }

  ghost predicate FlowUsed(f: Fabric, usedSLs: set<nat>, paths: seq<Path>, i: nat, sl: nat) {
    i < |paths| && Between(f, paths[i]) && sl in Levels(usedSLs, MAX_SLS)
  }

  /** All pairs of connections that packets on the given paths between FIs use one
      after the other, by forwarding alone. */
  ghost function FabricDeps(f: Fabric, usedSLs: set<nat>, paths: seq<Path>): set<(Conn, Conn)> {
    set i: nat, sl: nat, d | i < |paths| && sl in Levels(usedSLs, MAX_SLS) && FlowUsed(f, usedSLs, paths, i, sl)
                             && d in FlowOf(f, paths[i], usedSLs, sl).Deps() :: d
  }

  lemma DepInFabric(f: Fabric, usedSLs: set<nat>, paths: seq<Path>, i: nat, sl: nat, n: nat)
    requires FlowUsed(f, usedSLs, paths, i, sl) && n < MAX_HOPS && FlowOf(f, paths[i], usedSLs, sl).Crosses(n)
    ensures FlowOf(f, paths[i], usedSLs, sl).DepAt(n) in FabricDeps(f, usedSLs, paths)
  {
    hide Levels, ValidFabric, Flow.Live;
    assert FlowOf(f, paths[i], usedSLs, sl).DepAt(n) in FlowOf(f, paths[i], usedSLs, sl).Deps();
  }

  ghost predicate FlowWalked(f: Fabric, lid: map<NodeId, Lid>, usedSLs: set<nat>, paths: seq<Path>, i: nat, sl: nat) {
    FlowUsed(f, usedSLs, paths, i, sl) && ToFirstLid(f, lid, paths[i])
  }

  /** Those of them on paths to the LIDs that stand for the FIs. */
  ghost function WalkedDeps(f: Fabric, lid: map<NodeId, Lid>, usedSLs: set<nat>, paths: seq<Path>): set<(Conn, Conn)> {
    set i: nat, sl: nat, d | i < |paths| && sl in Levels(usedSLs, MAX_SLS) && FlowWalked(f, lid, usedSLs, paths, i, sl)
                             && d in FlowOf(f, paths[i], usedSLs, sl).Deps() :: d
  }

  /** Every path between FIs goes to the LID that stands for its FI. */
  ghost predicate FirstLidsOnly(f: Fabric, lid: map<NodeId, Lid>, paths: seq<Path>) {
    forall i :: 0 <= i < |paths| && Between(f, paths[i]) ==> ToFirstLid(f, lid, paths[i])
  }

  lemma WalkedInFabric(f: Fabric, lid: map<NodeId, Lid>, usedSLs: set<nat>, paths: seq<Path>)
    ensures WalkedDeps(f, lid, usedSLs, paths) <= FabricDeps(f, usedSLs, paths)
    ensures FirstLidsOnly(f, lid, paths) ==> WalkedDeps(f, lid, usedSLs, paths) == FabricDeps(f, usedSLs, paths)
  {
    hide Levels, Between, ToFirstLid;
  }

  /** The collected paths are all good, and the graph is built from them. */
  ghost predicate GoodRun(s: Setup, fis: seq<NodeId>, paths: seq<Path>, traces: seq<seq<Hop>>, usedSCs: seq<nat>) {
    && ValidSetup(s) && |traces| == |paths| && (forall i :: 0 <= i < |paths| ==> ValidPath(s.f, paths[i]))
    && s.lid == DevicesOf(s.f, paths).lid && fis == DevicesOf(s.f, paths).fis
    && Collected(s.f, s.t, paths, traces, usedSCs) && Refused(s.f, s.t, paths, traces) == {} && INVALID_SC !in usedSCs
  }

  /** FIs are FIs, each with a LID. */
  lemma FiKnown(s: Setup, fis: seq<NodeId>, paths: seq<Path>, traces: seq<seq<Hop>>, usedSCs: seq<nat>, n: NodeId)
    requires GoodRun(s, fis, paths, traces, usedSCs)
    ensures n in fis <==> n in s.lid
    ensures n in fis ==> n in s.f.nodes && !s.f.nodes[n].isSwitch
    ensures forall i :: 0 <= i < |paths| ==> s.f.ports[paths[i].start].node in fis && s.f.ports[paths[i].dest].node in fis
  {
    hide Collected, Refused, ValidSetup, DevicesOf;
    DevicesListed(s.f, paths);
    if n in fis {
      var i :| 0 <= i < |paths| && IsEndOf(s.f, paths[i], n);
      assert ValidPort(s.f, paths[i].start) && ValidPort(s.f, paths[i].dest);
    }
    forall i | 0 <= i < |paths|
      ensures s.f.ports[paths[i].start].node in fis && s.f.ports[paths[i].dest].node in fis
    {
      assert IsEndOf(s.f, paths[i], s.f.ports[paths[i].start].node) && IsEndOf(s.f, paths[i], s.f.ports[paths[i].dest].node);
    }
  }

  lemma ItemsKnown(s: Setup, fis: seq<NodeId>, paths: seq<Path>, traces: seq<seq<Hop>>, usedSCs: seq<nat>)
    requires GoodRun(s, fis, paths, traces, usedSCs)
    ensures ValidItems(s, SliceItems(s, fis, 0, |fis|)) && NoInvalid(s.t)
  {
    hide SliceItems, ValidSetup, Refused, DevicesOf;
    forall i | 0 <= i < |fis|
      ensures fis[i] in s.lid
    {
      FiKnown(s, fis, paths, traces, usedSCs, fis[i]);
    }
    ItemsAreValid(s, fis);
  }

  /** An item that adds anything is the item of a walked path. */
  lemma PathOfItem(s: Setup, fis: seq<NodeId>, paths: seq<Path>, traces: seq<seq<Hop>>, usedSCs: seq<nat>, x: Item) returns (i: nat)
    requires GoodRun(s, fis, paths, traces, usedSCs) && ValidItem(s, x) && x.src in fis && x.dst in fis && ItemDeps(s, x) != {}
    ensures i < |paths| && Between(s.f, paths[i]) && ToFirstLid(s.f, s.lid, paths[i])
    ensures s.f.ports[paths[i].start].node == x.src != x.dst && s.f.ports[paths[i].dest].node == x.dst
  {
    FiKnown(s, fis, paths, traces, usedSCs, x.src);
    hide ValidTables, PathFits, PathEntered, ValidFabric, ItemDeps, PortsListed, Startable, Refused, DevicesOf, LinkFromPath;
    var key := (x.src, s.lid[x.dst]);
    AddsSomething(s, x);
    var y := s.t.route[key];
    SourceExit(s, key);
    assert FromPath(s.f, paths[..|traces|], key, y);
    i :| 0 <= i < |paths| && IsOrigin(s.f, paths[..|traces|][i], key, y);
    assert paths[..|traces|][i] == paths[i];
    assert !IsSwitch(s.f, y);
    FitsAll(s.f, s.t, paths, traces, i);
    EndOwns(s.f, s.t, paths[i], traces[i], x.dst);
  }

  lemma AddsSomething(s: Setup, x: Item)
    requires ValidSetup(s) && ValidItem(s, x) && ItemDeps(s, x) != {}
    ensures x.src != x.dst && (x.src, s.lid[x.dst]) in s.t.route
  {
    hide ValidSetup, NextSc, FarEnd, Left;
  }

  lemma SourceExit(s: Setup, key: (NodeId, Lid))
    requires ValidSetup(s) && key in s.t.route
    ensures s.t.route[key] in s.f.ports && s.f.ports[s.t.route[key]].node == key.0
  {
    assert OwnExit(s.f, key.0, s.t.route[(key.0, key.1)]);
  }

  lemma FitsAll(f: Fabric, t: Tables, paths: seq<Path>, traces: seq<seq<Hop>>, i: nat)
    requires |traces| == |paths| && (forall i :: 0 <= i < |paths| ==> ValidPath(f, paths[i])) && i < |paths|
    requires Refused(f, t, paths, traces) == {}
    ensures PathFits(f, t, paths[i], traces[i])
  {
    hide PathFits;
    assert i !in Refused(f, t, paths, traces);
  }

  lemma EndOwns(f: Fabric, t: Tables, p: Path, trace: seq<Hop>, dst: NodeId)
    requires ValidPath(f, p) && PathFits(f, t, p, trace) && !Direct(f, p.start, p.dest) && IsOwner(f, dst, p.dlid)
    ensures f.ports[p.dest].node == dst
  {
    hide Delivered;
  }

  // ---- which connections are there ----

  /** By forwarding alone: one of the paths leaves, after k switches, through a cable
      that c runs over, on an SC with connections there. */
  ghost predicate LinkAlong(f: Fabric, paths: seq<Path>, usedSCs: seq<nat>, i: nat, k: nat, c: Conn) {
    && i < |paths| && ValidPath(f, paths[i]) && !Direct(f, paths[i].start, paths[i].dest)
    && var x := FlowOf(f, paths[i], {}, 0).ExitAt(k);
       x.Some? && LinkOver(f, x.value, usedSCs, c)
  }

  ghost predicate HasLink(f: Fabric, paths: seq<Path>, usedSCs: seq<nat>, c: Conn) {
    exists i: nat, k: nat :: LinkAlong(f, paths, usedSCs, i, k, c)
  }

  /** With every path good, the tables have exactly the connections of its cables. */
  lemma LinkIff(s: Setup, fis: seq<NodeId>, paths: seq<Path>, traces: seq<seq<Hop>>, usedSCs: seq<nat>, c: Conn)
    requires GoodRun(s, fis, paths, traces, usedSCs)
    ensures c in s.t.link <==> HasLink(s.f, paths, usedSCs, c)
  {
    hide ValidSetup, PathFits, PathEntered, DevicesOf, Refused, LinkOver, IsRoute, Startable;
    if c in s.t.link {
      var i :| 0 <= i < |traces| && LinkOf(s.f, paths[i], traces[i], usedSCs, c);
      var k: nat :| k < |traces[i]| - 1 && traces[i][k].exit.Some? && LinkOver(s.f, traces[i][k].exit.value, usedSCs, c);
      TraceForwards(FlowOf(s.f, paths[i], {}, 0), traces[i], k);
      assert LinkAlong(s.f, paths, usedSCs, i, k, c);
    }
    if HasLink(s.f, paths, usedSCs, c) {
      var i: nat, k: nat :| LinkAlong(s.f, paths, usedSCs, i, k, c);
      FitsAll(s.f, s.t, paths, traces, i);
      LinkThere(s, paths[i], traces[i], usedSCs, k, c);
    }
  }

  lemma LinkThere(s: Setup, p: Path, trace: seq<Hop>, usedSCs: seq<nat>, k: nat, c: Conn)
    requires ValidPath(s.f, p) && !Direct(s.f, p.start, p.dest) && PathFits(s.f, s.t, p, trace) && PathEntered(s.f, s.t, p, trace, usedSCs)
    requires var x := FlowOf(s.f, p, {}, 0).ExitAt(k); x.Some? && LinkOver(s.f, x.value, usedSCs, c)
    ensures c in s.t.link
  {
    var w := FlowOf(s.f, p, {}, 0);
    hide Delivered, IsRoute, Flow.ExitAt, ValidFabric;
    TraceLength(w, trace, p.dest);
    TraceForwards(w, trace, k);
    var x := trace[k].exit.value;
    assert Joined(s.f, trace, k) && HopEntered(s.f, s.t, w.dlid, x, trace[k + 1].entry.value, usedSCs);
    var scs := HopScs(s.f, x, usedSCs);
    var i :| 0 <= i < |scs| && scs[i] == c.sc;
    assert LinkEntered(s.f, s.t, x, trace[k + 1].entry.value, scs[i]);
  }

  /** The connections of every dependency on the walked paths are there. */
  ghost predicate AllLinked(f: Fabric, lid: map<NodeId, Lid>, usedSLs: set<nat>, paths: seq<Path>, usedSCs: seq<nat>) {
    forall i: nat, sl: nat :: FlowWalked(f, lid, usedSLs, paths, i, sl) ==> FlowLinked(f, paths, usedSCs, FlowOf(f, paths[i], usedSLs, sl))
  }

  ghost predicate FlowLinked(f: Fabric, paths: seq<Path>, usedSCs: seq<nat>, w: Flow)
    requires w.Valid()
  {
    forall n: nat :: w.Crosses(n) ==> HasLink(f, paths, usedSCs, w.ConnAt(n)) && HasLink(f, paths, usedSCs, w.ConnAt(n + 1))
  }

  lemma LinkedIff(s: Setup, fis: seq<NodeId>, paths: seq<Path>, traces: seq<seq<Hop>>, usedSCs: seq<nat>, w: Flow)
    requires GoodRun(s, fis, paths, traces, usedSCs) && w.Valid()
    ensures FlowLinked(s.f, paths, usedSCs, w) <==> HasConns(s.t, w)
  {
    hide GoodRun, HasLink, Flow.ExitAt, Flow.ScAt;
    forall n: nat | w.Live(n)
      ensures HasLink(s.f, paths, usedSCs, w.ConnAt(n)) <==> w.ConnAt(n) in s.t.link
    {
      LinkIff(s, fis, paths, traces, usedSCs, w.ConnAt(n));
    }
  }

  // ---- walks and flows ----

  /** With every path good, the walks add dependencies of packets to the LIDs that stand
      for FIs only, and all of them exactly if their connections are there. */
  lemma WalksAreFlows(s: Setup, fis: seq<NodeId>, paths: seq<Path>, traces: seq<seq<Hop>>, usedSCs: seq<nat>)
    requires GoodRun(s, fis, paths, traces, usedSCs) && ValidItems(s, SliceItems(s, fis, 0, |fis|))
    ensures ItemsDeps(s, multiset(SliceItems(s, fis, 0, |fis|))) <= WalkedDeps(s.f, s.lid, s.usedSLs, paths)
    ensures ItemsDeps(s, multiset(SliceItems(s, fis, 0, |fis|))) == WalkedDeps(s.f, s.lid, s.usedSLs, paths) <==>
              AllLinked(s.f, s.lid, s.usedSLs, paths, usedSCs)
  {
    hide SliceItems, ItemDeps, Levels, AllLinked, ValidSetup, Collected, Refused, DevicesOf, ValidPath, FlowWalked;
    var items := SliceItems(s, fis, 0, |fis|);
    var all := WalkedDeps(s.f, s.lid, s.usedSLs, paths);
    forall x, d | x in items && d in ItemDeps(s, x)
      ensures d in all
    {
      WalkInFabric(s, fis, paths, traces, usedSCs, x, d);
    }
    if AllLinked(s.f, s.lid, s.usedSLs, paths, usedSCs) {
      forall d | d in all
        ensures d in ItemsDeps(s, multiset(items))
      {
        FabricInWalk(s, fis, paths, traces, usedSCs, d);
      }
    } else {
      var d := NotLinked(s, fis, paths, traces, usedSCs);
    }
  }

  lemma WalkInFabric(s: Setup, fis: seq<NodeId>, paths: seq<Path>, traces: seq<seq<Hop>>, usedSCs: seq<nat>, x: Item, d: (Conn, Conn))
    requires GoodRun(s, fis, paths, traces, usedSCs) && ValidItem(s, x) && x in SliceItems(s, fis, 0, |fis|) && d in ItemDeps(s, x)
    ensures d in WalkedDeps(s.f, s.lid, s.usedSLs, paths)
  {
    hide SliceItems, ItemDeps, Levels, ValidSetup, Refused, PathFits, PathEntered, DevicesOf, Startable;
    SliceItemsWanted(s, fis, |fis|, x);
    ItemsKnown(s, fis, paths, traces, usedSCs);
    var i := PathOfItem(s, fis, paths, traces, usedSCs, x);
    FitsAll(s.f, s.t, paths, traces, i);
    ItemIsFlow(s, x, paths[i], traces[i], usedSCs);
    assert FlowWalked(s.f, s.lid, s.usedSLs, paths, i, x.sl);
  }

  lemma FabricInWalk(s: Setup, fis: seq<NodeId>, paths: seq<Path>, traces: seq<seq<Hop>>, usedSCs: seq<nat>, d: (Conn, Conn))
    requires GoodRun(s, fis, paths, traces, usedSCs) && ValidItems(s, SliceItems(s, fis, 0, |fis|))
    requires AllLinked(s.f, s.lid, s.usedSLs, paths, usedSCs) && d in WalkedDeps(s.f, s.lid, s.usedSLs, paths)
    ensures d in ItemsDeps(s, multiset(SliceItems(s, fis, 0, |fis|)))
  {
    hide SliceItems, ItemDeps, Levels, ValidSetup, Refused, PathFits, PathEntered, DevicesOf, Startable, HasConns, FlowLinked;
    var i: nat, sl: nat :| FlowWalked(s.f, s.lid, s.usedSLs, paths, i, sl) && d in FlowOf(s.f, paths[i], s.usedSLs, sl).Deps();
    var p := paths[i];
    var x := ItemOf(s, fis, paths, traces, usedSCs, i, sl);
    FitsAll(s.f, s.t, paths, traces, i);
    LinkedIff(s, fis, paths, traces, usedSCs, FlowOf(s.f, p, s.usedSLs, sl));
    ItemsKnown(s, fis, paths, traces, usedSCs);
    ItemIsFlow(s, x, p, traces[i], usedSCs);
  }

  /** A walked path on a used SL is one of the items. */
  lemma ItemOf(s: Setup, fis: seq<NodeId>, paths: seq<Path>, traces: seq<seq<Hop>>, usedSCs: seq<nat>, i: nat, sl: nat) returns (x: Item)
    requires GoodRun(s, fis, paths, traces, usedSCs) && FlowWalked(s.f, s.lid, s.usedSLs, paths, i, sl)
    ensures x == Item(s.f.ports[paths[i].start].node, s.f.ports[paths[i].dest].node, sl)
    ensures x in SliceItems(s, fis, 0, |fis|) && ValidItem(s, x)
  {
    hide SliceItems, Levels, ValidSetup, Refused, Collected, DevicesOf, Startable;
    x := Item(s.f.ports[paths[i].start].node, s.f.ports[paths[i].dest].node, sl);
    FiKnown(s, fis, paths, traces, usedSCs, x.src);
    FiKnown(s, fis, paths, traces, usedSCs, x.dst);
    SliceItemsWanted(s, fis, |fis|, x);
    var a :| 0 <= a < |fis| && fis[a] == x.src;
    var b :| 0 <= b < |fis| && fis[b] == x.dst;
    assert Wanted(s, fis, a, |fis|, x);
  }

  /** Where a connection is not there, its dependencies are not added. */
  lemma NotLinked(s: Setup, fis: seq<NodeId>, paths: seq<Path>, traces: seq<seq<Hop>>, usedSCs: seq<nat>) returns (d: (Conn, Conn))
    requires GoodRun(s, fis, paths, traces, usedSCs) && ValidItems(s, SliceItems(s, fis, 0, |fis|))
    requires !AllLinked(s.f, s.lid, s.usedSLs, paths, usedSCs)
    ensures d in WalkedDeps(s.f, s.lid, s.usedSLs, paths) && d !in ItemsDeps(s, multiset(SliceItems(s, fis, 0, |fis|)))
  {
    hide SliceItems, ItemDeps, Levels, ValidSetup, Refused, PathEntered, DevicesOf, HasConns, FlowLinked, Delivered, IsRoute, Flow.DepsFrom;
    var i: nat, sl: nat :| FlowWalked(s.f, s.lid, s.usedSLs, paths, i, sl) && !FlowLinked(s.f, paths, usedSCs, FlowOf(s.f, paths[i], s.usedSLs, sl));
    var w := FlowOf(s.f, paths[i], s.usedSLs, sl);
    LinkedIff(s, fis, paths, traces, usedSCs, w);
    FitsAll(s.f, s.t, paths, traces, i);
    d := MissingConn(s, w, traces[i], paths[i].dest);
    forall x | x in SliceItems(s, fis, 0, |fis|)
      ensures d !in ItemDeps(s, x)
    {
      NotAdded(s, x, d);
    }
  }

  lemma NotAdded(s: Setup, x: Item, d: (Conn, Conn))
    requires ValidSetup(s) && ValidItem(s, x) && (d.0 !in s.t.link || d.1 !in s.t.link)
    ensures d !in ItemDeps(s, x)
  {
    hide ValidSetup, Trail;
    if d in ItemDeps(s, x) {
      TrailConsecutive(s, x, x.src, None, 0, d);
    }
  }

  /** A good path to another LID of its FI is walked by no item. */
  lemma OtherLidUnwalked(s: Setup, fis: seq<NodeId>, paths: seq<Path>, traces: seq<seq<Hop>>, usedSCs: seq<nat>, i: nat, x: Item)
    requires GoodRun(s, fis, paths, traces, usedSCs) && ValidItem(s, x)
    requires i < |paths| && Between(s.f, paths[i]) && !ToFirstLid(s.f, s.lid, paths[i])
    ensures s.lid[x.dst] != paths[i].dlid
  {
    hide Collected, Refused, PathFits, DevicesOf, Startable, ValidTables, PortsListed;
    FitsAll(s.f, s.t, paths, traces, i);
    if s.lid[x.dst] == paths[i].dlid {
      EndOwns(s.f, s.t, paths[i], traces[i], x.dst);
    }
  }

  // ---- when the connections are there ----

  /** Where every hop has connections for the SC the packets are on, all are there. */
  lemma CoveredLinked(f: Fabric, lid: map<NodeId, Lid>, usedSLs: set<nat>, paths: seq<Path>, usedSCs: seq<nat>)
    requires forall i: nat, sl: nat :: FlowWalked(f, lid, usedSLs, paths, i, sl) ==> FlowOf(f, paths[i], usedSLs, sl).Covered(usedSCs)
    ensures AllLinked(f, lid, usedSLs, paths, usedSCs)
  {
    hide Levels, ValidFabric;
    forall i: nat, sl: nat | FlowWalked(f, lid, usedSLs, paths, i, sl)
      ensures FlowLinked(f, paths, usedSCs, FlowOf(f, paths[i], usedSLs, sl))
    {
      var w := FlowOf(f, paths[i], usedSLs, sl);
      forall n: nat | w.Live(n)
        ensures HasLink(f, paths, usedSCs, w.ConnAt(n))
      {
        CoveredLink(f, paths, usedSCs, i, usedSLs, sl, n);
      }
    }
  }

  lemma CoveredLink(f: Fabric, paths: seq<Path>, usedSCs: seq<nat>, i: nat, usedSLs: set<nat>, sl: nat, n: nat)
    requires i < |paths| && Between(f, paths[i]) && sl < 32
    requires var w := FlowOf(f, paths[i], usedSLs, sl); w.Live(n) && w.Covered(usedSCs)
    ensures HasLink(f, paths, usedSCs, FlowOf(f, paths[i], usedSLs, sl).ConnAt(n))
  {
    var w := FlowOf(f, paths[i], usedSLs, sl);
    ExitCabled(w, n);
    assert w.ExitAt(n) == FlowOf(f, paths[i], {}, 0).ExitAt(n);
    assert LinkAlong(f, paths, usedSCs, i, n, w.ConnAt(n));
  }

  /** A port that packets leave through is cabled. */
  lemma ExitCabled(w: Flow, n: nat)
    requires w.Valid() && w.ExitAt(n).Some?
    ensures var x := w.f.ports[w.ExitAt(n).value].neighbor; x.Some? && x.value in w.f.ports
  {
    assert ValidPort(w.f, w.ExitAt(n).value);
  }

  /** Without service levels in use, everything runs on SC 0, which every hop has. */
  lemma PlainLinked(f: Fabric, lid: map<NodeId, Lid>, paths: seq<Path>)
    ensures AllLinked(f, lid, {}, paths, [])
  {
    hide Levels, ValidFabric;
    forall i: nat, sl: nat | FlowWalked(f, lid, {}, paths, i, sl)
      ensures FlowOf(f, paths[i], {}, sl).Covered([])
    {
    }
    CoveredLinked(f, lid, {}, paths, []);
  }

  /** nodes and switches are the QOS tables of the fabric as the search for used SCs
      goes through them; every port has QOS data. */
  ghost predicate Describes(f: Fabric, nodes: seq<seq<SC.Table>>, switches: seq<SC.Switch>) {
    forall p :: p in f.ports ==>
      && f.ports[p].qos.Some?
      && (if !IsSwitch(f, p) then exists i: nat, j: nat :: IsHost(f, p, nodes, i, j)
          else f.ports[p].num != 0 ==> exists i: nat, j: nat :: IsIngress(f, p, switches, i, j))
  }

  ghost predicate IsHost(f: Fabric, p: PortId, nodes: seq<seq<SC.Table>>, i: nat, j: nat)
    requires p in f.ports && f.ports[p].qos.Some?
  {
    i < |nodes| && j < |nodes[i]| && nodes[i][j] == f.ports[p].qos.value.sl2sc
  }

  ghost predicate IsIngress(f: Fabric, p: PortId, switches: seq<SC.Switch>, i: nat, j: nat)
    requires p in f.ports && f.ports[p].qos.Some?
  {
    && i < |switches| && j < |switches[i].ports|
    && switches[i].ports[j].num == f.ports[p].num && switches[i].ports[j].scsc == f.ports[p].qos.value.scsc
    && forall x :: x in f.ports && f.ports[x].node == f.ports[p].node ==> f.ports[x].num <= switches[i].numPorts
  }

  /** Packets only come to use SCs that chains of tables, over all egress ports, reach. */
  lemma {:induction false} FlowReachable(w: Flow, nodes: seq<seq<SC.Table>>, switches: seq<SC.Switch>, n: nat)
    requires w.Valid() && Describes(w.f, nodes, switches) && w.sl in w.usedSLs && w.Live(n)
    ensures SC.Reachable(nodes, w.usedSLs, switches, true, w.ScAt(n))
  {
    hide SC.Reachable, SC.Crossing, Describes;
    if n == 0 {
      StartReachable(w, nodes, switches);
    } else {
      FlowReachable(w, nodes, switches, n - 1);
      SC.ReachableIsSc(nodes, w.usedSLs, switches, true, w.ScAt(n - 1));
      var p, x := At(w.f, w.start, w.dlid, n - 1).value, w.ExitAt(n).value;
      if w.ScAt(n) != w.ScAt(n - 1) {
        EntryNotZero(w, n - 1);
        SwitchCrosses(w, nodes, switches, p, x, w.ScAt(n - 1));
        SC.ReachableStep(nodes, w.usedSLs, switches, true, w.ScAt(n - 1), w.ScAt(n));
      }
    }
  }

  lemma StartReachable(w: Flow, nodes: seq<seq<SC.Table>>, switches: seq<SC.Switch>)
    requires w.Valid() && Describes(w.f, nodes, switches) && w.sl in w.usedSLs && w.Live(0)
    ensures SC.Reachable(nodes, w.usedSLs, switches, true, w.ScAt(0))
  {
    assert ValidPort(w.f, w.start);
    var i: nat, j: nat :| IsHost(w.f, w.start, nodes, i, j);
    var sc := w.ScAt(0);
    assert SC.FromTable(nodes[i][j], w.usedSLs, SC.MAX_SCS, sc);
    assert SC.FromNode(nodes[i], w.usedSLs, |nodes[i]|, sc);
    assert SC.IsSeed(nodes, w.usedSLs, |nodes|, sc);
    hide ValidFabric, Describes;
    SC.SeedReachable(nodes, w.usedSLs, switches, true, sc);
  }

  lemma EntryNotZero(w: Flow, n: nat)
    requires w.Valid() && At(w.f, w.start, w.dlid, n).Some? && Transit(w.f, At(w.f, w.start, w.dlid, n).value, n)
    ensures w.f.ports[At(w.f, w.start, w.dlid, n).value].num != 0
  {
    if n == 0 {
      assert ValidPort(w.f, w.start);
    }
  }

  lemma SwitchCrosses(w: Flow, nodes: seq<seq<SC.Table>>, switches: seq<SC.Switch>, p: PortId, x: PortId, sc: nat)
    requires w.Valid() && Describes(w.f, nodes, switches) && p in w.f.ports && x in w.f.ports && w.f.ports[p].node == w.f.ports[x].node
    requires IsSwitch(w.f, p) && w.f.ports[p].num != 0 && sc < SC.MAX_SCS
    requires SwitchSc(w.f, p, x, sc) != sc && SwitchSc(w.f, p, x, sc) != INVALID_SC
    ensures SC.Crossing(switches, true, sc, SwitchSc(w.f, p, x, sc))
  {
    assert w.f.ports[p].qos.Some? && exists i: nat, j: nat :: IsIngress(w.f, p, switches, i, j);
    var i: nat, j: nat :| IsIngress(w.f, p, switches, i, j);
    assert SC.CrossingAt(switches, true, i, j, w.f.ports[x].num, sc, SwitchSc(w.f, p, x, sc));
  }

  /** The set as a list, as the loops over its bits go through it. */
  function ScList(scs: set<nat>, n: nat): (list: seq<nat>)
    ensures forall sc :: sc in list <==> sc < n && sc in scs
    ensures scs == {} ==> list == []
  {
    if n == 0 then [] else if n - 1 in scs then ScList(scs, n - 1) + [n - 1] else ScList(scs, n - 1)
  }

  /** The SCs that the search finds give every hop the connections its packets need if
      the tables it leaves out are harmless. */
  lemma FoundLinked(f: Fabric, lid: map<NodeId, Lid>, usedSLs: set<nat>, paths: seq<Path>, found: set<nat>,
                    nodes: seq<seq<SC.Table>>, switches: seq<SC.Switch>)
    requires Describes(f, nodes, switches) && SC.LastHarmless(nodes, usedSLs, switches)
    requires forall sc: nat :: sc in found <==> SC.Reachable(nodes, usedSLs, switches, false, sc)
    ensures AllLinked(f, lid, usedSLs, paths, ScList(found, SC.MAX_SCS))
  {
    hide SC.LastHarmless, SC.Reachable, Describes;
    var usedSCs := ScList(found, SC.MAX_SCS);
    forall i: nat, sl: nat | FlowWalked(f, lid, usedSLs, paths, i, sl)
      ensures FlowOf(f, paths[i], usedSLs, sl).Covered(usedSCs)
    {
      FoundCovers(FlowOf(f, paths[i], usedSLs, sl), found, nodes, switches);
    }
    CoveredLinked(f, lid, usedSLs, paths, usedSCs);
  }

  lemma FoundCovers(w: Flow, found: set<nat>, nodes: seq<seq<SC.Table>>, switches: seq<SC.Switch>)
    requires w.Valid() && Describes(w.f, nodes, switches) && SC.LastHarmless(nodes, w.usedSLs, switches)
    requires w.usedSLs == {} || w.sl in w.usedSLs
    requires forall sc: nat :: sc in found <==> SC.Reachable(nodes, w.usedSLs, switches, false, sc)
    ensures w.Covered(ScList(found, SC.MAX_SCS))
  {
    hide SC.LastHarmless, ScList, ValidFabric;
    var usedSCs := ScList(found, SC.MAX_SCS);
    if w.usedSLs == {} {
      NothingFound(nodes, switches);
      assert found == {};
    } else {
      forall n: nat | w.Live(n)
        ensures w.ScAt(n) in usedSCs
      {
        FlowReachable(w, nodes, switches, n);
        SC.HarmlessStays(nodes, w.usedSLs, switches, w.ScAt(n));
        SC.ReachableIsSc(nodes, w.usedSLs, switches, false, w.ScAt(n));
      }
    }
  }

  lemma NothingFound(nodes: seq<seq<SC.Table>>, switches: seq<SC.Switch>)
    ensures forall sc: nat :: !SC.Reachable(nodes, {}, switches, false, sc)
  {
    forall sc: nat
      ensures !SC.IsSeed(nodes, {}, |nodes|, sc)
    {
    }
  }

  // ---- the validation ----

  datatype Outcome = NotDone | DeadlockFree | Deadlock(loops: nat)

  /** From forwarding tables to verdict.  With every path good, a reported deadlock is
      a cycle of dependencies of packets on the paths; where the connections are there,
      the routes are reported deadlock free exactly if there is no such cycle on paths
      to the LIDs that stand for the FIs, which are all paths if every path goes to
      such a LID. */
  method ValidateAllCreditLoopRoutes(f: Fabric, paths: seq<Path>, useScSc: bool, vfs: seq<nat>,
                                     nodes: seq<seq<SC.Table>>, switches: seq<SC.Switch>)
    returns (outcome: Outcome, bad: nat, usedSLs: set<nat>, usedSCs: seq<nat>, ghost s: Setup, ghost fis: seq<NodeId>, ghost traces: seq<seq<Hop>>)
    requires ValidFabric(f) && PortsListed(f) && forall i :: 0 <= i < |paths| ==> ValidPath(f, paths[i])
    requires forall n :: n in DevicesOf(f, paths).lid ==> IsOwner(f, n, DevicesOf(f, paths).lid[n])
    ensures ValidSetup(s) && s == Setup(f, s.t, DevicesOf(f, paths).lid, usedSLs) && fis == DevicesOf(f, paths).fis
    ensures ValidItems(s, SliceItems(s, fis, 0, |fis|)) && INVALID_SC !in usedSCs
    ensures |traces| == |paths| && Collected(f, s.t, paths, traces, usedSCs) && bad == |Refused(f, s.t, paths, traces)|
    ensures outcome != NotDone ==>
              (outcome == DeadlockFree <==> !HasCycle(ItemsDeps(s, multiset(SliceItems(s, fis, 0, |fis|)))))
    ensures outcome.Deadlock? ==> LoopCount(ItemsDeps(s, multiset(SliceItems(s, fis, 0, |fis|))), outcome.loops)
    ensures bad == 0 ==> (outcome == NotDone <==> forall i :: 0 <= i < |paths| ==> Direct(f, paths[i].start, paths[i].dest))
    ensures bad == 0 && outcome.Deadlock? ==> HasCycle(FabricDeps(f, usedSLs, paths)) && outcome.loops > 0
    ensures bad == 0 && AllLinked(f, s.lid, usedSLs, paths, usedSCs) && outcome != NotDone ==>
              (outcome == DeadlockFree <==> !HasCycle(WalkedDeps(f, s.lid, usedSLs, paths)))
    ensures bad == 0 && AllLinked(f, s.lid, usedSLs, paths, usedSCs) && outcome.Deadlock? ==>
              LoopCount(WalkedDeps(f, s.lid, usedSLs, paths), outcome.loops)
    ensures bad == 0 && AllLinked(f, s.lid, usedSLs, paths, usedSCs) && FirstLidsOnly(f, s.lid, paths) && outcome != NotDone ==>
              (outcome == DeadlockFree <==> !HasCycle(FabricDeps(f, usedSLs, paths)))
    ensures !useScSc ==> usedSLs == {} && usedSCs == [] && AllLinked(f, s.lid, usedSLs, paths, usedSCs)
    ensures useScSc ==> forall sl :: sl in usedSLs <==> sl in vfs
    ensures useScSc ==> forall sc: nat :: sc in usedSCs <==> SC.Reachable(nodes, usedSLs, switches, false, sc)
    ensures useScSc && Describes(f, nodes, switches) && SC.LastHarmless(nodes, usedSLs, switches) ==>
              AllLinked(f, s.lid, usedSLs, paths, usedSCs)
  {
    hide ValidTables, Collected, Refused, ItemsDeps, FabricDeps, WalkedDeps, AllLinked, HasCycle, LoopCount, PortsListed, ValidFabric, DevicesOf,
         SC.LastHarmless, SC.Reachable, SC.Closed, SC.IsSeed, Describes, SliceItems, FirstLidsOnly, ScList;
    usedSLs, usedSCs := {}, [];
    ghost var lid := DevicesOf(f, paths).lid;
    if useScSc {
      var found;
      usedSLs, found := SC.GetSlScInfo(vfs, nodes, switches);
      usedSCs := ScList(found, SC.MAX_SCS);
      assert SC.Channels(found);
      if Describes(f, nodes, switches) && SC.LastHarmless(nodes, usedSLs, switches) {
        FoundLinked(f, lid, usedSLs, paths, found, nodes, switches);
      }
    } else {
      PlainLinked(f, lid, paths);
    }
    var t, devices;
    t, devices, bad, traces := CollectRoutes(f, paths, usedSCs);
    var setup := Setup(f, t, devices.lid, usedSLs);
    s, fis := setup, devices.fis;
    SetupValid(setup, devices.fis, paths);
    ItemsAreValid(s, fis);
    if bad == 0 {
      EmptyTables(f, t, paths, traces, usedSCs);
      WalksAreFlows(s, fis, paths, traces, usedSCs);
      WalkedInFabric(f, lid, usedSLs, paths);
    }
    if t.route == map[] || t.link == map[] {
      return NotDone, bad, usedSLs, usedSCs, s, fis, traces;
    }
    var free, count := Validate(setup, devices.fis);
    outcome := if free then DeadlockFree else Deadlock(count);
    if bad == 0 && !free {
      MoreCycles(ItemsDeps(s, multiset(SliceItems(s, fis, 0, |fis|))), FabricDeps(f, usedSLs, paths));
    }
  }

  lemma SetupValid(s: Setup, fis: seq<NodeId>, paths: seq<Path>)
    requires ValidTables(s.f, s.t) && PortsListed(s.f) && forall i :: 0 <= i < |paths| ==> ValidPath(s.f, paths[i])
    requires s.lid == DevicesOf(s.f, paths).lid && fis == DevicesOf(s.f, paths).fis
    requires forall n :: n in s.lid ==> IsOwner(s.f, n, s.lid[n])
    ensures ValidSetup(s) && forall i :: 0 <= i < |fis| ==> fis[i] in s.lid
  {
    hide ValidTables, PortsListed, ValidPath, DevicesOf;
    DevicesListed(s.f, paths);
  }

  lemma MoreCycles<T(!new)>(A: set<(T, T)>, B: set<(T, T)>)
    requires A <= B && HasCycle(A)
    ensures HasCycle(B)
  {
    var p :| IsCycle(A, p);
    assert IsCycle(B, p);
  }

  /** With every path good, the tables stay empty only if nothing needed tracing. */
  lemma EmptyTables(f: Fabric, t: Tables, paths: seq<Path>, traces: seq<seq<Hop>>, usedSCs: seq<nat>)
    requires |traces| == |paths| && forall i :: 0 <= i < |paths| ==> ValidPath(f, paths[i])
    requires Collected(f, t, paths, traces, usedSCs) && |Refused(f, t, paths, traces)| == 0
    ensures t.route == map[] || t.link == map[] <==> forall i :: 0 <= i < |paths| ==> Direct(f, paths[i].start, paths[i].dest)
  {
    hide Delivered, IsRoute, TraceEntered, ValidFabric;
    forall i | 0 <= i < |paths| && !Direct(f, paths[i].start, paths[i].dest)
      ensures t.route != map[] && t.link != map[]
    {
      FitsAll(f, t, paths, traces, i);
      assert PathEntered(f, t, paths[i], traces[i], usedSCs);
      StartEntered(f, t, paths[i], traces[i], usedSCs);
    }
    forall k | k in t.route
      ensures exists i :: 0 <= i < |paths| && !Direct(f, paths[i].start, paths[i].dest)
    {
      var i :| 0 <= i < |paths| && IsOrigin(f, paths[..|traces|][i], k, t.route[k]);
      assert paths[..|traces|][i] == paths[i];
    }
  }
}
