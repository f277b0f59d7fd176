/** Two small fabrics on which the credit-loop validation misses dependencies. */
module RouteWitness {
  import opened Bits
  import opened Fabric
  import opened RouteWalk
  import opened RouteTables
  import opened RouteGraph
  import opened RouteVerdict
  import SC = ScClosure

  // ---- when a delivered path is good ----

  /** A trace ends where packets arrive. */
  lemma ArrivalEnds(f: Fabric, start: PortId, dlid: Lid, trace: seq<Hop>, n: nat, dest: PortId)
    requires Startable(f, start) && !IsSwitch(f, start) && IsRoute(f, start, dlid, trace)
    requires Arrives(f, start, dlid, n) && At(f, start, dlid, n) == Some(dest) && !IsSwitch(f, dest)
    ensures EndsAt(trace, dest)
  {
    var w := Flow(f, start, dlid, {}, 0);
    RouteNotEmpty(f, start, dlid, trace);
    var m := |trace| - 1;
    TraceForwards(w, trace, m - 1);
    OnlyHere(f, start, dlid, 0, n);
    LastHop(f, start, dlid, trace);
    hide ValidFabric, IsRoute, At, Holds;
  }

  /** Packets arrive at the last port of a trace. */
  lemma LastHop(f: Fabric, start: PortId, dlid: Lid, trace: seq<Hop>)
    requires Startable(f, start) && !IsSwitch(f, start) && IsRoute(f, start, dlid, trace) && |trace| > 1
    requires At(f, start, dlid, |trace| - 2) == trace[|trace| - 1].entry
    ensures trace[|trace| - 1].exit == None ==> Arrives(f, start, dlid, |trace| - 2)
    ensures trace[|trace| - 1].exit != None ==>
              && Arrives(f, start, dlid, |trace| - 1) && At(f, start, dlid, |trace| - 1) == trace[|trace| - 1].exit
              && IsSwitch(f, trace[|trace| - 1].exit.value)
  {
    EntryTransit(f, start, dlid, trace);
    var last := trace[|trace| - 1];
    assert HopInDevice(f, last);
  }

  lemma EntryTransit(f: Fabric, start: PortId, dlid: Lid, trace: seq<Hop>)
    requires Startable(f, start) && !IsSwitch(f, start) && IsRoute(f, start, dlid, trace) && |trace| > 1
    ensures var p := trace[|trace| - 1].entry; p.Some? && p.value in f.ports && (IsSwitch(f, p.value) ==> f.ports[p.value].num != 0)
  {
    var m := |trace| - 1;
    assert HopInDevice(f, trace[m]) && HopInDevice(f, trace[m - 1]);
    assert trace[m - 1 + 1].entry == f.ports[trace[m - 1].exit.value].neighbor;
    assert ValidPort(f, trace[m - 1].exit.value);
  }

  /** All port numbers have slots and the source has one port only. */
  ghost predicate Small(f: Fabric, start: PortId) {
    && start in f.ports && (forall p :: p in f.ports ==> f.ports[p].num < MAX_CONNECTIONS)
    && forall p :: p in f.ports && f.ports[p].node == f.ports[start].node ==> p == start
  }

  lemma SmallFits(f: Fabric, t: Tables, p: Path, trace: seq<Hop>, usedSCs: seq<nat>, n: nat)
    requires ValidPath(f, p) && ValidTables(f, t) && Small(f, p.start) && PathEntered(f, t, p, trace, usedSCs)
    requires Delivered(f, p.start, p.dlid, 0) && Arrives(f, p.start, p.dlid, n) && At(f, p.start, p.dlid, n) == Some(p.dest)
    ensures PathFits(f, t, p, trace)
  {
    if !Direct(f, p.start, p.dest) {
      ArrivalEnds(f, p.start, p.dlid, trace, n, p.dest);
      var w := Flow(f, p.start, p.dlid, {}, 0);
      forall i: nat | i < |trace| - 1
        ensures Joined(f, trace, i)
      {
        TraceForwards(w, trace, i);
      }
      hide Delivered, IsRoute, ValidFabric;
      var key := (f.ports[p.start].node, p.dlid);
      assert key in t.route ==> OwnExit(f, key.0, t.route[(key.0, key.1)]);
    }
  }

  // ---- a destination with two LIDs ----

  /** FIs 0 and 1, the second with LIDs 2 and 3, at switches 2 and 3, which are joined
      by two cables, one for each LID. */
  function TwoLids(): Fabric {
    Fabric(map[
             0 := Port(0, 1, Some(10), 1, 0, true, None), 1 := Port(1, 1, Some(20), 2, 1, true, None),
             10 := Port(2, 1, Some(0), 0, 0, true, None), 11 := Port(2, 2, Some(21), 0, 0, true, None),
             12 := Port(2, 3, Some(22), 0, 0, true, None), 20 := Port(3, 1, Some(1), 0, 0, true, None),
             21 := Port(3, 2, Some(11), 0, 0, true, None), 22 := Port(3, 3, Some(12), 0, 0, true, None)],
           map[
             0 := Node(false, map[1 := 0], None), 1 := Node(false, map[1 := 1], None),
             2 := Node(true, map[1 := 10, 2 := 11, 3 := 12], Some([255, 1, 2, 3])),
             3 := Node(true, map[1 := 20, 2 := 21, 3 := 22], Some([255, 2, 1, 1]))])
  }

  const TWO_PATHS := [Path(0, 1, 1, 2), Path(0, 1, 1, 3)]

  lemma TwoPorts()
    ensures forall p :: p in TwoLids().ports ==> ValidPort(TwoLids(), p)
  {
  }

  lemma TwoNodes()
    ensures var f := TwoLids();
            forall n, k :: n in f.nodes && k in f.nodes[n].ports ==>
              && f.nodes[n].ports[k] in f.ports && f.ports[f.nodes[n].ports[k]].node == n && f.ports[f.nodes[n].ports[k]].num == k
  {
  }

  lemma TwoListed()
    ensures PortsListed(TwoLids())
  {
  }

  lemma TwoZero()
    ensures var f := TwoLids();
            forall p :: p in f.ports && IsSwitch(f, p) && f.ports[p].num == 0 ==> f.ports[p].neighbor == None
  {
  }

  lemma TwoValid()
    ensures ValidFabric(TwoLids()) && PortsListed(TwoLids())
    ensures forall i :: 0 <= i < |TWO_PATHS| ==> ValidPath(TwoLids(), TWO_PATHS[i])
  {
    TwoPorts();
    TwoNodes();
    TwoListed();
    TwoZero();
    TwoFacts();
    hide TwoLids, ValidPort, PortsListed;
  }

  lemma TwoFacts()
    ensures var f := TwoLids();
            && {0, 1, 10, 11, 12, 20, 21, 22} <= f.ports.Keys
            && f.ports[0].node == 0 && f.ports[0].num == 1 && f.ports[0].neighbor == Some(10)
            && f.ports[1].node == 1 && f.ports[12].node == 2 && f.ports[10].num == 1 && f.ports[11].num == 2 && f.ports[12].num == 3
            && f.ports[10].node == 2 && !IsSwitch(f, 0) && !IsSwitch(f, 1) && IsSwitch(f, 10)
  {
  }

  lemma TwoOwners()
    requires forall i :: 0 <= i < |TWO_PATHS| ==> ValidPath(TwoLids(), TWO_PATHS[i])
    ensures DevicesOf(TwoLids(), TWO_PATHS) == Devices(map[0 := 1, 1 := 2], [0, 1])
    ensures IsOwner(TwoLids(), 0, 1) && IsOwner(TwoLids(), 1, 2)
    ensures Holds(TwoLids(), 1, 2) && Holds(TwoLids(), 1, 3)
  {
    var f := TwoLids();
    hide ValidFabric;
    OrZero(1);
    assert Pow2(0) == 1 && Pow2(1) == 2;
    OrIsSum(1, 1, 1);
    assert TWO_PATHS[..1] == [TWO_PATHS[0]] && TWO_PATHS[..1][..0] == [];
    assert DevicesOf(f, TWO_PATHS[..1]) == WithPath(f, DevicesOf(f, TWO_PATHS[..1][..0]), TWO_PATHS[0]);
  }

  /** How packets to LIDs 2 and 3 go. */
  lemma TwoForwards()
    requires ValidFabric(TwoLids())
    ensures var f := TwoLids();
            && Exit(f, 10, 1) == Some(10) && Exit(f, 10, 2) == Some(11) && Exit(f, 10, 3) == Some(12)
            && Exit(f, 21, 2) == Some(20) && Exit(f, 22, 3) == Some(20) && Startable(f, 0)
            && Across(f, 11) == 21 && Across(f, 12) == 22 && Across(f, 20) == 1
  {
    hide ValidFabric;
  }

  lemma TwoFirst(dlid: Lid)
    requires ValidFabric(TwoLids()) && 2 <= dlid <= 3
    ensures var f := TwoLids(); Startable(f, 0) && At(f, 0, dlid, 0) == Some(10) && At(f, 0, dlid, 1) == Some(19 + dlid)
  {
    var f := TwoLids();
    TwoForwards();
    TwoFacts();
    assert At(f, 0, dlid, 0) == Some(10) && At(f, 0, dlid, 1) == Forward(f, 10, dlid) by {
      hide ValidFabric, Exit, TwoLids, Across, Forward;
    }
    hide ValidFabric, Exit, TwoLids, Across, At;
  }

  lemma TwoWay(dlid: Lid)
    requires ValidFabric(TwoLids()) && 2 <= dlid <= 3
    ensures var f := TwoLids();
            Startable(f, 0) && At(f, 0, dlid, 0) == Some(10) && At(f, 0, dlid, 1) == Some(19 + dlid) && At(f, 0, dlid, 2) == Some(1)
  {
    var f := TwoLids();
    TwoFirst(dlid);
    TwoForwards();
    TwoFacts();
    TwoLanes();
    assert At(f, 0, dlid, 2) == Forward(f, 19 + dlid, dlid) by {
      hide ValidFabric, Exit, TwoLids, Across, Forward;
    }
    hide ValidFabric, Exit, TwoLids, Across, At;
  }

  lemma TwoArrive(dlid: Lid)
    requires ValidFabric(TwoLids()) && 2 <= dlid <= 3 && Holds(TwoLids(), 1, dlid)
    ensures var f := TwoLids();
            && Startable(f, 0) && At(f, 0, dlid, 0) == Some(10) && At(f, 0, dlid, 2) == Some(1)
            && Arrives(f, 0, dlid, 2) && Delivered(f, 0, dlid, 0)
  {
    var f := TwoLids();
    TwoWay(dlid);
    TwoForwards();
    TwoFacts();
    TwoLanes();
    hide ValidFabric, Exit, Holds, TwoLids, Across, At;
    assert LaneAt(f, 0, dlid, 0, 0) == Some(Lane(0, 0));
    assert LaneAt(f, 0, dlid, 0, 1) == Some(Lane(0, 0));
    assert LaneAt(f, 0, dlid, 0, 2) == Some(Lane(0, 0));
    assert DeliveredAt(f, 0, dlid, 0, 2);
  }

  lemma TwoLanes()
    ensures var f := TwoLids(); forall p :: p in f.ports ==> f.ports[p].qos == None
    ensures var f := TwoLids(); f.ports[22].num == 3 && IsSwitch(f, 22) && f.ports[21].num == 2 && IsSwitch(f, 21)
  {
  }

  lemma TwoSmall()
    ensures Small(TwoLids(), 0)
  {
  }

  /** What packets to LID 3 use one after the other: the cable from FI 0, then the second
      cable between the switches. */
  const MISSED: (Conn, Conn) := (Conn(0, 1, 0), Conn(2, 3, 0))

  lemma MissedIsDep()
    requires ValidFabric(TwoLids()) && forall i :: 0 <= i < |TWO_PATHS| ==> ValidPath(TwoLids(), TWO_PATHS[i])
    requires At(TwoLids(), 0, 3, 0) == Some(10)
    ensures MISSED in FabricDeps(TwoLids(), {}, TWO_PATHS)
  {
    var f := TwoLids();
    var w := FlowOf(f, TWO_PATHS[1], {}, 0);
    TwoForwards();
    TwoFacts();
    hide ValidFabric, At, Exit, TwoLids, Levels;
    assert w.ExitAt(0) == Some(0) && w.ExitAt(1) == Some(12);
    assert w.Live(0) && w.Live(1);
    assert w.DepAt(0) == MISSED;
    DepInFabric(f, {}, TWO_PATHS, 1, 0, 0);
  }

  lemma MissedByAll(s: Setup, x: Item)
    requires ValidSetup(s) && s.f == TwoLids() && s.lid == map[0 := 1, 1 := 2] && ValidItem(s, x)
    ensures MISSED !in ItemDeps(s, x)
  {
    if MISSED in ItemDeps(s, x) {
      TwoForwards();
      TwoFacts();
      hide Trail, TwoLids, Exit, ValidTables, ValidFabric, PortsListed;
      TrailConsecutive(s, x, x.src, None, 0, MISSED);
      SameExit(s.f, s.t, 2, s.lid[x.dst], 10);
    }
  }

  lemma MissedByItems(s: Setup, fis: seq<NodeId>)
    requires ValidSetup(s) && s.f == TwoLids() && s.lid == map[0 := 1, 1 := 2] && ValidItems(s, SliceItems(s, fis, 0, |fis|))
    ensures MISSED !in ItemsDeps(s, multiset(SliceItems(s, fis, 0, |fis|)))
  {
    hide ValidSetup, TwoLids, SliceItems, ItemDeps;
    forall x | x in SliceItems(s, fis, 0, |fis|)
      ensures MISSED !in ItemDeps(s, x)
    {
      MissedByAll(s, x);
    }
  }

  /** Everything the run needs. */
  lemma TwoReady()
    ensures ValidFabric(TwoLids()) && PortsListed(TwoLids()) && Small(TwoLids(), 0) && Startable(TwoLids(), 0)
    ensures forall i :: 0 <= i < |TWO_PATHS| ==> ValidPath(TwoLids(), TWO_PATHS[i])
    ensures forall dlid: Lid :: 2 <= dlid <= 3 ==> Delivered(TwoLids(), 0, dlid, 0) && Arrives(TwoLids(), 0, dlid, 2) && At(TwoLids(), 0, dlid, 2) == Some(1)
    ensures DevicesOf(TwoLids(), TWO_PATHS).lid == map[0 := 1, 1 := 2]
    ensures forall n :: n in DevicesOf(TwoLids(), TWO_PATHS).lid ==> IsOwner(TwoLids(), n, DevicesOf(TwoLids(), TWO_PATHS).lid[n])
    ensures MISSED in FabricDeps(TwoLids(), {}, TWO_PATHS)
  {
    hide ValidFabric, PortsListed, ValidPath, IsOwner, TwoLids, DevicesOf, FabricDeps, Delivered, Startable, At, Exit, Small, Arrives;
    TwoValid();
    TwoOwners();
    TwoSmall();
    TwoArrive(2);
    TwoArrive(3);
    MissedIsDep();
  }

  lemma TwoGood(t: Tables, traces: seq<seq<Hop>>, usedSCs: seq<nat>)
    requires ValidTables(TwoLids(), t) && |traces| == |TWO_PATHS| && forall i :: 0 <= i < |TWO_PATHS| ==> ValidPath(TwoLids(), TWO_PATHS[i])
    requires Collected(TwoLids(), t, TWO_PATHS, traces, usedSCs)
    ensures Refused(TwoLids(), t, TWO_PATHS, traces) == {}
  {
    hide ValidFabric, PortsListed, ValidPath, TwoLids, DevicesOf, Startable, At, Small, Arrives, Delivered, PathFits, PathEntered, ValidTables,
         LinkFromPath, FromPath;
    TwoReady();
    SmallFits(TwoLids(), t, TWO_PATHS[0], traces[0], usedSCs, 2);
    SmallFits(TwoLids(), t, TWO_PATHS[1], traces[1], usedSCs, 2);
  }

  /** A run with one path to each of the two LIDs, both good: the dependencies of the
      second are in no walk. */
  method OtherLidMissed() returns (outcome: Outcome, bad: nat, ghost s: Setup, ghost fis: seq<NodeId>)
    ensures bad == 0 && MISSED in FabricDeps(TwoLids(), {}, TWO_PATHS)
    ensures ValidSetup(s) && s.f == TwoLids() && ValidItems(s, SliceItems(s, fis, 0, |fis|))
    ensures MISSED !in ItemsDeps(s, multiset(SliceItems(s, fis, 0, |fis|)))
  {
    hide *;
    TwoReady();
    var usedSLs, usedSCs;
    ghost var traces;
    outcome, bad, usedSLs, usedSCs, s, fis, traces := ValidateAllCreditLoopRoutes(TwoLids(), TWO_PATHS, false, [], [], []);
    MissedByItems(s, fis);
    TablesValid(s);
    TwoGood(s.t, traces, usedSCs);
  }

  lemma TablesValid(s: Setup)
    requires ValidSetup(s)
    ensures ValidTables(s.f, s.t)
  {
  }

  // ---- an SC without connections ----

  /** SLs to SCs, and SCs to VLs: everything to 0. */
  function Zeros(): SC.Table {
    seq(32, i => 0)
  }

  /** SCs to SCs: everything to 1. */
  function Ones(): SC.Table {
    seq(32, i => 1)
  }

  /** FIs 0 and 2 at switch 1, which moves packets towards its port 2 to SC 1. */
  function OneSwitch(): Fabric {
    Fabric(map[
             0 := Port(0, 1, Some(1), 1, 0, true, Some(Qos(Zeros(), Zeros(), map[]))),
             1 := Port(1, 1, Some(0), 0, 0, true, Some(Qos(Zeros(), Zeros(), map[2 := Ones()]))),
             2 := Port(1, 2, Some(3), 0, 0, true, Some(Qos(Zeros(), Zeros(), map[]))),
             3 := Port(2, 1, Some(2), 2, 0, true, Some(Qos(Zeros(), Zeros(), map[])))],
           map[
             0 := Node(false, map[1 := 0], None), 1 := Node(true, map[1 := 1, 2 := 2], Some([255, 1, 2])),
             2 := Node(false, map[1 := 3], None)])
  }

  /** The same QOS tables as the search for used SCs goes through them. */
  function Hosts(): seq<seq<SC.Table>> {
    [[Zeros()], [Zeros()]]
  }

  function Switches(): seq<SC.Switch> {
    [SC.Switch(2, [SC.Ingress(1, map[2 := Ones()]), SC.Ingress(2, map[])])]
  }

  const ONE_PATH := [Path(0, 3, 1, 2)]

  lemma OneValid()
    ensures ValidFabric(OneSwitch()) && PortsListed(OneSwitch()) && Small(OneSwitch(), 0)
    ensures forall i :: 0 <= i < |ONE_PATH| ==> ValidPath(OneSwitch(), ONE_PATH[i])
  {
    OnePorts();
    OneNodes();
    OneListed();
    OneSmall();
    OneZero();
    hide OneSwitch, ValidPort, PortsListed, Small;
  }

  lemma OneNodes()
    ensures var f := OneSwitch();
            && (forall n, k :: n in f.nodes && k in f.nodes[n].ports ==>
                  && f.nodes[n].ports[k] in f.ports && f.ports[f.nodes[n].ports[k]].node == n && f.ports[f.nodes[n].ports[k]].num == k)
            && 0 in f.ports && 3 in f.ports && f.ports[0].neighbor.Some? && !IsSwitch(f, 0) && !IsSwitch(f, 3)
  {
    hide Zeros, Ones;
  }

  lemma OneSmall()
    ensures Small(OneSwitch(), 0)
  {
    hide Zeros, Ones;
  }

  lemma OneListed()
    ensures PortsListed(OneSwitch())
  {
    hide Zeros, Ones;
  }

  lemma OneZero()
    ensures var f := OneSwitch();
            forall p :: p in f.ports && IsSwitch(f, p) && f.ports[p].num == 0 ==> f.ports[p].neighbor == None
  {
    hide Zeros, Ones;
  }

  lemma OnePorts()
    ensures forall p :: p in OneSwitch().ports ==> ValidPort(OneSwitch(), p)
  {
  }

  lemma OneOwners()
    requires forall i :: 0 <= i < |ONE_PATH| ==> ValidPath(OneSwitch(), ONE_PATH[i])
    ensures DevicesOf(OneSwitch(), ONE_PATH) == Devices(map[0 := 1, 2 := 2], [0, 2])
    ensures IsOwner(OneSwitch(), 0, 1) && IsOwner(OneSwitch(), 2, 2) && Holds(OneSwitch(), 3, 2)
  {
    var f := OneSwitch();
    hide ValidFabric, Zeros, Ones;
    OrZero(1);
    OrZero(2);
    assert Pow2(0) == 1;
    assert ONE_PATH[..0] == [];
    assert DevicesOf(f, ONE_PATH) == WithPath(f, DevicesOf(f, ONE_PATH[..0]), ONE_PATH[0]);
  }

  lemma OneWay()
    requires ValidFabric(OneSwitch())
    ensures var f := OneSwitch();
            && Startable(f, 0) && !IsSwitch(f, 0) && !IsSwitch(f, 3) && IsSwitch(f, 1) && Exit(f, 1, 2) == Some(2)
            && At(f, 0, 2, 0) == Some(1) && At(f, 0, 2, 1) == Some(3)
  {
    var f := OneSwitch();
    hide ValidFabric, Zeros, Ones;
    assert At(f, 0, 2, 1) == Forward(f, 1, 2);
  }

  lemma OneArrives()
    requires ValidFabric(OneSwitch()) && Holds(OneSwitch(), 3, 2)
    ensures Startable(OneSwitch(), 0) && Arrives(OneSwitch(), 0, 2, 1) && At(OneSwitch(), 0, 2, 1) == Some(3) && Delivered(OneSwitch(), 0, 2, 0)
  {
    var f := OneSwitch();
    OneWay();
    hide ValidFabric, At, Exit, Holds;
    assert LaneAt(f, 0, 2, 0, 0) == Some(Lane(0, 0));
    assert LaneAt(f, 0, 2, 0, 1) == NextLane(f, 1, 2, Lane(0, 0)) == Some(Lane(1, 0));
    assert DeliveredAt(f, 0, 2, 0, 1);
  }

  /** What the packets use one after the other. */
  const UNLINKED: (Conn, Conn) := (Conn(0, 1, 0), Conn(1, 2, 1))

  lemma UnlinkedIsDep()
    requires ValidFabric(OneSwitch()) && forall i :: 0 <= i < |ONE_PATH| ==> ValidPath(OneSwitch(), ONE_PATH[i])
    ensures UNLINKED in FabricDeps(OneSwitch(), {0}, ONE_PATH)
  {
    var f := OneSwitch();
    var w := FlowOf(f, ONE_PATH[0], {0}, 0);
    OneWay();
    hide ValidFabric, At, Exit, Levels;
    assert w.ExitAt(0) == Some(0) && w.ExitAt(1) == Some(2);
    assert w.ScAt(0) == 0 && w.ScAt(1) == 1;
    assert w.Live(0) && w.Live(1);
    assert w.DepAt(0) == UNLINKED;
    DepInFabric(f, {0}, ONE_PATH, 0, 0, 0);
  }

  /** The search finds SC 0 alone: the only table is for the last egress port. */
  lemma OnlyZeroFound(sc: nat)
    requires SC.Reachable(Hosts(), {0}, Switches(), false, sc)
    ensures sc == 0
  {
    var nodes, switches := Hosts(), Switches();
    var c :| SC.IsChain(switches, false, c) && SC.IsSeed(nodes, {0}, |nodes|, c[0]) && c[|c| - 1] == sc;
    assert forall x: nat :: SC.IsSeed(nodes, {0}, |nodes|, x) ==> x == 0;
    assert forall a: nat, b: nat :: !SC.Crossing(switches, false, a, b);
    hide SC.IsSeed, SC.Crossing;
    SC.ChainInside(nodes, {0}, switches, false, c, x => x == 0);
  }

  lemma NotLinkedAnywhere(t: Tables, traces: seq<seq<Hop>>, usedSCs: seq<nat>)
    requires |traces| == |ONE_PATH| && forall i :: 0 <= i < |ONE_PATH| ==> ValidPath(OneSwitch(), ONE_PATH[i])
    requires Collected(OneSwitch(), t, ONE_PATH, traces, usedSCs) && forall sc :: sc in usedSCs ==> sc == 0
    ensures UNLINKED.1 !in t.link
  {
    hide OneSwitch, PathEntered, FromPath, IsRoute, ValidPath;
    forall c | c in t.link
      ensures c.sc == 0
    {
      assert LinkFromPath(OneSwitch(), ONE_PATH, traces, usedSCs, c);
    }
  }

  lemma OneGood(t: Tables, traces: seq<seq<Hop>>, usedSCs: seq<nat>)
    requires ValidTables(OneSwitch(), t) && |traces| == |ONE_PATH| && forall i :: 0 <= i < |ONE_PATH| ==> ValidPath(OneSwitch(), ONE_PATH[i])
    requires Collected(OneSwitch(), t, ONE_PATH, traces, usedSCs)
    ensures Refused(OneSwitch(), t, ONE_PATH, traces) == {}
  {
    hide ValidFabric, PortsListed, ValidPath, OneSwitch, DevicesOf, Startable, At, Small, Arrives, Delivered, PathFits, PathEntered, ValidTables,
         LinkFromPath, FromPath;
    OneReady();
    SmallFits(OneSwitch(), t, ONE_PATH[0], traces[0], usedSCs, 1);
  }

  lemma OneReady()
    ensures ValidFabric(OneSwitch()) && PortsListed(OneSwitch()) && Small(OneSwitch(), 0) && Startable(OneSwitch(), 0)
    ensures forall i :: 0 <= i < |ONE_PATH| ==> ValidPath(OneSwitch(), ONE_PATH[i])
    ensures Arrives(OneSwitch(), 0, 2, 1) && At(OneSwitch(), 0, 2, 1) == Some(3) && Delivered(OneSwitch(), 0, 2, 0)
    ensures forall n :: n in DevicesOf(OneSwitch(), ONE_PATH).lid ==> IsOwner(OneSwitch(), n, DevicesOf(OneSwitch(), ONE_PATH).lid[n])
    ensures UNLINKED in FabricDeps(OneSwitch(), {0}, ONE_PATH)
  {
    hide ValidFabric, PortsListed, ValidPath, IsOwner, OneSwitch, DevicesOf, FabricDeps, Delivered, Startable, At, Exit, Small, Arrives;
    OneValid();
    OneOwners();
    OneArrives();
    UnlinkedIsDep();
  }

  lemma UnlinkedByItems(s: Setup, fis: seq<NodeId>)
    requires ValidSetup(s) && UNLINKED.1 !in s.t.link && ValidItems(s, SliceItems(s, fis, 0, |fis|))
    ensures UNLINKED !in ItemsDeps(s, multiset(SliceItems(s, fis, 0, |fis|)))
  {
    hide ValidSetup, SliceItems, ItemDeps;
    forall x | x in SliceItems(s, fis, 0, |fis|)
      ensures UNLINKED !in ItemDeps(s, x)
    {
      NotAdded(s, x, UNLINKED);
    }
  }

  lemma OnlySlZero(usedSLs: set<nat>)
    requires forall sl :: sl in usedSLs <==> sl in [0]
    ensures usedSLs == {0}
  {
    assert [0][0] == 0;
  }

  /** A run with one virtual fabric on SL 0 and one good path: the search for used SCs
      misses SC 1, so the switch gets no connection for it, and the only dependency is
      in no walk. */
  method UnlinkedMissed() returns (outcome: Outcome, bad: nat, usedSLs: set<nat>, usedSCs: seq<nat>, ghost s: Setup, ghost fis: seq<NodeId>)
    ensures bad == 0 && usedSLs == {0} && (forall sc :: sc in usedSCs ==> sc == 0)
    ensures UNLINKED in FabricDeps(OneSwitch(), {0}, ONE_PATH)
    ensures ValidSetup(s) && s.f == OneSwitch() && ValidItems(s, SliceItems(s, fis, 0, |fis|))
    ensures UNLINKED.1 !in s.t.link && UNLINKED !in ItemsDeps(s, multiset(SliceItems(s, fis, 0, |fis|)))
  {
    hide *;
    OneReady();
    ghost var traces;
    outcome, bad, usedSLs, usedSCs, s, fis, traces :=
      ValidateAllCreditLoopRoutes(OneSwitch(), ONE_PATH, true, [0], Hosts(), Switches());
    OnlySlZero(usedSLs);
    forall sc | sc in usedSCs
      ensures sc == 0
    {
      OnlyZeroFound(sc);
    }
    NotLinkedAnywhere(s.t, traces, usedSCs);
    UnlinkedByItems(s, fis);
    TablesValid(s);
    OneGood(s.t, traces, usedSCs);
  }
}
