/** Per-destination next-hop tables and connections collected from traced routes,
    and why following them always ends. */
module RouteTables {
  import opened Fabric
  import opened RouteWalk

  const MAX_CONNECTIONS: nat := 66

  /** A connection: the slot Connections[port][sc] of a device. */
  datatype Conn = Conn(dev: NodeId, port: nat, sc: nat)

  /** route gives the exit port of a device for a DLID, link the port at the far
      end of each connection. */
  datatype Tables = Tables(route: map<(NodeId, Lid), PortId>, link: map<Conn, PortId>)

  /** Leaving through x, forwarding of dlid crosses k more switches before it ends,
      at an FI port that owns dlid or inside a switch. */
  ghost predicate OnRoute(f: Fabric, x: PortId, dlid: Lid, k: nat)
    requires ValidFabric(f)
    decreases k
  {
    && x in f.ports && f.ports[x].neighbor.Some?
    && assert ValidPort(f, x);
       var q := f.ports[x].neighbor.value;
       if k == 0 then
         if IsSwitch(f, q) then Exit(f, q, dlid).Some? && f.ports[Exit(f, q, dlid).value].num == 0
         else Holds(f, q, dlid)
       else
         IsSwitch(f, q) && Exit(f, q, dlid).Some? && OnRoute(f, Exit(f, q, dlid).value, dlid, k - 1)
  }

  lemma {:induction false} OnRouteUnique(f: Fabric, x: PortId, dlid: Lid, k: nat, k': nat)
    requires ValidFabric(f) && OnRoute(f, x, dlid, k) && OnRoute(f, x, dlid, k')
    ensures k == k'
    decreases k
  {
    assert ValidPort(f, x);
    if k > 0 && k' > 0 {
      OnRouteUnique(f, Exit(f, f.ports[x].neighbor.value, dlid).value, dlid, k - 1, k' - 1);
    }
  }

  /** Every exit of a complete route to an FI is on that route. */
  lemma {:induction false} RouteExits(f: Fabric, start: PortId, dlid: Lid, hops: seq<Hop>, i: nat)
    requires Startable(f, start) && !IsSwitch(f, start) && IsRoute(f, start, dlid, hops)
    requires i < |hops| - 1
    ensures OnRoute(f, hops[i].exit.value, dlid, |hops| - 2 - i)
    decreases |hops| - i
  {
    var x := hops[i].exit.value;
    assert HopInDevice(f, hops[i]) && ValidPort(f, x);
    assert HopInDevice(f, hops[i + 1]);
    if i < |hops| - 2 {
      RouteExits(f, start, dlid, hops, i + 1);
      assert Exit(f, hops[i + 1].entry.value, dlid) == hops[i + 1].exit;
    }
  }

  /** Every table entry is a hop of some completed trace, every connection is a cable. */
  ghost predicate ValidTables(f: Fabric, t: Tables) {
    && ValidFabric(f)
    && (forall d, dlid :: (d, dlid) in t.route ==> OwnExit(f, d, t.route[(d, dlid)]) && Routed(f, t.route[(d, dlid)], dlid))
    && (forall c :: c in t.link ==> IsCable(f, c, t.link[c]))
  }

  ghost predicate OwnExit(f: Fabric, d: NodeId, x: PortId) {
    x in f.ports && f.ports[x].node == d
  }

  ghost predicate Routed(f: Fabric, x: PortId, dlid: Lid)
    requires ValidFabric(f)
  {
    && (exists k: nat :: OnRoute(f, x, dlid, k))
    && (x in f.ports && IsSwitch(f, x) ==> Exit(f, x, dlid) == Some(x))
  }

  /** Connection c runs over the cable that ends at port q. */
  ghost predicate IsCable(f: Fabric, c: Conn, q: PortId) {
    && q in f.ports && f.ports[q].neighbor.Some? && f.ports[q].neighbor.value in f.ports
    && f.ports[f.ports[q].neighbor.value].node == c.dev && f.ports[f.ports[q].neighbor.value].num == c.port
  }

  /** Every port is the one its node lists under its number, so that numbers
      identify the ports of a node. */
  ghost predicate PortsListed(f: Fabric) {
    forall p :: p in f.ports ==>
      && f.ports[p].node in f.nodes && f.ports[p].num in f.nodes[f.ports[p].node].ports
      && f.nodes[f.ports[p].node].ports[f.ports[p].num] == p
  }

  /** How many switches are left to cross when d sends on towards dlid. */
  ghost function Remaining(f: Fabric, t: Tables, d: NodeId, dlid: Lid): nat
    requires ValidTables(f, t) && (d, dlid) in t.route
  {
    assert Routed(f, t.route[(d, dlid)], dlid);
    var k: nat :| OnRoute(f, t.route[(d, dlid)], dlid, k);
    k
  }

  /** dst is the node of every FI port that owns dlid. */
  ghost predicate IsOwner(f: Fabric, dst: NodeId, dlid: Lid) {
    forall q :: q in f.ports && !IsSwitch(f, q) && Holds(f, q, dlid) ==> f.ports[q].node == dst
  }

  /** Following the tables to dlid either ends at its owner, runs out of table
      entries, or has fewer switches left to cross. */
  lemma NextHopCloser(f: Fabric, t: Tables, dlid: Lid, dst: NodeId, c: Conn)
    requires ValidTables(f, t) && PortsListed(f) && IsOwner(f, dst, dlid)
    requires (c.dev, dlid) in t.route && c in t.link && f.ports[t.route[(c.dev, dlid)]].num == c.port
    ensures var d := f.ports[t.link[c]].node;
            d == dst || (d, dlid) !in t.route || Remaining(f, t, d, dlid) < Remaining(f, t, c.dev, dlid)
  {
    var x, q := t.route[(c.dev, dlid)], t.link[c];
    assert OwnExit(f, c.dev, x) && IsCable(f, c, q);
    var back := f.ports[q].neighbor.value;
    assert x == back && ValidPort(f, q);
    assert f.ports[x].neighbor == Some(q);
    var k := Remaining(f, t, c.dev, dlid);
    assert OnRoute(f, x, dlid, k);
    var d := f.ports[q].node;
    if d != dst && (d, dlid) in t.route {
      assert k > 0;
      var next := Exit(f, q, dlid).value;
      SameExit(f, t, d, dlid, q);
      OnRouteUnique(f, next, dlid, Remaining(f, t, d, dlid), k - 1);
    }
  }

  /** At a switch the table agrees with the forwarding table, whichever trace put it there. */
  lemma SameExit(f: Fabric, t: Tables, d: NodeId, dlid: Lid, q: PortId)
    requires ValidTables(f, t) && (d, dlid) in t.route
    requires q in f.ports && IsSwitch(f, q) && f.ports[q].node == d && Exit(f, q, dlid).Some?
    ensures t.route[(d, dlid)] == Exit(f, q, dlid).value
  {
    assert Routed(f, t.route[(d, dlid)], dlid);
  }

  // ---- collecting the tables ----

  /** The database of devices, connections and routes under construction. */
  class Collector {
    var t: Tables
    var devices: Devices

    constructor ()
      ensures t == Tables(map[], map[]) && devices == Devices(map[], [])
    {
      t, devices := Tables(map[], map[]), Devices(map[], []);
    }

    /** The first mention of a device fixes its LID. */
    method AddDevice(n: NodeId, lid: Lid)
      modifies this`devices
      ensures devices == WithDevice(old(devices), n, lid)
    {
      if n !in devices.lid {
        devices := Devices(devices.lid[n := lid], devices.fis + [n]);
      }
    }

    /** Fails when the port number has no connection slot or the slot is taken by
        another cable. */
    method AddConnection(f: Fabric, p: PortId, q: PortId, sc: nat) returns (ok: bool)
      requires ValidTables(f, t) && p in f.ports && q in f.ports && f.ports[q].neighbor == Some(p)
      modifies this`t
      ensures ValidTables(f, t) && t.route == old(t.route)
      ensures var c := Conn(f.ports[p].node, f.ports[p].num, sc);
              && (ok ==> c in t.link)
              && t.link == if f.ports[p].num < MAX_CONNECTIONS && c !in old(t.link) then old(t.link)[c := q] else old(t.link)
      ensures ok <==> f.ports[p].num < MAX_CONNECTIONS
                      && (Conn(f.ports[p].node, f.ports[p].num, sc) in old(t.link) ==>
                            f.ports[old(t.link)[Conn(f.ports[p].node, f.ports[p].num, sc)]].node == f.ports[q].node
                            && f.ports[old(t.link)[Conn(f.ports[p].node, f.ports[p].num, sc)]].num == f.ports[q].num)
    {
      hide ValidFabric, Routed;
      var c := Conn(f.ports[p].node, f.ports[p].num, sc);
      if f.ports[p].num >= MAX_CONNECTIONS {
        return false;
      }
      if c in t.link {
        assert IsCable(f, c, t.link[c]);
        return f.ports[t.link[c]].node == f.ports[q].node && f.ports[t.link[c]].num == f.ports[q].num;
      }
      t := t.(link := t.link[c := q]);
      return true;
    }

    /** Fails when the device already sends this DLID through another port. */
    method AddRoute(f: Fabric, dlid: Lid, x: PortId) returns (ok: bool)
      requires ValidTables(f, t) && x in f.ports && Routed(f, x, dlid)
      modifies this`t
      ensures ValidTables(f, t) && t.link == old(t.link)
      ensures ok <==> ((f.ports[x].node, dlid) in old(t.route) ==> old(t.route)[(f.ports[x].node, dlid)] == x)
      ensures t.route == if ok then old(t.route)[(f.ports[x].node, dlid) := x] else old(t.route)
    {
      hide ValidFabric, Routed;
      var key := (f.ports[x].node, dlid);
      if key in t.route {
        assert t.route[key := t.route[key]] == t.route;
        return t.route[key] == x;
      }
      t := t.(route := t.route[key := x]);
      return true;
    }

    /** Connections in both directions over one hop, one per used SC where the
        sending port has QOS data, else for SC 0 alone. */
    method AddLinks(f: Fabric, p: PortId, q: PortId, usedSCs: seq<nat>) returns (ok: bool)
      requires ValidTables(f, t) && PortsListed(f) && p in f.ports && f.ports[p].neighbor == Some(q)
      modifies this`t
      ensures ValidTables(f, t) && t.route == old(t.route) && Extends(old(t), t)
      ensures q in f.ports && (ok <==> HasSlots(f, p, q))
      ensures ok ==> LinksEntered(f, t, p, q, HopScs(f, p, usedSCs))
      ensures OnlyOver(f, old(t), t, p, usedSCs)
    {
      hide ValidTables, PortsListed, Extends, LinksEntered, OnlyOver;
      NeighborBack(f, t, p, q);
      var scs := usedSCs;
      if |usedSCs| == 0 || f.ports[p].qos.None? {
        scs := [0];
      }
      ExtendsRefl(t);
      OverNothing(f, t, p, usedSCs);
      NoLinksEntered(f, t, p, q);
      for i := 0 to |scs|
        invariant ValidTables(f, t) && t.route == old(t.route) && Extends(old(t), t)
        invariant i > 0 ==> HasSlots(f, p, q)
        invariant LinksEntered(f, t, p, q, scs[..i]) && OnlyOver(f, old(t), t, p, usedSCs)
      {
        ghost var t0 := t;
        ok := AddBoth(f, p, q, scs[i]);
        ExtendsTrans(old(t), t0, t);
        OverStep(f, old(t), t0, t, p, q, scs[i], usedSCs);
        if !ok {
          return false;
        }
        LinksEnteredStep(f, t0, t, p, q, scs, i);
      }
      assert scs[..|scs|] == scs;
      return true;
    }

    method AddBoth(f: Fabric, p: PortId, q: PortId, sc: nat) returns (ok: bool)
      requires ValidTables(f, t) && PortsListed(f) && p in f.ports && q in f.ports
      requires f.ports[p].neighbor == Some(q) && f.ports[q].neighbor == Some(p)
      modifies this`t
      ensures ValidTables(f, t) && t.route == old(t.route) && Extends(old(t), t)
      ensures ok <==> HasSlots(f, p, q)
      ensures ok ==> LinkEntered(f, t, p, q, sc)
      ensures forall c :: c in t.link && c !in old(t.link) ==> IsEnd(f, p, c, sc) || IsEnd(f, q, c, sc)
    {
      hide ValidTables, PortsListed;
      LinkFits(f, t, p, q, sc);
      ok := AddConnection(f, p, q, sc);
      if ok {
        LinkFits(f, t, p, q, sc);
        LinkFits(f, t, q, p, sc);
        ok := AddConnection(f, q, p, sc);
        LinkFits(f, t, q, p, sc);
      }
    }

    /** Adds one path: traces it, and enters each of its hops until one is refused.
        Whatever the outcome, the tables hold only hops of completed traces; the path
        is good exactly if it is delivered to dest, its ports have connection slots
        and the source does not yet send to dlid through another port. */
    method GetRoute(f: Fabric, p: Path, usedSCs: seq<nat>) returns (good: bool, ghost trace: seq<Hop>)
      requires ValidTables(f, t) && PortsListed(f) && ValidPath(f, p)
      modifies this
      ensures ValidTables(f, t) && Extends(old(t), t) && devices == WithPath(f, old(devices), p)
      ensures Direct(f, p.start, p.dest) ==> good && t == old(t)
      ensures !Direct(f, p.start, p.dest) ==>
                (good <==> Delivered(f, p.start, p.dlid, 0) && IsRoute(f, p.start, p.dlid, trace) && EndsAt(trace, p.dest)
                           && TraceFits(f, trace, |trace| - 1) && StartFree(f, old(t), p.start, p.dlid))
      ensures !Direct(f, p.start, p.dest) && Delivered(f, p.start, p.dlid, 0) ==> IsRoute(f, p.start, p.dlid, trace)
      ensures !Direct(f, p.start, p.dest) && good ==> TraceEntered(f, t, p.dlid, trace, |trace| - 1, usedSCs)
      ensures OnlyNew(f, old(t), t, p.start, p.dlid) && OnlyAlong(f, old(t), t, p, trace, usedSCs)
    {
      hide ValidTables, ValidFabric, PortsListed, IsRoute, Delivered, Extends, TraceFits, TraceEntered, OnlyNew, OnlyAlong, OnlyOver;
      var start, dest, dlid := p.start, p.dest, p.dlid;
      AddDevice(f.ports[start].node, p.slid);
      AddDevice(f.ports[dest].node, dlid);
      AlongNothing(f, t, p, usedSCs);
      ExtendsRefl(t);
      NothingNew(f, t, start, dlid);
      trace := [];
      if start == dest || f.ports[start].neighbor == Some(dest) {
        return true, trace;
      }
      var status, hops;
      ghost var looped, crossed;
      status, hops, looped, crossed := WalkRoutePort(f, start, dlid, 0, _ => FSuccess);
      trace := hops;
      if status != FSuccess {
        return false, trace;
      }
      RouteNotEmpty(f, start, dlid, hops);
      NothingEntered(f, t, dlid, hops, usedSCs);
      for i := 1 to |hops|
        invariant ValidTables(f, t) && Extends(old(t), t) && devices == WithPath(f, old(devices), p)
        invariant OnlyAlong(f, old(t), t, p, hops, usedSCs)
        invariant TraceFits(f, hops, i - 1) && TraceEntered(f, t, dlid, hops, i - 1, usedSCs)
        invariant OnlyNew(f, old(t), t, start, dlid)
        invariant i == 1 ==> t == old(t)
        invariant i > 1 ==> StartFree(f, old(t), start, dlid)
      {
        ghost var t0 := t;
        HopLink(f, start, dlid, hops, i - 1);
        StepFits(f, hops, i - 1);
        var ok := AddHop(f, dlid, hops[i - 1].exit.value, hops[i].entry.value, usedSCs);
        ExtendsTrans(old(t), t0, t);
        NewStep(f, old(t), t0, t, start, dlid, hops[i - 1].exit.value);
        AlongStep(f, old(t), t0, t, p, hops, i - 1, usedSCs);
        if !ok {
          return false, trace;
        }
        StepEntered(f, t0, t, dlid, hops, i - 1, usedSCs);
      }
      return hops[|hops| - 1].entry == Some(dest) && hops[|hops| - 1].exit == None, trace;
    }

    /** Enters one hop: its connections, then its route entry. */
    method AddHop(f: Fabric, dlid: Lid, from: PortId, to: PortId, usedSCs: seq<nat>) returns (ok: bool)
      requires ValidTables(f, t) && PortsListed(f) && from in f.ports && f.ports[from].neighbor == Some(to) && Routed(f, from, dlid)
      modifies this`t
      ensures ValidTables(f, t) && Extends(old(t), t)
      ensures to in f.ports
      ensures ok <==> HasSlots(f, from, to) && (IsSwitch(f, from) || StartFree(f, old(t), from, dlid))
      ensures ok ==> HopEntered(f, t, dlid, from, to, usedSCs)
      ensures t.route == if ok then old(t.route)[(f.ports[from].node, dlid) := from] else old(t.route)
      ensures OnlyOver(f, old(t), t, from, usedSCs)
    {
      hide ValidTables, PortsListed, LinksEntered, Routed, HasSlots;
      RouteFits(f, t, dlid, from);
      ok := AddLinks(f, from, to, usedSCs);
      if ok {
        ghost var linked := t;
        ok := AddRoute(f, dlid, from);
        LinksStay(f, linked, t, from, to, HopScs(f, from, usedSCs));
      }
    }
  }

  /** One path to collect: from a LID of an FI port to a LID of another. */
  datatype Path = Path(start: PortId, dest: PortId, slid: Lid, dlid: Lid)

  /** The FIs in the order they were mentioned, and the LID that stands for each. */
  datatype Devices = Devices(lid: map<NodeId, Lid>, fis: seq<NodeId>)

  ghost function WithDevice(d: Devices, n: NodeId, lid: Lid): Devices {
    if n in d.lid then d else Devices(d.lid[n := lid], d.fis + [n])
  }

  ghost function WithPath(f: Fabric, d: Devices, p: Path): Devices
    requires ValidPath(f, p)
  {
    WithDevice(WithDevice(d, f.ports[p.start].node, p.slid), f.ports[p.dest].node, p.dlid)
  }

  /** The devices after all paths. */
  ghost function DevicesOf(f: Fabric, paths: seq<Path>): Devices
    requires forall i :: 0 <= i < |paths| ==> ValidPath(f, paths[i])
  {
    if paths == [] then Devices(map[], []) else WithPath(f, DevicesOf(f, paths[..|paths| - 1]), paths[|paths| - 1])
  }

  /** Node n is an end of path p, which gives it the LID. */
  ghost predicate Mentions(f: Fabric, p: Path, n: NodeId, lid: Lid)
    requires ValidPath(f, p)
  {
    (f.ports[p.start].node == n && lid == p.slid) || (f.ports[p.dest].node == n && lid == p.dlid)
  }

  /** Every FI is listed once. */
  ghost predicate Listed(d: Devices) {
    && (forall n :: n in d.fis <==> n in d.lid)
    && (forall i, j :: 0 <= i < j < |d.fis| ==> d.fis[i] != d.fis[j])
  }

  lemma DeviceListed(d: Devices, n: NodeId, lid: Lid)
    requires Listed(d)
    ensures Listed(WithDevice(d, n, lid)) && WithDevice(d, n, lid).lid.Keys == d.lid.Keys + {n}
  {
  }

  /** ... and exactly if some path mentions it. */
  lemma {:induction false} DevicesListed(f: Fabric, paths: seq<Path>)
    requires forall i :: 0 <= i < |paths| ==> ValidPath(f, paths[i])
    ensures Listed(DevicesOf(f, paths)) && forall n :: n in DevicesOf(f, paths).lid <==> !Unmentioned(f, paths, n)
  {
    hide Startable, Listed, WithDevice;
    if paths == [] {
      EmptyListed();
    } else {
      var m := |paths| - 1;
      DevicesListed(f, paths[..m]);
      var p, d := paths[m], DevicesOf(f, paths[..m]);
      DeviceListed(d, f.ports[p.start].node, p.slid);
      DeviceListed(WithDevice(d, f.ports[p.start].node, p.slid), f.ports[p.dest].node, p.dlid);
      forall n: NodeId
        ensures Unmentioned(f, paths, n) <==> Unmentioned(f, paths[..m], n) && !IsEndOf(f, p, n)
      {
        UnmentionedStep(f, paths, n);
      }
      hide Unmentioned;
    }
  }

  lemma UnmentionedStep(f: Fabric, paths: seq<Path>, n: NodeId)
    requires paths != [] && forall i :: 0 <= i < |paths| ==> ValidPath(f, paths[i])
    ensures Unmentioned(f, paths, n) <==> Unmentioned(f, paths[..|paths| - 1], n) && !IsEndOf(f, paths[|paths| - 1], n)
  {
    hide IsEndOf, ValidPath;
    assert forall i :: 0 <= i < |paths| - 1 ==> paths[..|paths| - 1][i] == paths[i];
  }

  lemma EmptyListed()
    ensures Listed(Devices(map[], []))
  {
  }

  /** The LID that stands for an FI is the one of its first mention. */
  lemma {:induction false} DevicesFirst(f: Fabric, paths: seq<Path>, n: NodeId)
    requires (forall i :: 0 <= i < |paths| ==> ValidPath(f, paths[i])) && n in DevicesOf(f, paths).lid
    ensures FirstMention(f, paths, n, DevicesOf(f, paths).lid[n])
  {
    hide Startable;
    var m := |paths| - 1;
    var rest := paths[..m];
    var d0, lid := DevicesOf(f, rest), DevicesOf(f, paths).lid[n];
    if n in d0.lid {
      DevicesFirst(f, rest, n);
      hide WithPath, Mentions, Unmentioned;
      var i :| 0 <= i < |rest| && Mentions(f, rest[i], n, lid) && Unmentioned(f, rest[..i], n);
      assert rest[..i] == paths[..i] && rest[i] == paths[i];
    } else {
      DevicesListed(f, rest);
      assert Mentions(f, paths[m], n, lid) && Unmentioned(f, paths[..m], n);
    }
  }

  ghost predicate IsEndOf(f: Fabric, p: Path, n: NodeId)
    requires ValidPath(f, p)
  {
    f.ports[p.start].node == n || f.ports[p.dest].node == n
  }

  ghost predicate Unmentioned(f: Fabric, paths: seq<Path>, n: NodeId)
    requires forall i :: 0 <= i < |paths| ==> ValidPath(f, paths[i])
  {
    forall i :: 0 <= i < |paths| ==> !IsEndOf(f, paths[i], n)
  }

  ghost predicate FirstMention(f: Fabric, paths: seq<Path>, n: NodeId, lid: Lid)
    requires forall i :: 0 <= i < |paths| ==> ValidPath(f, paths[i])
  {
    exists i :: 0 <= i < |paths| && Mentions(f, paths[i], n, lid) && Unmentioned(f, paths[..i], n)
  }

  ghost predicate ValidPath(f: Fabric, p: Path) {
    Startable(f, p.start) && p.start in f.ports && p.dest in f.ports && !IsSwitch(f, p.start) && !IsSwitch(f, p.dest)
  }

  /** Why a path is good, in terms of the finished tables: it needs no tracing, or is
      delivered to its port along the trace, all slots exist, and its source sends to
      the LID through no other port. */
  ghost predicate PathFits(f: Fabric, t: Tables, p: Path, trace: seq<Hop>)
    requires ValidPath(f, p)
  {
    Direct(f, p.start, p.dest)
    || (Delivered(f, p.start, p.dlid, 0) && IsRoute(f, p.start, p.dlid, trace) && EndsAt(trace, p.dest)
        && TraceFits(f, trace, |trace| - 1) && StartFree(f, t, p.start, p.dlid))
  }

  /** A delivered path is traced; with tracing, a good path has all its hops in the
      tables. */
  ghost predicate PathEntered(f: Fabric, t: Tables, p: Path, trace: seq<Hop>, usedSCs: seq<nat>)
    requires ValidPath(f, p)
  {
    !Direct(f, p.start, p.dest) ==>
      && (Delivered(f, p.start, p.dlid, 0) ==> IsRoute(f, p.start, p.dlid, trace))
      && (PathFits(f, t, p, trace) ==> TraceEntered(f, t, p.dlid, trace, |trace| - 1, usedSCs))
  }

  /** The route entry of key comes from one of the paths: from its start, or from a
      switch on its way. */
  ghost predicate FromPath(f: Fabric, paths: seq<Path>, key: (NodeId, Lid), x: PortId) {
    exists i :: 0 <= i < |paths| && IsOrigin(f, paths[i], key, x)
  }

  ghost predicate IsOrigin(f: Fabric, p: Path, key: (NodeId, Lid), x: PortId) {
    p.start in f.ports && !Direct(f, p.start, p.dest) && p.dlid == key.1 && x in f.ports && (x == p.start || IsSwitch(f, x))
  }

  /** The connection comes from a cable that one of the paths leaves through. */
  ghost predicate LinkFromPath(f: Fabric, paths: seq<Path>, traces: seq<seq<Hop>>, usedSCs: seq<nat>, c: Conn) {
    exists i :: 0 <= i < |traces| <= |paths| && LinkOf(f, paths[i], traces[i], usedSCs, c)
  }

  ghost predicate LinkOf(f: Fabric, p: Path, trace: seq<Hop>, usedSCs: seq<nat>, c: Conn) {
    && ValidPath(f, p) && !Direct(f, p.start, p.dest) && IsRoute(f, p.start, p.dlid, trace)
    && exists k :: 0 <= k < |trace| - 1 && trace[k].exit.Some? && LinkOver(f, trace[k].exit.value, usedSCs, c)
  }

  /** Connection c is at port p, on SC sc. */
  ghost predicate IsEnd(f: Fabric, p: PortId, c: Conn, sc: nat)
    requires p in f.ports
  {
    c == Conn(f.ports[p].node, f.ports[p].num, sc)
  }

  /** Connection c runs, in either direction, over the cable that leaves from x, on an
      SC that hops out of x get connections for. */
  ghost predicate LinkOver(f: Fabric, x: PortId, usedSCs: seq<nat>, c: Conn) {
    && x in f.ports && f.ports[x].neighbor.Some? && f.ports[x].neighbor.value in f.ports
    && c.sc in HopScs(f, x, usedSCs) && (IsEnd(f, x, c, c.sc) || IsEnd(f, f.ports[x].neighbor.value, c, c.sc))
  }

  /** New connections run over the cable that leaves from x. */
  ghost predicate OnlyOver(f: Fabric, t: Tables, t': Tables, x: PortId, usedSCs: seq<nat>) {
    forall c :: c in t'.link && c !in t.link ==> LinkOver(f, x, usedSCs, c)
  }

  lemma OverNothing(f: Fabric, t: Tables, x: PortId, usedSCs: seq<nat>)
    ensures OnlyOver(f, t, t, x, usedSCs)
  {
  }

  lemma OverStep(f: Fabric, t: Tables, t1: Tables, t2: Tables, p: PortId, q: PortId, sc: nat, usedSCs: seq<nat>)
    requires p in f.ports && q in f.ports && f.ports[p].neighbor == Some(q) && sc in HopScs(f, p, usedSCs)
    requires OnlyOver(f, t, t1, p, usedSCs)
    requires forall c :: c in t2.link && c !in t1.link ==> IsEnd(f, p, c, sc) || IsEnd(f, q, c, sc)
    ensures OnlyOver(f, t, t2, p, usedSCs)
  {
  }

  /** New connections run over cables that the traced path leaves through. */
  ghost predicate OnlyAlong(f: Fabric, t: Tables, t': Tables, p: Path, trace: seq<Hop>, usedSCs: seq<nat>) {
    forall c :: c in t'.link && c !in t.link ==> LinkOf(f, p, trace, usedSCs, c)
  }

  lemma AlongNothing(f: Fabric, t: Tables, p: Path, usedSCs: seq<nat>)
    ensures forall trace :: OnlyAlong(f, t, t, p, trace, usedSCs)
  {
  }

  lemma AlongStep(f: Fabric, t: Tables, t1: Tables, t2: Tables, p: Path, trace: seq<Hop>, k: nat, usedSCs: seq<nat>)
    requires ValidPath(f, p) && !Direct(f, p.start, p.dest) && IsRoute(f, p.start, p.dlid, trace)
    requires k < |trace| - 1 && trace[k].exit.Some?
    requires OnlyAlong(f, t, t1, p, trace, usedSCs) && OnlyOver(f, t1, t2, trace[k].exit.value, usedSCs)
    ensures OnlyAlong(f, t, t2, p, trace, usedSCs)
  {
    hide IsRoute, LinkOver, ValidFabric;
  }

  /** The refused paths. */
  ghost function Refused(f: Fabric, t: Tables, paths: seq<Path>, traces: seq<seq<Hop>>): set<nat>
    requires |traces| <= |paths| && forall i :: 0 <= i < |paths| ==> ValidPath(f, paths[i])
  {
    set i: nat | i < |traces| && !PathFits(f, t, paths[i], traces[i])
  }

  /** What collecting the first |traces| paths has achieved. */
  ghost predicate Collected(f: Fabric, t: Tables, paths: seq<Path>, traces: seq<seq<Hop>>, usedSCs: seq<nat>)
    requires |traces| <= |paths| && forall i :: 0 <= i < |paths| ==> ValidPath(f, paths[i])
  {
    && (forall i :: 0 <= i < |traces| ==> PathEntered(f, t, paths[i], traces[i], usedSCs))
    && (forall k :: k in t.route ==> FromPath(f, paths[..|traces|], k, t.route[k]))
    && (forall c :: c in t.link ==> LinkFromPath(f, paths, traces, usedSCs, c))
  }

  /** Collects the tables from all paths.  Every good path is in them completely,
      every route entry comes from a path, and bad counts the paths that are not good. */
  method CollectRoutes(f: Fabric, paths: seq<Path>, usedSCs: seq<nat>)
    returns (t: Tables, devices: Devices, bad: nat, ghost traces: seq<seq<Hop>>)
    requires ValidFabric(f) && PortsListed(f) && forall i :: 0 <= i < |paths| ==> ValidPath(f, paths[i])
    ensures ValidTables(f, t) && |traces| == |paths| && devices == DevicesOf(f, paths)
    ensures Collected(f, t, paths, traces, usedSCs)
    ensures bad == |Refused(f, t, paths, traces)|
  {
    hide ValidFabric, ValidTables, PortsListed, Collected, Refused, WithPath;
    var collector := new Collector();
    bad, traces := 0, [];
    NoTables(f, paths, usedSCs);
    for i := 0 to |paths|
      invariant fresh(collector) && ValidTables(f, collector.t) && |traces| == i
      invariant collector.devices == DevicesOf(f, paths[..i])
      invariant Collected(f, collector.t, paths, traces, usedSCs)
      invariant bad == |Refused(f, collector.t, paths, traces)|
    {
      ghost var t0 := collector.t;
      var good;
      ghost var trace;
      good, trace := collector.GetRoute(f, paths[i], usedSCs);
      assert paths[..i + 1][..i] == paths[..i];
      GoodIsFit(f, t0, collector.t, paths[i], trace, good, usedSCs);
      CollectedStep(f, t0, collector.t, paths, traces, trace, usedSCs);
      bad := bad + (if good then 0 else 1);
      traces := traces + [trace];
    }
    t, devices := collector.t, collector.devices;
    assert paths[..|paths|] == paths;
  }

  lemma NoTables(f: Fabric, paths: seq<Path>, usedSCs: seq<nat>)
    requires ValidFabric(f) && forall i :: 0 <= i < |paths| ==> ValidPath(f, paths[i])
    ensures ValidTables(f, Tables(map[], map[])) && Collected(f, Tables(map[], map[]), paths, [], usedSCs)
    ensures Refused(f, Tables(map[], map[]), paths, []) == {}
  {
  }

  /** The outcome of tracing a path can be read off the tables afterwards. */
  lemma GoodIsFit(f: Fabric, t: Tables, t': Tables, p: Path, trace: seq<Hop>, good: bool, usedSCs: seq<nat>)
    requires ValidPath(f, p) && Extends(t, t')
    requires Direct(f, p.start, p.dest) ==> good
    requires !Direct(f, p.start, p.dest) ==>
               (good <==> Delivered(f, p.start, p.dlid, 0) && IsRoute(f, p.start, p.dlid, trace) && EndsAt(trace, p.dest)
                          && TraceFits(f, trace, |trace| - 1) && StartFree(f, t, p.start, p.dlid))
    requires !Direct(f, p.start, p.dest) && good ==> TraceEntered(f, t', p.dlid, trace, |trace| - 1, usedSCs)
    requires !Direct(f, p.start, p.dest) && Delivered(f, p.start, p.dlid, 0) ==> IsRoute(f, p.start, p.dlid, trace)
    ensures good <==> PathFits(f, t', p, trace)
    ensures PathEntered(f, t', p, trace, usedSCs)
  {
    hide Delivered, TraceFits;
    if !Direct(f, p.start, p.dest) && good {
      StartEntered(f, t', p, trace, usedSCs);
    }
  }

  /** An entered trace starts with the entry of its source. */
  lemma StartEntered(f: Fabric, t: Tables, p: Path, trace: seq<Hop>, usedSCs: seq<nat>)
    requires ValidPath(f, p) && IsRoute(f, p.start, p.dlid, trace)
    requires TraceEntered(f, t, p.dlid, trace, |trace| - 1, usedSCs)
    ensures (f.ports[p.start].node, p.dlid) in t.route && t.route[(f.ports[p.start].node, p.dlid)] == p.start
    ensures t.link != map[]
  {
    RouteNotEmpty(f, p.start, p.dlid, trace);
    hide IsRoute, ValidFabric;
    assert Joined(f, trace, 0) && HopEntered(f, t, p.dlid, trace[0].exit.value, trace[1].entry.value, usedSCs);
    assert LinkEntered(f, t, trace[0].exit.value, trace[1].entry.value, HopScs(f, trace[0].exit.value, usedSCs)[0]);
  }

  /** Growing tables change nothing about the paths collected before. */
  lemma FitsStay(f: Fabric, t: Tables, t': Tables, p: Path, trace: seq<Hop>, usedSCs: seq<nat>)
    requires ValidPath(f, p) && Extends(t, t') && PathEntered(f, t, p, trace, usedSCs)
    ensures PathFits(f, t', p, trace) <==> PathFits(f, t, p, trace)
    ensures PathEntered(f, t', p, trace, usedSCs)
  {
    hide Delivered, TraceFits, IsRoute, TraceEntered, Extends;
    if PathFits(f, t, p, trace) && !Direct(f, p.start, p.dest) {
      StartEntered(f, t, p, trace, usedSCs);
      TraceStays(f, t, t', p.dlid, trace, |trace| - 1, usedSCs);
    }
    StartStays(f, t, t', p.start, p.dlid);
  }

  lemma StartStays(f: Fabric, t: Tables, t': Tables, p: PortId, dlid: Lid)
    requires p in f.ports && Extends(t, t')
    ensures StartFree(f, t', p, dlid) ==> StartFree(f, t, p, dlid)
    ensures (f.ports[p].node, dlid) in t.route && StartFree(f, t, p, dlid) ==> StartFree(f, t', p, dlid)
  {
  }

  lemma CollectedStep(f: Fabric, t: Tables, t': Tables, paths: seq<Path>, traces: seq<seq<Hop>>, trace: seq<Hop>, usedSCs: seq<nat>)
    requires |traces| < |paths| && forall i :: 0 <= i < |paths| ==> ValidPath(f, paths[i])
    requires Collected(f, t, paths, traces, usedSCs) && Extends(t, t')
    requires var p := paths[|traces|];
             && PathEntered(f, t', p, trace, usedSCs) && OnlyNew(f, t, t', p.start, p.dlid)
             && OnlyAlong(f, t, t', p, trace, usedSCs)
             && (Direct(f, p.start, p.dest) ==> t' == t)
    ensures Collected(f, t', paths, traces + [trace], usedSCs)
    ensures |Refused(f, t', paths, traces + [trace])| ==
              |Refused(f, t, paths, traces)| + (if PathFits(f, t', paths[|traces|], trace) then 0 else 1)
  {
    hide PathEntered, PathFits, IsRoute, Delivered, ValidPath, LinkFromPath, FromPath, OnlyAlong, OnlyNew, Extends;
    var n, traces' := |traces|, traces + [trace];
    forall i | 0 <= i < n
      ensures PathFits(f, t', paths[i], traces'[i]) <==> PathFits(f, t, paths[i], traces[i])
      ensures PathEntered(f, t', paths[i], traces'[i], usedSCs)
    {
      FitsStay(f, t, t', paths[i], traces[i], usedSCs);
    }
    OriginsStay(f, t, t', paths, n);
    LinksFromPaths(f, t, t', paths, traces, trace, usedSCs);
    assert Refused(f, t', paths, traces') ==
             Refused(f, t, paths, traces) + (if PathFits(f, t', paths[n], trace) then {} else {n});
  }

  lemma LinksFromPaths(f: Fabric, t: Tables, t': Tables, paths: seq<Path>, traces: seq<seq<Hop>>, trace: seq<Hop>, usedSCs: seq<nat>)
    requires |traces| < |paths| && OnlyAlong(f, t, t', paths[|traces|], trace, usedSCs)
    requires forall c :: c in t.link ==> LinkFromPath(f, paths, traces, usedSCs, c)
    ensures forall c :: c in t'.link ==> LinkFromPath(f, paths, traces + [trace], usedSCs, c)
  {
    hide LinkOf;
    var traces' := traces + [trace];
    forall c | c in t'.link
      ensures LinkFromPath(f, paths, traces', usedSCs, c)
    {
      if c in t.link {
        var i :| 0 <= i < |traces| && LinkOf(f, paths[i], traces[i], usedSCs, c);
        assert traces'[i] == traces[i];
      } else {
        assert traces'[|traces|] == trace;
      }
    }
  }

  lemma OriginsStay(f: Fabric, t: Tables, t': Tables, paths: seq<Path>, n: nat)
    requires n < |paths| && ValidPath(f, paths[n]) && Extends(t, t') && OnlyNew(f, t, t', paths[n].start, paths[n].dlid)
    requires Direct(f, paths[n].start, paths[n].dest) ==> t' == t
    requires forall k :: k in t.route ==> FromPath(f, paths[..n], k, t.route[k])
    ensures forall k :: k in t'.route ==> FromPath(f, paths[..n + 1], k, t'.route[k])
  {
    hide IsOrigin, ValidFabric;
    forall k | k in t'.route
      ensures FromPath(f, paths[..n + 1], k, t'.route[k])
    {
      if k in t.route {
        var i :| 0 <= i < n && IsOrigin(f, paths[..n][i], k, t.route[k]);
        assert paths[..n + 1][i] == paths[..n][i];
      } else {
        NewOrigin(f, t, t', paths[n], k);
        assert paths[..n + 1][n] == paths[n];
      }
    }
  }

  lemma NewOrigin(f: Fabric, t: Tables, t': Tables, p: Path, k: (NodeId, Lid))
    requires ValidPath(f, p) && OnlyNew(f, t, t', p.start, p.dlid) && k in t'.route && k !in t.route
    requires Direct(f, p.start, p.dest) ==> t' == t
    ensures IsOrigin(f, p, k, t'.route[k])
  {
  }

  /** New entries are for dlid, at the start or at a switch. */
  ghost predicate OnlyNew(f: Fabric, t: Tables, t': Tables, start: PortId, dlid: Lid) {
    forall k :: k in t'.route && k !in t.route ==>
      k.1 == dlid && t'.route[k] in f.ports && (t'.route[k] == start || IsSwitch(f, t'.route[k]))
  }

  lemma NothingNew(f: Fabric, t: Tables, start: PortId, dlid: Lid)
    ensures OnlyNew(f, t, t, start, dlid)
  {
  }

  lemma NewStep(f: Fabric, t: Tables, t1: Tables, t2: Tables, start: PortId, dlid: Lid, x: PortId)
    requires OnlyNew(f, t, t1, start, dlid) && x in f.ports && (x == start || IsSwitch(f, x))
    requires t2.route == t1.route || t2.route == t1.route[(f.ports[x].node, dlid) := x]
    ensures OnlyNew(f, t, t2, start, dlid)
  {
  }

  // ---- what has been entered ----

  /** The SCs a hop gets connections for. */
  ghost function HopScs(f: Fabric, p: PortId, usedSCs: seq<nat>): (scs: seq<nat>)
    requires p in f.ports
    ensures |scs| > 0
  {
    if |usedSCs| > 0 && f.ports[p].qos.Some? then usedSCs else [0]
  }

  /** Both port numbers have connection slots. */
  ghost predicate HasSlots(f: Fabric, p: PortId, q: PortId)
    requires p in f.ports && q in f.ports
  {
    f.ports[p].num < 66 && f.ports[q].num < 66
  }

  /** The device of p does not send to dlid through another port. */
  ghost predicate StartFree(f: Fabric, t: Tables, p: PortId, dlid: Lid)
    requires p in f.ports
  {
    (f.ports[p].node, dlid) in t.route ==> t.route[(f.ports[p].node, dlid)] == p
  }

  /** Nothing to trace: loopback or a single cable. */
  ghost predicate Direct(f: Fabric, start: PortId, dest: PortId)
    requires start in f.ports
  {
    start == dest || f.ports[start].neighbor == Some(dest)
  }

  ghost predicate EndsAt(trace: seq<Hop>, dest: PortId) {
    |trace| > 0 && trace[|trace| - 1].entry == Some(dest) && trace[|trace| - 1].exit == None
  }

  /** Tables only grow. */
  ghost predicate Extends(t: Tables, t': Tables) {
    && (forall k :: k in t.route ==> k in t'.route && t'.route[k] == t.route[k])
    && (forall c :: c in t.link ==> c in t'.link && t'.link[c] == t.link[c])
  }

  ghost predicate LinkEntered(f: Fabric, t: Tables, p: PortId, q: PortId, sc: nat)
    requires p in f.ports && q in f.ports
  {
    var c, d := Conn(f.ports[p].node, f.ports[p].num, sc), Conn(f.ports[q].node, f.ports[q].num, sc);
    c in t.link && t.link[c] == q && d in t.link && t.link[d] == p
  }

  ghost predicate LinksEntered(f: Fabric, t: Tables, p: PortId, q: PortId, scs: seq<nat>)
    requires p in f.ports && q in f.ports
  {
    forall i :: 0 <= i < |scs| ==> LinkEntered(f, t, p, q, scs[i])
  }

  ghost predicate HopEntered(f: Fabric, t: Tables, dlid: Lid, p: PortId, q: PortId, usedSCs: seq<nat>)
    requires p in f.ports && q in f.ports
  {
    && LinksEntered(f, t, p, q, HopScs(f, p, usedSCs))
    && (f.ports[p].node, dlid) in t.route && t.route[(f.ports[p].node, dlid)] == p
  }

  /** hops[i] and hops[i + 1] are joined by a cable of the fabric. */
  ghost predicate Joined(f: Fabric, hops: seq<Hop>, i: nat)
    requires i < |hops| - 1
  {
    hops[i].exit.Some? && hops[i].exit.value in f.ports && hops[i + 1].entry.Some? && hops[i + 1].entry.value in f.ports
  }

  /** The first n cables of the trace have connection slots at both ends. */
  ghost predicate TraceFits(f: Fabric, hops: seq<Hop>, n: int) {
    forall i: nat :: i < n < |hops| ==> Joined(f, hops, i) && HasSlots(f, hops[i].exit.value, hops[i + 1].entry.value)
  }

  /** The first n cables of the trace are in the tables. */
  ghost predicate TraceEntered(f: Fabric, t: Tables, dlid: Lid, hops: seq<Hop>, n: int, usedSCs: seq<nat>) {
    forall i: nat :: i < n < |hops| ==> Joined(f, hops, i) && HopEntered(f, t, dlid, hops[i].exit.value, hops[i + 1].entry.value, usedSCs)
  }

  lemma ExtendsRefl(t: Tables)
    ensures Extends(t, t)
  {
  }

  lemma ExtendsTrans(t: Tables, t1: Tables, t2: Tables)
    requires Extends(t, t1) && Extends(t1, t2)
    ensures Extends(t, t2)
  {
  }

  lemma NoLinksEntered(f: Fabric, t: Tables, p: PortId, q: PortId)
    requires p in f.ports && q in f.ports
    ensures LinksEntered(f, t, p, q, [])
  {
  }

  lemma LinksEnteredStep(f: Fabric, t: Tables, t': Tables, p: PortId, q: PortId, scs: seq<nat>, i: nat)
    requires p in f.ports && q in f.ports && i < |scs| && LinksEntered(f, t, p, q, scs[..i]) && Extends(t, t')
    requires LinkEntered(f, t', p, q, scs[i])
    ensures LinksEntered(f, t', p, q, scs[..i + 1])
  {
    forall j | 0 <= j < i
      ensures LinkEntered(f, t', p, q, scs[j])
    {
      assert LinkEntered(f, t, p, q, scs[..i][j]);
    }
  }

  /** A connection slot in use is in use for the one cable of its port. */
  lemma LinkFits(f: Fabric, t: Tables, p: PortId, q: PortId, sc: nat)
    requires ValidTables(f, t) && PortsListed(f) && p in f.ports && f.ports[p].neighbor == Some(q)
    ensures var c := Conn(f.ports[p].node, f.ports[p].num, sc); c in t.link ==> t.link[c] == q
  {
    var c := Conn(f.ports[p].node, f.ports[p].num, sc);
    if c in t.link {
      var r := t.link[c];
      assert IsCable(f, c, r) && ValidPort(f, r) && ValidPort(f, p);
      assert f.ports[r].neighbor.value == p;
    }
  }

  /** A switch never refuses a route entry. */
  lemma RouteFits(f: Fabric, t: Tables, dlid: Lid, x: PortId)
    requires ValidTables(f, t) && x in f.ports && Routed(f, x, dlid)
    ensures IsSwitch(f, x) ==> StartFree(f, t, x, dlid)
  {
    var key := (f.ports[x].node, dlid);
    if IsSwitch(f, x) && key in t.route {
      SameExit(f, t, f.ports[x].node, dlid, x);
    }
  }

  lemma NothingEntered(f: Fabric, t: Tables, dlid: Lid, hops: seq<Hop>, usedSCs: seq<nat>)
    ensures TraceFits(f, hops, 0) && TraceEntered(f, t, dlid, hops, 0, usedSCs)
  {
  }

  lemma StepFits(f: Fabric, hops: seq<Hop>, i: nat)
    requires i < |hops| - 1 && Joined(f, hops, i)
    ensures TraceFits(f, hops, i + 1) <==> TraceFits(f, hops, i) && HasSlots(f, hops[i].exit.value, hops[i + 1].entry.value)
    ensures TraceFits(f, hops, |hops| - 1) ==> TraceFits(f, hops, i + 1)
  {
  }

  lemma StepEntered(f: Fabric, t: Tables, t': Tables, dlid: Lid, hops: seq<Hop>, i: nat, usedSCs: seq<nat>)
    requires i < |hops| - 1 && Joined(f, hops, i) && TraceEntered(f, t, dlid, hops, i, usedSCs) && Extends(t, t')
    requires HopEntered(f, t', dlid, hops[i].exit.value, hops[i + 1].entry.value, usedSCs)
    ensures TraceEntered(f, t', dlid, hops, i + 1, usedSCs)
  {
    hide HopEntered;
    TraceStays(f, t, t', dlid, hops, i, usedSCs);
  }

  lemma TraceStays(f: Fabric, t: Tables, t': Tables, dlid: Lid, hops: seq<Hop>, n: nat, usedSCs: seq<nat>)
    requires TraceEntered(f, t, dlid, hops, n, usedSCs) && Extends(t, t')
    ensures TraceEntered(f, t', dlid, hops, n, usedSCs)
  {
    hide LinksEntered;
    forall j: nat | j < n < |hops|
      ensures Joined(f, hops, j) && HopEntered(f, t', dlid, hops[j].exit.value, hops[j + 1].entry.value, usedSCs)
    {
      assert Joined(f, hops, j) && HopEntered(f, t, dlid, hops[j].exit.value, hops[j + 1].entry.value, usedSCs);
      LinksStay(f, t, t', hops[j].exit.value, hops[j + 1].entry.value, HopScs(f, hops[j].exit.value, usedSCs));
    }
  }

  lemma LinksStay(f: Fabric, t: Tables, t': Tables, p: PortId, q: PortId, scs: seq<nat>)
    requires p in f.ports && q in f.ports && LinksEntered(f, t, p, q, scs) && Extends(t, t')
    ensures LinksEntered(f, t', p, q, scs)
  {
    forall i | 0 <= i < |scs|
      ensures LinkEntered(f, t', p, q, scs[i])
    {
      assert LinkEntered(f, t, p, q, scs[i]);
    }
  }

  lemma RouteNotEmpty(f: Fabric, start: PortId, dlid: Lid, hops: seq<Hop>)
    requires Startable(f, start) && !IsSwitch(f, start) && IsRoute(f, start, dlid, hops)
    ensures |hops| > 1 && hops[0].exit == Some(start)
  {
    assert HopInDevice(f, hops[0]);
  }

  lemma NeighborBack(f: Fabric, t: Tables, p: PortId, q: PortId)
    requires ValidTables(f, t) && p in f.ports && f.ports[p].neighbor == Some(q)
    ensures q in f.ports && f.ports[q].neighbor == Some(p)
  {
    assert ValidPort(f, p);
  }

  lemma HopLink(f: Fabric, start: PortId, dlid: Lid, hops: seq<Hop>, i: nat)
    requires Startable(f, start) && !IsSwitch(f, start) && IsRoute(f, start, dlid, hops)
    requires i < |hops| - 1
    ensures hops[i].exit.Some? && hops[i].exit.value in f.ports && hops[i + 1].entry.Some?
    ensures f.ports[hops[i].exit.value].neighbor == hops[i + 1].entry
    ensures Routed(f, hops[i].exit.value, dlid) && Joined(f, hops, i)
    ensures if i == 0 then hops[i].exit == Some(start) else IsSwitch(f, hops[i].exit.value)
  {
    RouteExits(f, start, dlid, hops, i);
    assert HopInDevice(f, hops[i]);
    var x := hops[i].exit.value;
    if i > 0 {
      assert hops[i - 1 + 1].entry == f.ports[hops[i - 1].exit.value].neighbor;
      assert Exit(f, hops[i].entry.value, dlid) == Some(x);
    } else {
      assert x == start;
    }
  }
}
