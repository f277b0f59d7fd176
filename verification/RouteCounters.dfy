/** Path counters tabulated from walked routes: what they count, and their conservation. */
module RouteCounters {
  import opened Bits
  import opened Fabric
  import opened RouteWalk

  const COUNTER: nat := 0x1_0000_0000

  datatype Way = In | Out

  ghost function Side(h: Hop, way: Way): Option<PortId> {
    if way.In? then h.entry else h.exit
  }

  /** How many of the hops go through p that way. */
  ghost function Passed(hops: seq<Hop>, way: Way, p: PortId): nat {
    if hops == [] then 0
    else Passed(hops[..|hops| - 1], way, p) + (if Side(hops[|hops| - 1], way) == Some(p) then 1 else 0)
  }

  ghost predicate Cabled(f: Fabric, p: PortId, q: PortId) {
    p in f.ports && f.ports[p].neighbor == Some(q)
  }

  /** Along linked hops, what the first n send over a cable the first n + 1 receive. */
  lemma {:induction false} LinkedConserves(f: Fabric, hops: seq<Hop>, p: PortId, q: PortId, n: nat)
    requires ValidFabric(f) && Linked(f, hops) && Cabled(f, p, q) && n < |hops| && hops[0].entry == None
    ensures Passed(hops[..n], Out, p) == Passed(hops[..n + 1], In, q)
  {
    assert hops[..n + 1][..n] == hops[..n];
    if n > 0 {
      LinkedConserves(f, hops, p, q, n - 1);
      assert hops[..n][..n - 1] == hops[..n - 1];
      var x := hops[n - 1].exit.value;
      assert ValidPort(f, x) && ValidPort(f, p);
      assert x == p <==> hops[n].entry == Some(q);
    } else {
      assert hops[..0] == [];
    }
  }

  /** A complete route from an FI sends over each cable as often as it is received. */
  lemma RouteConserves(f: Fabric, start: PortId, dlid: Lid, hops: seq<Hop>, p: PortId, q: PortId)
    requires Startable(f, start) && !IsSwitch(f, start) && IsRoute(f, start, dlid, hops) && Cabled(f, p, q)
    ensures Passed(hops, Out, p) == Passed(hops, In, q)
  {
    LinkedConserves(f, hops, p, q, |hops| - 1);
    assert hops[..|hops|] == hops;
  }

  // ---- the hops of a path, told by forwarding ----

  /** Hop n of a path on SL 0 goes through p.  Out of: the FI it starts at for n = 0,
      else the nth switch crossed.  Into: the switch crossed after n others, or the FI it
      is delivered to. */
  ghost predicate PassesAt(f: Fabric, start: PortId, dlid: Lid, way: Way, n: nat, p: PortId)
    requires Startable(f, start)
  {
    match way
    case Out =>
      if n == 0 then p == start && FirstLane(f, start, 0).Some?
      else Taken(f, start, dlid, 0, n - 1) && Exit(f, At(f, start, dlid, n - 1).value, dlid) == Some(p)
    case In =>
      && At(f, start, dlid, n) == Some(p)
      && (Taken(f, start, dlid, 0, n) || (!IsSwitch(f, p) && DeliveredAt(f, start, dlid, 0, n)))
  }

  ghost function UsesBelow(f: Fabric, start: PortId, dlid: Lid, way: Way, p: PortId, m: nat): set<nat>
    requires Startable(f, start)
  {
    set n: nat | n < m && PassesAt(f, start, dlid, way, n, p)
  }

  /** The hops of the path from start to dlid that go through p. */
  ghost function Uses(f: Fabric, start: PortId, dlid: Lid, way: Way, p: PortId): set<nat>
    requires Startable(f, start)
  {
    set n: nat | n <= 64 && PassesAt(f, start, dlid, way, n, p)
  }

  lemma UsesStep(f: Fabric, start: PortId, dlid: Lid, way: Way, p: PortId, m: nat)
    requires Startable(f, start)
    ensures |UsesBelow(f, start, dlid, way, p, m + 1)|
            == |UsesBelow(f, start, dlid, way, p, m)| + if PassesAt(f, start, dlid, way, m, p) then 1 else 0
  {
    hide PassesAt, ValidFabric;
    var s := UsesBelow(f, start, dlid, way, p, m);
    assert UsesBelow(f, start, dlid, way, p, m + 1) == if PassesAt(f, start, dlid, way, m, p) then s + {m} else s;
  }

  lemma {:induction false} TakenEarlier(f: Fabric, start: PortId, dlid: Lid, sl: nat, m: nat, n: nat)
    requires Startable(f, start) && sl < 32 && m <= n && Taken(f, start, dlid, sl, n)
    ensures Taken(f, start, dlid, sl, m)
  {
    if m < n {
      TakenEarlier(f, start, dlid, sl, m, n - 1);
    }
  }

  lemma PassedStep(hops: seq<Hop>, h: Hop, way: Way, p: PortId)
    ensures Passed(hops + [h], way, p) == Passed(hops, way, p) + if Side(h, way) == Some(p) then 1 else 0
  {
    assert (hops + [h])[..|hops|] == hops;
  }

  /** The callbacks for the first k switches, counted. */
  lemma {:induction false} CallsCount(f: Fabric, start: PortId, dlid: Lid, way: Way, p: PortId, k: nat)
    requires Startable(f, start) && !IsSwitch(f, start) && FirstLane(f, start, 0).Some?
    requires k > 0 ==> Taken(f, start, dlid, 0, k - 1)
    ensures Passed(Calls(f, start, dlid, 0, k), way, p) == |UsesBelow(f, start, dlid, way, p, if way.In? then k else k + 1)|
  {
    hide At, ValidFabric, FirstLane, Exit, LaneAt, UsesBelow, Passed;
    if k == 0 {
      PassedStep([], Hop(None, Some(start), FirstLane(f, start, 0).value.vl), way, p);
      UsesNone(f, start, dlid, way, p);
      UsesStep(f, start, dlid, way, p, 0);
      assert [] + Calls(f, start, dlid, 0, 0) == Calls(f, start, dlid, 0, 0);
    } else {
      CallsCount(f, start, dlid, way, p, k - 1);
      var q := At(f, start, dlid, k - 1);
      PassedStep(Calls(f, start, dlid, 0, k - 1), Hop(q, Exit(f, q.value, dlid), LaneAt(f, start, dlid, 0, k).value.vl), way, p);
      UsesStep(f, start, dlid, way, p, if way.In? then k - 1 else k);
    }
  }

  lemma UsesNone(f: Fabric, start: PortId, dlid: Lid, way: Way, p: PortId)
    requires Startable(f, start)
    ensures UsesBelow(f, start, dlid, way, p, 0) == {} && Passed([], way, p) == 0
  {
    hide PassesAt, ValidFabric;
  }

  /** Nothing goes past the place where the walk stops. */
  lemma StopsThere(f: Fabric, start: PortId, dlid: Lid, way: Way, p: PortId, k: nat, status: Status, hops: seq<Hop>, n: nat)
    requires Startable(f, start) && StopsAfter(f, start, dlid, 0, k, status, hops)
    requires status == FSuccess <==> Delivered(f, start, dlid, 0)
    requires n <= 64 && PassesAt(f, start, dlid, way, n, p)
    ensures way.Out? ==> n <= k
    ensures way.In? ==> n < k || (n == k && status == FSuccess && At(f, start, dlid, k) == Some(p) && !IsSwitch(f, p))
  {
    hide At, ValidFabric, Exit, LaneAt, Calls, Transit;
    if way.Out? {
      if n > k {
        TakenEarlier(f, start, dlid, 0, k, n - 1);
      }
    } else if n >= k {
      if Taken(f, start, dlid, 0, n) {
        TakenEarlier(f, start, dlid, 0, k, n);
      } else {
        OnlyHere(f, start, dlid, 0, k);
      }
    }
  }

  /** What a walk calls back for is what forwarding says it goes through. */
  lemma RouteCount(f: Fabric, start: PortId, dlid: Lid, way: Way, p: PortId, k: nat, status: Status, hops: seq<Hop>)
    requires Startable(f, start) && !IsSwitch(f, start) && StopsAfter(f, start, dlid, 0, k, status, hops)
    requires status == FSuccess <==> Delivered(f, start, dlid, 0)
    ensures Passed(hops, way, p) == |Uses(f, start, dlid, way, p)|
  {
    hide At, ValidFabric, Exit, LaneAt, Calls, Transit, Taken, Delivered, FirstLane, Passed, PassesAt;
    if FirstLane(f, start, 0).None? {
      NeverUsed(f, start, dlid, way, p, k, status, hops);
    } else {
      CallsCount(f, start, dlid, way, p, k);
      var m := if way.In? then k else k + 1;
      forall n: nat | n <= 64 && PassesAt(f, start, dlid, way, n, p)
        ensures n < m || (n == m == k && way.In?)
      {
        StopsThere(f, start, dlid, way, p, k, status, hops, n);
      }
      LastHop(f, start, dlid, way, p, k, status, hops);
      UsesStep(f, start, dlid, way, p, k);
      assert Uses(f, start, dlid, way, p) == UsesBelow(f, start, dlid, way, p, k + 1);
    }
  }

  lemma LastHop(f: Fabric, start: PortId, dlid: Lid, way: Way, p: PortId, k: nat, status: Status, hops: seq<Hop>)
    requires Startable(f, start) && StopsAfter(f, start, dlid, 0, k, status, hops)
    requires status == FSuccess <==> Delivered(f, start, dlid, 0)
    ensures k <= 64
    ensures Passed(hops, way, p) == Passed(Calls(f, start, dlid, 0, k), way, p)
                                    + if way.In? && PassesAt(f, start, dlid, way, k, p) then 1 else 0
  {
    hide At, ValidFabric, Exit, LaneAt, Calls, Transit, Passed;
    var q := At(f, start, dlid, k);
    if status == FSuccess {
      OnlyHere(f, start, dlid, 0, k);
      if !IsSwitch(f, q.value) {
        PassedStep(Calls(f, start, dlid, 0, k), Hop(q, None, LaneAt(f, start, dlid, 0, k).value.vl), way, p);
      }
    }
    assert Calls(f, start, dlid, 0, k) + [] == Calls(f, start, dlid, 0, k);
  }

  lemma NeverUsed(f: Fabric, start: PortId, dlid: Lid, way: Way, p: PortId, k: nat, status: Status, hops: seq<Hop>)
    requires Startable(f, start) && StopsAfter(f, start, dlid, 0, k, status, hops) && FirstLane(f, start, 0).None?
    ensures Passed(hops, way, p) == 0 && Uses(f, start, dlid, way, p) == {}
  {
    hide At, ValidFabric, Exit, Transit, FirstLane;
    forall n: nat
      ensures LaneAt(f, start, dlid, 0, n).None?
    {
      LaneEarlier(f, start, dlid, 0, 0, n);
    }
    hide LaneAt;
  }

  // ---- the paths between two ports ----

  /** The hops through p of the paths to the first m LIDs of a port. */
  ghost function PairUses(f: Fabric, p1: PortId, p2: PortId, m: nat, way: Way, p: PortId): set<(nat, nat)>
    requires Startable(f, p1) && p2 in f.ports
  {
    set k: nat, n: nat | k < m && n in Uses(f, p1, BitOr(f.ports[p2].lid, k), way, p) :: (k, n)
  }

  lemma Extends<A(!new)>(was: set<(A, nat)>, now: set<(A, nat)>, a: A, s: set<nat>)
    requires forall x, n :: (x, n) in now <==> (x, n) in was || (x == a && n in s)
    requires forall n :: (a, n) !in was
    ensures |now| == |was| + |s|
  {
    TaggedSize(a, s);
    hide Tagged;
    assert now == was + Tagged(a, s);
    assert was !! Tagged(a, s);
  }

  ghost function Tagged<A(!new)>(a: A, s: set<nat>): (t: set<(A, nat)>)
    ensures forall x :: x in t <==> x.0 == a && x.1 in s
  {
    set n | n in s :: (a, n)
  }

  lemma {:induction false} TaggedSize<A(!new)>(a: A, s: set<nat>)
    ensures |Tagged(a, s)| == |s|
    decreases s
  {
    if s != {} {
      var x :| x in s;
      TaggedSize(a, s - {x});
      assert Tagged(a, s) == Tagged(a, s - {x}) + {(a, x)};
    } else {
      assert Tagged(a, s) == {};
    }
  }

  lemma PairStep(f: Fabric, p1: PortId, p2: PortId, m: nat, way: Way, p: PortId)
    requires Startable(f, p1) && p2 in f.ports
    ensures |PairUses(f, p1, p2, m + 1, way, p)|
            == |PairUses(f, p1, p2, m, way, p)| + |Uses(f, p1, BitOr(f.ports[p2].lid, m), way, p)|
  {
    hide Uses, ValidFabric;
    Extends(PairUses(f, p1, p2, m, way, p), PairUses(f, p1, p2, m + 1, way, p), m, Uses(f, p1, BitOr(f.ports[p2].lid, m), way, p));
  }

  /** The walk comes to a switch whose forwarding table is not there. */
  ghost predicate Tableless(f: Fabric, start: PortId, dlid: Lid)
    requires Startable(f, start)
  {
    exists k: nat :: TablelessAt(f, start, dlid, k)
  }

  ghost predicate TablelessAt(f: Fabric, start: PortId, dlid: Lid, k: nat)
    requires Startable(f, start)
  {
    && k < 64 && (k > 0 ==> Taken(f, start, dlid, 0, k - 1))
    && At(f, start, dlid, k).Some? && Transit(f, At(f, start, dlid, k).value, k) && Fresh(f, start, dlid, k)
    && LaneAt(f, start, dlid, 0, k).Some?
    && f.nodes[f.ports[At(f, start, dlid, k).value].node].lft.None?
  }

  lemma UnavailableIff(f: Fabric, start: PortId, dlid: Lid, k: nat, status: Status, hops: seq<Hop>)
    requires Startable(f, start) && StopsAfter(f, start, dlid, 0, k, status, hops)
    ensures status == FUnavailable <==> Tableless(f, start, dlid)
  {
    hide At, ValidFabric, LaneAt, Calls, Fresh, LookupLft;
    if Tableless(f, start, dlid) {
      var n: nat :| TablelessAt(f, start, dlid, n);
      if n < k {
        TakenEarlier(f, start, dlid, 0, n, k - 1);
      } else if k < n {
        TakenEarlier(f, start, dlid, 0, k, n - 1);
      }
    }
    if status == FUnavailable {
      if k > 0 {
        assert Taken(f, start, dlid, 0, k - 1);
      }
      assert TablelessAt(f, start, dlid, k);
    }
  }

  // ---- all paths ----

  ghost predicate Endpoints(f: Fabric, ports: seq<PortId>) {
    forall i :: 0 <= i < |ports| ==> Startable(f, ports[i]) && !IsSwitch(f, ports[i])
  }

  /** The path from one endpoint to a LID of another, endpoints being numbered. */
  datatype Path = Path(from: nat, to: nat, offset: nat)

  /** Paths lead between different ports, to as many LIDs as the LMC of the source says. */
  ghost predicate IsPath(f: Fabric, endpoints: seq<PortId>, t: Path)
    requires Endpoints(f, endpoints)
  {
    && t.from < |endpoints| && t.to < |endpoints| && endpoints[t.from] != endpoints[t.to]
    && t.offset < Pow2(f.ports[endpoints[t.from]].lmc)
  }

  ghost function Target(f: Fabric, endpoints: seq<PortId>, t: Path): Lid
    requires Endpoints(f, endpoints) && IsPath(f, endpoints, t)
  {
    BitOr(f.ports[endpoints[t.to]].lid, t.offset)
  }

  /** The path is one of those walked before path stop, or stop is past the end. */
  ghost predicate Earlier(t: Path, stop: Path) {
    || t.from < stop.from
    || (t.from == stop.from && t.to < stop.to)
    || (t.from == stop.from && t.to == stop.to && t.offset < stop.offset)
  }

  ghost function PathsBefore(f: Fabric, endpoints: seq<PortId>, stop: Path, base: bool): (ts: set<Path>)
    requires Endpoints(f, endpoints)
    ensures forall t :: t in ts <==> IsPath(f, endpoints, t) && Earlier(t, stop) && (base ==> t.offset == 0)
  {
    set a: nat, b: nat, k: nat |
      a < |endpoints| && b < |endpoints| && k < Pow2(f.ports[endpoints[a]].lmc)
      && IsPath(f, endpoints, Path(a, b, k)) && Earlier(Path(a, b, k), stop) && (base ==> k == 0) :: Path(a, b, k)
  }

  ghost function PathUses(f: Fabric, endpoints: seq<PortId>, t: Path, way: Way, p: PortId): set<nat>
    requires Endpoints(f, endpoints) && IsPath(f, endpoints, t)
  {
    Uses(f, endpoints[t.from], Target(f, endpoints, t), way, p)
  }

  ghost predicate ArePaths(f: Fabric, endpoints: seq<PortId>, ts: set<Path>)
    requires Endpoints(f, endpoints)
  {
    forall t :: t in ts ==> IsPath(f, endpoints, t)
  }

  /** The pairs of a path and a hop of it that goes through p. */
  ghost function CrossingsOf(f: Fabric, endpoints: seq<PortId>, ts: set<Path>, way: Way, p: PortId): set<(Path, nat)>
    requires Endpoints(f, endpoints) && ArePaths(f, endpoints, ts)
  {
    set t: Path, n: nat | t in ts && n in PathUses(f, endpoints, t, way, p) :: (t, n)
  }

  /** Those of the paths walked before stop, only to base LIDs if asked. */
  ghost function Crossings(f: Fabric, endpoints: seq<PortId>, stop: Path, base: bool, way: Way, p: PortId): set<(Path, nat)>
    requires Endpoints(f, endpoints)
  {
    CrossingsOf(f, endpoints, PathsBefore(f, endpoints, stop, base), way, p)
  }

  ghost predicate PathDelivered(f: Fabric, endpoints: seq<PortId>, t: Path)
    requires Endpoints(f, endpoints) && IsPath(f, endpoints, t)
  {
    Delivered(f, endpoints[t.from], Target(f, endpoints, t), 0)
  }

  ghost predicate PathTableless(f: Fabric, endpoints: seq<PortId>, t: Path)
    requires Endpoints(f, endpoints) && IsPath(f, endpoints, t)
  {
    Tableless(f, endpoints[t.from], Target(f, endpoints, t))
  }

  ghost predicate AllDelivered(f: Fabric, endpoints: seq<PortId>)
    requires Endpoints(f, endpoints)
  {
    forall t :: IsPath(f, endpoints, t) ==> PathDelivered(f, endpoints, t)
  }

  /** The undelivered paths among those walked before stop. */
  ghost function BadBefore(f: Fabric, endpoints: seq<PortId>, stop: Path): set<Path>
    requires Endpoints(f, endpoints)
  {
    set t | t in PathsBefore(f, endpoints, stop, false) && !PathDelivered(f, endpoints, t)
  }

  /** The undelivered among the first m LIDs of a port. */
  ghost function BadLids(f: Fabric, p1: PortId, p2: PortId, m: nat): set<nat>
    requires Startable(f, p1) && p2 in f.ports
  {
    set k: nat | k < m && !Delivered(f, p1, BitOr(f.ports[p2].lid, k), 0)
  }

  lemma BadStep(f: Fabric, p1: PortId, p2: PortId, m: nat)
    requires Startable(f, p1) && p2 in f.ports
    ensures |BadLids(f, p1, p2, m + 1)|
            == |BadLids(f, p1, p2, m)| + if Delivered(f, p1, BitOr(f.ports[p2].lid, m), 0) then 0 else 1
  {
    hide Delivered, ValidFabric;
    var s := BadLids(f, p1, p2, m);
    assert BadLids(f, p1, p2, m + 1) == if Delivered(f, p1, BitOr(f.ports[p2].lid, m), 0) then s else s + {m};
  }

  lemma PathStep(f: Fabric, endpoints: seq<PortId>, i: nat, j: nat, m: nat, base: bool)
    requires Endpoints(f, endpoints) && IsPath(f, endpoints, Path(i, j, m))
    ensures PathsBefore(f, endpoints, Path(i, j, m + 1), base)
            == PathsBefore(f, endpoints, Path(i, j, m), base) + if base && m > 0 then {} else {Path(i, j, m)}
    ensures Path(i, j, m) !in PathsBefore(f, endpoints, Path(i, j, m), base)
  {
    hide ValidFabric, Pow2, PathsBefore, Endpoints;
  }

  lemma CrossingsAdd(f: Fabric, endpoints: seq<PortId>, ts: set<Path>, t: Path, way: Way, p: PortId)
    requires Endpoints(f, endpoints) && ArePaths(f, endpoints, ts + {t}) && t !in ts
    ensures ArePaths(f, endpoints, ts) && IsPath(f, endpoints, t)
    ensures |CrossingsOf(f, endpoints, ts + {t}, way, p)| == |CrossingsOf(f, endpoints, ts, way, p)| + |PathUses(f, endpoints, t, way, p)|
  {
    assert t in ts + {t};
    hide PathUses, Endpoints, IsPath;
    Extends(CrossingsOf(f, endpoints, ts, way, p), CrossingsOf(f, endpoints, ts + {t}, way, p), t, PathUses(f, endpoints, t, way, p));
  }

  lemma CrossingsStep(f: Fabric, endpoints: seq<PortId>, i: nat, j: nat, m: nat, base: bool, way: Way, p: PortId)
    requires Endpoints(f, endpoints) && IsPath(f, endpoints, Path(i, j, m))
    ensures |Crossings(f, endpoints, Path(i, j, m + 1), base, way, p)|
            == |Crossings(f, endpoints, Path(i, j, m), base, way, p)|
               + if base && m > 0 then 0 else |Uses(f, endpoints[i], BitOr(f.ports[endpoints[j]].lid, m), way, p)|
  {
    hide Uses, ValidFabric, PathsBefore, CrossingsOf, Endpoints;
    PathStep(f, endpoints, i, j, m, base);
    if base && m > 0 {
      assert PathsBefore(f, endpoints, Path(i, j, m + 1), base) == PathsBefore(f, endpoints, Path(i, j, m), base);
    } else {
      CrossingsAdd(f, endpoints, PathsBefore(f, endpoints, Path(i, j, m), base), Path(i, j, m), way, p);
    }
  }

  /** A pair adds its own hops to those of the paths before it. */
  lemma {:induction false} PairCrossings(f: Fabric, endpoints: seq<PortId>, i: nat, j: nat, m: nat, base: bool, way: Way, p: PortId)
    requires Endpoints(f, endpoints) && i < |endpoints| && j < |endpoints| && endpoints[i] != endpoints[j]
    requires 0 < m <= Pow2(f.ports[endpoints[i]].lmc)
    ensures |Crossings(f, endpoints, Path(i, j, m), base, way, p)|
            == |Crossings(f, endpoints, Path(i, j, 0), base, way, p)| + |PairUses(f, endpoints[i], endpoints[j], if base then 1 else m, way, p)|
  {
    hide PassesAt, ValidFabric, Pow2, BitOr, PathsBefore, Crossings, Uses;
    CrossingsStep(f, endpoints, i, j, m - 1, base, way, p);
    PairStep(f, endpoints[i], endpoints[j], m - 1, way, p);
    if m > 1 {
      PairCrossings(f, endpoints, i, j, m - 1, base, way, p);
    }
  }

  lemma BadPathStep(f: Fabric, endpoints: seq<PortId>, i: nat, j: nat, m: nat)
    requires Endpoints(f, endpoints) && IsPath(f, endpoints, Path(i, j, m))
    ensures |BadBefore(f, endpoints, Path(i, j, m + 1))|
            == |BadBefore(f, endpoints, Path(i, j, m))| + if PathDelivered(f, endpoints, Path(i, j, m)) then 0 else 1
  {
    hide PathDelivered, ValidFabric, Pow2, PathsBefore, Endpoints, IsPath;
    PathStep(f, endpoints, i, j, m, false);
    var t := Path(i, j, m);
    assert BadBefore(f, endpoints, Path(i, j, m + 1)) == BadBefore(f, endpoints, t) + if PathDelivered(f, endpoints, t) then {} else {t};
  }

  lemma {:induction false} PairPaths(f: Fabric, endpoints: seq<PortId>, i: nat, j: nat, m: nat)
    requires Endpoints(f, endpoints) && i < |endpoints| && j < |endpoints| && endpoints[i] != endpoints[j]
    requires m <= Pow2(f.ports[endpoints[i]].lmc)
    ensures |PathsBefore(f, endpoints, Path(i, j, m), false)| == |PathsBefore(f, endpoints, Path(i, j, 0), false)| + m
    ensures |BadBefore(f, endpoints, Path(i, j, m))|
            == |BadBefore(f, endpoints, Path(i, j, 0))| + |BadLids(f, endpoints[i], endpoints[j], m)|
  {
    hide Delivered, ValidFabric, Pow2, BitOr, PathsBefore, BadBefore, BadLids, IsSwitch;
    if m == 0 {
      PairNone(f, endpoints[i], endpoints[j]);
    } else {
      PairPaths(f, endpoints, i, j, m - 1);
      PathStep(f, endpoints, i, j, m - 1, false);
      BadStep(f, endpoints[i], endpoints[j], m - 1);
      BadPathStep(f, endpoints, i, j, m - 1);
    }
  }

  // ---- the state of the tabulation before a path ----

  /** The counters of one kind are the numbers of crossings, modulo 2^32. */
  ghost predicate Shows(f: Fabric, endpoints: seq<PortId>, stop: Path, way: Way, base: bool, m: map<PortId, nat>)
    requires Endpoints(f, endpoints)
  {
    forall p :: p in f.ports ==> p in m && m[p] == |Crossings(f, endpoints, stop, base, way, p)| % COUNTER
  }

  ghost predicate NoneTableless(f: Fabric, endpoints: seq<PortId>, stop: Path)
    requires Endpoints(f, endpoints)
  {
    forall t :: t in PathsBefore(f, endpoints, stop, false) ==> !PathTableless(f, endpoints, t)
  }

  /** The paths before stop are counted, so are the undelivered ones, and none of them
      came to a switch without table. */
  ghost predicate Tallied(f: Fabric, endpoints: seq<PortId>, stop: Path, total: nat, bad: nat)
    requires Endpoints(f, endpoints)
  {
    && total == |PathsBefore(f, endpoints, stop, false)| && bad == |BadBefore(f, endpoints, stop)|
    && NoneTableless(f, endpoints, stop)
  }

  /** last is the first path that came to a switch without table; the paths of its pair
      of ports are not among those counted. */
  ghost predicate StopsAt(f: Fabric, endpoints: seq<PortId>, last: Path, total: nat, bad: nat)
    requires Endpoints(f, endpoints)
  {
    && IsPath(f, endpoints, last) && PathTableless(f, endpoints, last) && NoneTableless(f, endpoints, last)
    && total == |PathsBefore(f, endpoints, last.(offset := 0), false)| && bad == |BadBefore(f, endpoints, last.(offset := 0))|
  }

  /** Stops with the same paths before them show the same. */
  lemma SameBefore(f: Fabric, endpoints: seq<PortId>, s: Path, t: Path)
    requires Endpoints(f, endpoints)
    requires forall base :: PathsBefore(f, endpoints, s, base) == PathsBefore(f, endpoints, t, base)
    ensures forall way, base, m :: Shows(f, endpoints, s, way, base, m) ==> Shows(f, endpoints, t, way, base, m)
    ensures forall total, bad :: Tallied(f, endpoints, s, total, bad) ==> Tallied(f, endpoints, t, total, bad)
  {
    hide ValidFabric, PathsBefore, CrossingsOf, PathTableless, PathDelivered;
    assert BadBefore(f, endpoints, s) == BadBefore(f, endpoints, t);
  }

  /** Where the paths of a pair are done, those of the next are all to come. */
  lemma NextPair(f: Fabric, endpoints: seq<PortId>, i: nat, j: nat, done: nat, total: nat, bad: nat)
    requires Endpoints(f, endpoints) && i < |endpoints| && j < |endpoints|
    requires done == if endpoints[i] != endpoints[j] then Pow2(f.ports[endpoints[i]].lmc) else 0
    ensures forall way, base, m :: Shows(f, endpoints, Path(i, j, done), way, base, m) ==> Shows(f, endpoints, Path(i, j + 1, 0), way, base, m)
    ensures Tallied(f, endpoints, Path(i, j, done), total, bad) ==> Tallied(f, endpoints, Path(i, j + 1, 0), total, bad)
  {
    hide ValidFabric, Pow2, PathsBefore, Shows, Tallied;
    forall base
      ensures PathsBefore(f, endpoints, Path(i, j, done), base) == PathsBefore(f, endpoints, Path(i, j + 1, 0), base)
    {
    }
    SameBefore(f, endpoints, Path(i, j, done), Path(i, j + 1, 0));
  }

  lemma NextSource(f: Fabric, endpoints: seq<PortId>, i: nat, total: nat, bad: nat)
    requires Endpoints(f, endpoints) && i < |endpoints|
    ensures forall way, base, m :: Shows(f, endpoints, Path(i, |endpoints|, 0), way, base, m) ==> Shows(f, endpoints, Path(i + 1, 0, 0), way, base, m)
    ensures Tallied(f, endpoints, Path(i, |endpoints|, 0), total, bad) ==> Tallied(f, endpoints, Path(i + 1, 0, 0), total, bad)
  {
    hide ValidFabric, Pow2, PathsBefore, Shows, Tallied;
    forall base
      ensures PathsBefore(f, endpoints, Path(i, |endpoints|, 0), base) == PathsBefore(f, endpoints, Path(i + 1, 0, 0), base)
    {
    }
    SameBefore(f, endpoints, Path(i, |endpoints|, 0), Path(i + 1, 0, 0));
  }

  lemma TalliedNone(f: Fabric, endpoints: seq<PortId>)
    requires Endpoints(f, endpoints)
    ensures Tallied(f, endpoints, Path(0, 0, 0), 0, 0)
  {
    hide ValidFabric, Pow2, PathsBefore, PathTableless, PathDelivered;
    assert PathsBefore(f, endpoints, Path(0, 0, 0), false) == {};
    assert BadBefore(f, endpoints, Path(0, 0, 0)) == {};
  }

  lemma ShowsNone(f: Fabric, endpoints: seq<PortId>, way: Way, base: bool, m: map<PortId, nat>)
    requires Endpoints(f, endpoints) && forall p :: p in f.ports ==> p in m && m[p] == 0
    ensures Shows(f, endpoints, Path(0, 0, 0), way, base, m)
  {
    hide ValidFabric, Pow2, PathsBefore, PathUses;
    forall p
      ensures Crossings(f, endpoints, Path(0, 0, 0), base, way, p) == {}
    {
    }
  }

  lemma PairShows(f: Fabric, endpoints: seq<PortId>, i: nat, j: nat, m: nat, way: Way, base: bool, was: map<PortId, nat>, now: map<PortId, nat>)
    requires Endpoints(f, endpoints) && i < |endpoints| && j < |endpoints| && endpoints[i] != endpoints[j]
    requires 0 < m <= Pow2(f.ports[endpoints[i]].lmc) && Shows(f, endpoints, Path(i, j, 0), way, base, was)
    requires forall p :: p in f.ports ==> Grown(was, now, p, |PairUses(f, endpoints[i], endpoints[j], if base then 1 else m, way, p)|)
    ensures Shows(f, endpoints, Path(i, j, m), way, base, now)
  {
    hide ValidFabric, Pow2, PairUses, Crossings;
    forall p | p in f.ports
      ensures p in now && now[p] == |Crossings(f, endpoints, Path(i, j, m), base, way, p)| % COUNTER
    {
      PairCrossings(f, endpoints, i, j, m, base, way, p);
      AddModulo(0, |Crossings(f, endpoints, Path(i, j, 0), base, way, p)|, |PairUses(f, endpoints[i], endpoints[j], if base then 1 else m, way, p)|);
    }
  }

  lemma PairTableless(f: Fabric, endpoints: seq<PortId>, i: nat, j: nat, m: nat)
    requires Endpoints(f, endpoints) && i < |endpoints| && j < |endpoints| && endpoints[i] != endpoints[j]
    requires m <= Pow2(f.ports[endpoints[i]].lmc) && NoneTableless(f, endpoints, Path(i, j, 0))
    requires forall k: nat :: k < m ==> !Tableless(f, endpoints[i], BitOr(f.ports[endpoints[j]].lid, k))
    ensures NoneTableless(f, endpoints, Path(i, j, m))
  {
    hide ValidFabric, Pow2, PathsBefore, Tableless, BitOr;
    forall t | t in PathsBefore(f, endpoints, Path(i, j, m), false)
      ensures !PathTableless(f, endpoints, t)
    {
      assert t in PathsBefore(f, endpoints, Path(i, j, 0), false) || t == Path(i, j, t.offset);
    }
  }

  lemma PairTallied(f: Fabric, endpoints: seq<PortId>, i: nat, j: nat, total: nat, bad: nat)
    requires Endpoints(f, endpoints) && i < |endpoints| && j < |endpoints| && endpoints[i] != endpoints[j]
    requires Tallied(f, endpoints, Path(i, j, 0), total, bad)
    requires forall k: nat :: k < Pow2(f.ports[endpoints[i]].lmc) ==> !Tableless(f, endpoints[i], BitOr(f.ports[endpoints[j]].lid, k))
    ensures var m := Pow2(f.ports[endpoints[i]].lmc);
            Tallied(f, endpoints, Path(i, j, m), total + m, bad + |BadLids(f, endpoints[i], endpoints[j], m)|)
  {
    hide ValidFabric, Pow2, PathsBefore, BadBefore, BadLids, Tableless, NoneTableless, BitOr;
    PairPaths(f, endpoints, i, j, Pow2(f.ports[endpoints[i]].lmc));
    PairTableless(f, endpoints, i, j, Pow2(f.ports[endpoints[i]].lmc));
  }

  lemma StoppedAt(f: Fabric, endpoints: seq<PortId>, i: nat, j: nat, k: nat, total: nat, bad: nat)
    requires Endpoints(f, endpoints) && IsPath(f, endpoints, Path(i, j, k)) && Tallied(f, endpoints, Path(i, j, 0), total, bad)
    requires Tableless(f, endpoints[i], BitOr(f.ports[endpoints[j]].lid, k))
    requires forall k': nat :: k' < k ==> !Tableless(f, endpoints[i], BitOr(f.ports[endpoints[j]].lid, k'))
    ensures StopsAt(f, endpoints, Path(i, j, k), total, bad) && !AllDelivered(f, endpoints)
  {
    hide ValidFabric, Pow2, PathsBefore, BadBefore, Tableless, NoneTableless, BitOr, Delivered;
    PairTableless(f, endpoints, i, j, k);
    TablelessBad(f, endpoints[i], BitOr(f.ports[endpoints[j]].lid, k));
    assert !PathDelivered(f, endpoints, Path(i, j, k));
  }

  lemma AllTallied(f: Fabric, endpoints: seq<PortId>, total: nat, bad: nat)
    requires Endpoints(f, endpoints) && Tallied(f, endpoints, Path(|endpoints|, 0, 0), total, bad)
    ensures bad == 0 <==> AllDelivered(f, endpoints)
  {
    hide ValidFabric, Pow2, PathsBefore, PathDelivered;
    var stop := Path(|endpoints|, 0, 0);
    assert forall t :: IsPath(f, endpoints, t) ==> t in PathsBefore(f, endpoints, stop, false);
    assert bad == 0 <==> BadBefore(f, endpoints, stop) == {};
    if t :| IsPath(f, endpoints, t) && !PathDelivered(f, endpoints, t) {
      assert t in BadBefore(f, endpoints, stop);
    }
  }

  /** A path to a switch without table is not delivered. */
  lemma TablelessBad(f: Fabric, start: PortId, dlid: Lid)
    requires Startable(f, start) && Tableless(f, start, dlid)
    ensures !Delivered(f, start, dlid, 0)
  {
    hide LaneAt, ValidFabric, LookupLft;
    var k: nat :| TablelessAt(f, start, dlid, k);
    StuckAt(f, start, dlid, 0, k);
  }

  // ---- counters after hops ----

  ghost function Bumped(m: map<PortId, nat>, p: Option<PortId>): map<PortId, nat> {
    if p.Some? && p.value in m then m[p.value := (m[p.value] + 1) % COUNTER] else m
  }

  ghost function After(m: map<PortId, nat>, hops: seq<Hop>, way: Way): map<PortId, nat> {
    if hops == [] then m else Bumped(After(m, hops[..|hops| - 1], way), Side(hops[|hops| - 1], way))
  }

  /** A 32-bit counter grows by the number of hops through its port. */
  lemma {:induction false} AfterCounts(m: map<PortId, nat>, hops: seq<Hop>, way: Way, p: PortId)
    requires p in m && m[p] < COUNTER
    ensures p in After(m, hops, way) && After(m, hops, way)[p] == (m[p] + Passed(hops, way, p)) % COUNTER
  {
    if hops != [] {
      var before := hops[..|hops| - 1];
      AfterCounts(m, before, way, p);
      AddModulo(m[p], Passed(before, way, p), 1);
    }
  }

  lemma AddModulo(x: nat, a: nat, b: nat)
    ensures ((x + a) % COUNTER + b) % COUNTER == (x + (a + b)) % COUNTER
  {
  }

  lemma PortsInFabric(f: Fabric, h: Hop)
    requires HopInDevice(f, h)
    ensures h.entry.Some? ==> h.entry.value in f.ports
    ensures h.exit.Some? ==> h.exit.value in f.ports
  {
  }

  class Analysis {
    var recvAll: map<PortId, nat>
    var recvBase: map<PortId, nat>
    var xmitAll: map<PortId, nat>
    var xmitBase: map<PortId, nat>

    /** The counters of hops into or out of ports, on all paths or on those to base LIDs. */
    ghost function Tally(way: Way, base: bool): map<PortId, nat>
      reads this
    {
      if way.In? then (if base then recvBase else recvAll) else if base then xmitBase else xmitAll
    }

    ghost predicate Valid(f: Fabric)
      reads this
    {
      Counters(f, recvAll) && Counters(f, recvBase) && Counters(f, xmitAll) && Counters(f, xmitBase)
    }

    /** Every cable has delivered what was sent into it. */
    ghost predicate Conserved(f: Fabric)
      requires Valid(f)
      reads this
    {
      forall p, q, base :: Cabled(f, p, q) && q in f.ports ==> Tally(Out, base)[p] == Tally(In, base)[q]
    }

    constructor ()
    {
      recvAll, recvBase, xmitAll, xmitBase := map[], map[], map[], map[];
    }

    method Clear(f: Fabric)
      modifies this
      ensures Valid(f) && Conserved(f)
      ensures forall way, base :: Tally(way, base) == map p | p in f.ports :: 0
    {
      var zero := map p | p in f.ports :: 0;
      recvAll, recvBase, xmitAll, xmitBase := zero, zero, zero, zero;
    }

    /** Counts a hop into a device. */
    method Receive(f: Fabric, p: PortId, isBase: bool)
      requires Valid(f) && p in f.ports
      modifies this`recvAll, this`recvBase
      ensures Valid(f)
      ensures recvAll == old(Bumped(recvAll, Some(p))) && recvBase == old(if isBase then Bumped(recvBase, Some(p)) else recvBase)
    {
      hide Counters, Bumped;
      BumpedCounters(f, recvAll, p);
      BumpedCounters(f, recvBase, p);
      recvAll := recvAll[p := (recvAll[p] + 1) % COUNTER];
      if isBase {
        recvBase := recvBase[p := (recvBase[p] + 1) % COUNTER];
      }
    }

    /** Counts a hop out of a device. */
    method Transmit(f: Fabric, p: PortId, isBase: bool)
      requires Valid(f) && p in f.ports
      modifies this`xmitAll, this`xmitBase
      ensures Valid(f)
      ensures xmitAll == old(Bumped(xmitAll, Some(p))) && xmitBase == old(if isBase then Bumped(xmitBase, Some(p)) else xmitBase)
    {
      hide Counters, Bumped;
      BumpedCounters(f, xmitAll, p);
      BumpedCounters(f, xmitBase, p);
      xmitAll := xmitAll[p := (xmitAll[p] + 1) % COUNTER];
      if isBase {
        xmitBase := xmitBase[p := (xmitBase[p] + 1) % COUNTER];
      }
    }

    /** The route callback; isBase is false on paths to LIDs above the base LID. */
    method Tabulate(f: Fabric, h: Hop, isBase: bool)
      requires Valid(f) && HopInDevice(f, h)
      modifies this
      ensures Valid(f)
      ensures recvAll == old(Bumped(recvAll, h.entry)) && xmitAll == old(Bumped(xmitAll, h.exit))
      ensures recvBase == old(if isBase then Bumped(recvBase, h.entry) else recvBase)
      ensures xmitBase == old(if isBase then Bumped(xmitBase, h.exit) else xmitBase)
    {
      PortsInFabric(f, h);
      hide HopInDevice;
      if h.entry.Some? {
        Receive(f, h.entry.value, isBase);
      }
      if h.exit.Some? {
        Transmit(f, h.exit.value, isBase);
      }
    }

    /** Tabulates the hops of one walk in order. */
    method TabulateHops(f: Fabric, hops: seq<Hop>, isBase: bool)
      requires Valid(f) && forall i :: 0 <= i < |hops| ==> HopInDevice(f, hops[i])
      modifies this
      ensures Valid(f)
      ensures forall way, base :: Tally(way, base) == After(old(Tally(way, base)), if base && !isBase then [] else hops, way)
    {
      hide Valid;
      for i := 0 to |hops|
        invariant Valid(f)
        invariant forall way, base :: Tally(way, base) == After(old(Tally(way, base)), if base && !isBase then [] else hops[..i], way)
      {
        assert hops[..i + 1][..i] == hops[..i];
        Tabulate(f, hops[i], isBase);
      }
      assert hops[..|hops|] == hops;
    }

    /** Walks one path and tabulates it: each counter grows by the number of hops of the
        path through its port.  A delivered path keeps the counters conserved. */
    method TabulatePath(f: Fabric, start: PortId, dlid: Lid, isBase: bool) returns (status: Status)
      requires Startable(f, start) && !IsSwitch(f, start) && Valid(f)
      modifies this
      ensures Valid(f)
      ensures forall p, way, base :: p in f.ports ==>
                Grown(old(Tally(way, base)), Tally(way, base), p, if base && !isBase then 0 else |Uses(f, start, dlid, way, p)|)
      ensures status == FSuccess && old(Conserved(f)) ==> Conserved(f)
      ensures status == FSuccess <==> Delivered(f, start, dlid, 0)
      ensures status == FUnavailable <==> Tableless(f, start, dlid)
      ensures status in {FSuccess, FNotDone, FUnavailable}
    {
      hide Delivered, IsRoute, ValidFabric, Uses, StopsAfter, Tableless, Counters, Linked, After;
      var hops;
      ghost var looped, crossed;
      status, hops, looped, crossed := WalkRoutePort(f, start, dlid, 0, _ => FSuccess);
      UnavailableIff(f, start, dlid, crossed, status, hops);
      HopsInFabric(f, hops);
      TabulateHops(f, hops, isBase);
      forall p, way, base | p in f.ports
        ensures Grown(old(Tally(way, base)), Tally(way, base), p, if base && !isBase then 0 else |Uses(f, start, dlid, way, p)|)
      {
        PathCounts(f, start, dlid, way, p, crossed, status, hops, old(Tally(way, base)), base && !isBase);
      }
      if status == FSuccess && old(Conserved(f)) {
        forall p, q, base | Cabled(f, p, q) && q in f.ports
          ensures p in Tally(Out, base) && q in Tally(In, base) && Tally(Out, base)[p] == Tally(In, base)[q]
        {
          PathConserves(f, start, dlid, old(Tally(Out, base)), old(Tally(In, base)), hops, base && !isBase, p, q);
        }
      }
    }

    /** All paths from one port to the LIDs of another: base LID first, then one per
        further LID offset below the LMC of the source. */
    method TabulateRoutes(f: Fabric, p1: PortId, p2: PortId) returns (status: Status, total: nat, bad: nat)
      requires Startable(f, p1) && !IsSwitch(f, p1) && p2 in f.ports && Valid(f)
      modifies this
      ensures Valid(f) && status in {FSuccess, FUnavailable}
      ensures var walked := if status == FSuccess then total else total + 1;
              forall p, way, base :: p in f.ports ==>
                Grown(old(Tally(way, base)), Tally(way, base), p, |PairUses(f, p1, p2, if base then 1 else walked, way, p)|)
      ensures status == FSuccess ==> total == Pow2(f.ports[p1].lmc)
      ensures status == FUnavailable ==> total < Pow2(f.ports[p1].lmc) && Tableless(f, p1, BitOr(f.ports[p2].lid, total))
      ensures forall k: nat :: k < total ==> !Tableless(f, p1, BitOr(f.ports[p2].lid, k))
      ensures bad == |BadLids(f, p1, p2, total)|
      ensures status == FSuccess && bad == 0 && old(Conserved(f)) ==> Conserved(f)
    {
      hide ValidFabric, Delivered, Conserved, Tableless, Uses, PairUses, BadLids, Counters, Grown, Tally, BitOr;
      total, bad := 0, 0;
      var count := Pow2(f.ports[p1].lmc);
      status := FSuccess;
      PairNone(f, p1, p2);
      forall p, way, base | p in f.ports
        ensures Grown(Tally(way, base), Tally(way, base), p, |PairUses(f, p1, p2, 0, way, p)|)
      {
        TallyCounters(f, way, base);
        GrownNone(f, Tally(way, base), p);
      }
      while total < count
        invariant Valid(f) && total <= count
        invariant forall p, way, base :: p in f.ports ==>
                    Grown(old(Tally(way, base)), Tally(way, base), p, |PairUses(f, p1, p2, if base && total > 0 then 1 else total, way, p)|)
        invariant forall k: nat :: k < total ==> !Tableless(f, p1, BitOr(f.ports[p2].lid, k))
        invariant bad == |BadLids(f, p1, p2, total)|
        invariant bad == 0 && old(Conserved(f)) ==> Conserved(f)
      {
        OrZero(f.ports[p2].lid);
        BadStep(f, p1, p2, total);
        label walk:
        var s := TabulatePath(f, p1, if total == 0 then f.ports[p2].lid else BitOr(f.ports[p2].lid, total), total == 0);
        forall p, way, base | p in f.ports
          ensures Grown(old(Tally(way, base)), Tally(way, base), p, |PairUses(f, p1, p2, if base then 1 else total + 1, way, p)|)
        {
          PairGrown(f, p1, p2, total, way, base, p, old(Tally(way, base)), old@walk(Tally(way, base)), Tally(way, base));
        }
        if s == FUnavailable {
          return FUnavailable, total, bad;
        }
        if s == FNotDone {
          bad := bad + 1;
        }
        total := total + 1;
      }
    }

    /** All paths between FI ports, loopback excluded, from cleared counters.
        endpoints lists the ports of all FIs.  The counters are about the paths before
        stop: all of them, or those up to the first that comes to a switch without table. */
    method TabulateCARoutes(f: Fabric, endpoints: seq<PortId>) returns (status: Status, total: nat, bad: nat, ghost stop: Path)
      requires ValidFabric(f) && Endpoints(f, endpoints)
      modifies this
      ensures Valid(f) && status in {FSuccess, FUnavailable}
      ensures forall way, base :: Shows(f, endpoints, stop, way, base, Tally(way, base))
      ensures status == FSuccess ==> stop == Path(|endpoints|, 0, 0) && Tallied(f, endpoints, stop, total, bad)
      ensures status == FUnavailable ==> stop.offset > 0 && StopsAt(f, endpoints, stop.(offset := stop.offset - 1), total, bad)
      ensures status == FSuccess && bad == 0 ==> Conserved(f)
      ensures status == FSuccess && bad == 0 <==> AllDelivered(f, endpoints)
    {
      hide ValidFabric, Conserved, AllDelivered, Tableless, PairUses, BadLids, Counters, Grown, BitOr, Shows, Tallied, StopsAt;
      total, bad := 0, 0;
      Clear(f);
      TalliedNone(f, endpoints);
      forall way, base
        ensures Shows(f, endpoints, Path(0, 0, 0), way, base, Tally(way, base))
      {
        ShowsNone(f, endpoints, way, base, Tally(way, base));
      }
      for i := 0 to |endpoints|
        invariant Valid(f) && (bad == 0 ==> Conserved(f)) && Tallied(f, endpoints, Path(i, 0, 0), total, bad)
        invariant forall way, base :: Shows(f, endpoints, Path(i, 0, 0), way, base, Tally(way, base))
      {
        for j := 0 to |endpoints|
          invariant Valid(f) && (bad == 0 ==> Conserved(f)) && Tallied(f, endpoints, Path(i, j, 0), total, bad)
          invariant forall way, base :: Shows(f, endpoints, Path(i, j, 0), way, base, Tally(way, base))
        {
          ghost var done := 0;
          if endpoints[i] != endpoints[j] {
            var paths, badPaths;
            label walk:
            status, paths, badPaths := TabulateRoutes(f, endpoints[i], endpoints[j]);
            done := if status == FSuccess then paths else paths + 1;
            forall way, base
              ensures Shows(f, endpoints, Path(i, j, done), way, base, Tally(way, base))
            {
              PairShows(f, endpoints, i, j, done, way, base, old@walk(Tally(way, base)), Tally(way, base));
            }
            if status == FUnavailable {
              StoppedAt(f, endpoints, i, j, paths, total, bad);
              return status, total, bad, Path(i, j, done);
            }
            PairTallied(f, endpoints, i, j, total, bad);
            total := total + paths;
            bad := bad + badPaths;
          }
          NextPair(f, endpoints, i, j, done, total, bad);
        }
        NextSource(f, endpoints, i, total, bad);
      }
      AllTallied(f, endpoints, total, bad);
      return FSuccess, total, bad, Path(|endpoints|, 0, 0);
    }

    lemma TallyCounters(f: Fabric, way: Way, base: bool)
      requires Valid(f)
      ensures Counters(f, Tally(way, base))
    {
    }
  }

  lemma BumpedCounters(f: Fabric, m: map<PortId, nat>, p: PortId)
    requires Counters(f, m) && p in f.ports
    ensures p in m && Counters(f, Bumped(m, Some(p))) && Bumped(m, Some(p)) == m[p := (m[p] + 1) % COUNTER]
  {
  }

  lemma PairNone(f: Fabric, p1: PortId, p2: PortId)
    requires Startable(f, p1) && p2 in f.ports
    ensures BadLids(f, p1, p2, 0) == {} && forall way, p :: PairUses(f, p1, p2, 0, way, p) == {}
  {
    hide ValidFabric, PassesAt, Delivered;
  }

  lemma GrownNone(f: Fabric, m: map<PortId, nat>, p: PortId)
    requires Counters(f, m) && p in f.ports
    ensures Grown(m, m, p, 0)
  {
  }

  lemma GrownStep(was: map<PortId, nat>, mid: map<PortId, nat>, now: map<PortId, nat>, p: PortId, a: nat, b: nat)
    requires Grown(was, mid, p, a) && Grown(mid, now, p, b)
    ensures Grown(was, now, p, a + b)
  {
    AddModulo(was[p], a, b);
  }

  lemma PairGrown(f: Fabric, p1: PortId, p2: PortId, m: nat, way: Way, base: bool, p: PortId,
                  was: map<PortId, nat>, mid: map<PortId, nat>, now: map<PortId, nat>)
    requires Startable(f, p1) && p2 in f.ports
    requires Grown(was, mid, p, |PairUses(f, p1, p2, if base && m > 0 then 1 else m, way, p)|)
    requires Grown(mid, now, p, if base && m > 0 then 0 else |Uses(f, p1, BitOr(f.ports[p2].lid, m), way, p)|)
    ensures Grown(was, now, p, |PairUses(f, p1, p2, if base then 1 else m + 1, way, p)|)
  {
    hide ValidFabric, PairUses, Uses, Grown;
    PairStep(f, p1, p2, m, way, p);
    GrownStep(was, mid, now, p, |PairUses(f, p1, p2, if base && m > 0 then 1 else m, way, p)|,
              if base && m > 0 then 0 else |Uses(f, p1, BitOr(f.ports[p2].lid, m), way, p)|);
  }

  lemma HopsInFabric(f: Fabric, hops: seq<Hop>)
    requires Linked(f, hops)
    ensures forall i :: 0 <= i < |hops| ==> HopInDevice(f, hops[i])
  {
  }

  /** The counter of p has grown by n, modulo 2^32. */
  ghost predicate Grown(was: map<PortId, nat>, now: map<PortId, nat>, p: PortId, n: nat) {
    p in was && p in now && now[p] == (was[p] + n) % COUNTER
  }

  lemma PathCounts(f: Fabric, start: PortId, dlid: Lid, way: Way, p: PortId, k: nat, status: Status, hops: seq<Hop>,
                   m: map<PortId, nat>, skip: bool)
    requires Startable(f, start) && !IsSwitch(f, start) && StopsAfter(f, start, dlid, 0, k, status, hops)
    requires (status == FSuccess <==> Delivered(f, start, dlid, 0)) && Counters(f, m) && p in f.ports
    ensures Grown(m, After(m, if skip then [] else hops, way), p, if skip then 0 else |Uses(f, start, dlid, way, p)|)
  {
    hide Delivered, ValidFabric, Uses, StopsAfter;
    AfterCounts(m, if skip then [] else hops, way, p);
    RouteCount(f, start, dlid, way, p, k, status, hops);
  }

  /** A complete route keeps the two ends of a cable equal. */
  lemma PathConserves(f: Fabric, start: PortId, dlid: Lid, x: map<PortId, nat>, r: map<PortId, nat>, hops: seq<Hop>, skip: bool,
                      p: PortId, q: PortId)
    requires Startable(f, start) && !IsSwitch(f, start) && IsRoute(f, start, dlid, hops) && Cabled(f, p, q) && q in f.ports
    requires Counters(f, x) && Counters(f, r) && x[p] == r[q]
    ensures var route := if skip then [] else hops;
            p in After(x, route, Out) && q in After(r, route, In) && After(x, route, Out)[p] == After(r, route, In)[q]
  {
    hide IsRoute, ValidFabric;
    RouteConserves(f, start, dlid, hops, p, q);
    AfterCounts(x, if skip then [] else hops, Out, p);
    AfterCounts(r, if skip then [] else hops, In, q);
  }

  ghost predicate Counters(f: Fabric, m: map<PortId, nat>) {
    m.Keys == f.ports.Keys && forall p :: p in m ==> m[p] < COUNTER
  }
}
