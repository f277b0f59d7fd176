/** Tracing a route hop by hop through the linear forwarding tables, measured
    against plain, unbounded destination forwarding. */
module RouteWalk {
  import opened Bits
  import opened Fabric

  const MAX_HOPS: nat := 64

  datatype Status = FSuccess | FNotDone | FUnavailable | FOther(code: nat)

  /** One call of the route callback. */
  datatype Hop = Hop(entry: Option<PortId>, exit: Option<PortId>, vl: nat)

  datatype Lane = Lane(sc: nat, vl: nat)

  // ---- unbounded forwarding ----

  /** Where a packet injected at a port first enters a device. */
  function First(f: Fabric, start: PortId): PortId
    requires Startable(f, start)
  {
    if IsSwitch(f, start) then start else f.ports[start].neighbor.value
  }

  /** The walk dereferences the neighbour of a start port outside a switch. */
  ghost predicate Startable(f: Fabric, start: PortId) {
    ValidFabric(f) && start in f.ports && (IsSwitch(f, start) || f.ports[start].neighbor.Some?)
  }

  /** A packet entering at p, after n hops, is passed on by a switch. */
  predicate Transit(f: Fabric, p: PortId, n: nat)
    requires p in f.ports
  {
    IsSwitch(f, p) && (n == 0 || f.ports[p].num != 0)
  }

  function Exit(f: Fabric, p: PortId, dlid: Lid): (out: Option<PortId>)
    requires ValidFabric(f) && p in f.ports && IsSwitch(f, p)
    ensures out.Some? ==> out.value in f.ports && f.ports[out.value].node == f.ports[p].node && IsSwitch(f, out.value)
    ensures out.Some? && f.ports[out.value].num != 0 ==> f.ports[out.value].neighbor.Some?
  {
    if f.nodes[f.ports[p].node].lft.None? then None else LookupLft(f, f.ports[p].node, dlid)
  }

  /** The port a packet leaving through out enters next. */
  function Across(f: Fabric, out: PortId): (q: PortId)
    requires ValidFabric(f) && out in f.ports && (f.ports[out].num != 0 ==> f.ports[out].neighbor.Some?)
    ensures q in f.ports
  {
    if f.ports[out].num == 0 then out else f.ports[out].neighbor.value
  }

  /** One hop through the switch that p belongs to. */
  function Forward(f: Fabric, p: PortId, dlid: Lid): (q: Option<PortId>)
    requires ValidFabric(f) && p in f.ports && IsSwitch(f, p)
    ensures q.Some? ==> q.value in f.ports
  {
    var out := Exit(f, p, dlid);
    if out.None? then None else Some(Across(f, out.value))
  }

  /** The entry port after n hops, while there is one. */
  ghost function At(f: Fabric, start: PortId, dlid: Lid, n: nat): (p: Option<PortId>)
    requires Startable(f, start)
    ensures p.Some? ==> p.value in f.ports
  {
    if n == 0 then Some(First(f, start))
    else
      var p := At(f, start, dlid, n - 1);
      if p.None? || !Transit(f, p.value, n - 1) then None else Forward(f, p.value, dlid)
  }

  /** Forwarding ends after n hops at a port that owns dlid. */
  ghost predicate Arrives(f: Fabric, start: PortId, dlid: Lid, n: nat)
    requires Startable(f, start)
  {
    var p := At(f, start, dlid, n);
    p.Some? && !Transit(f, p.value, n) && Holds(f, p.value, dlid)
  }

  /** The service channel and lane a packet starts on. */
  function FirstLane(f: Fabric, start: PortId, sl: nat): (lane: Option<Lane>)
    requires ValidFabric(f) && start in f.ports && sl < 32
    ensures lane.Some? ==> lane.value.sc < 32
  {
    if f.ports[start].qos.None? then Some(Lane(0, 0))
    else
      assert ValidPort(f, start);
      var q := f.ports[start].qos.value;
      if q.sl2sc[sl] == INVALID_SC || q.sc2vl[q.sl2sc[sl]] == INVALID_VL then None
      else Some(Lane(q.sl2sc[sl], q.sc2vl[q.sl2sc[sl]]))
  }

  /** The lane after crossing a switch from port p to port out. */
  function NextLane(f: Fabric, p: PortId, out: PortId, lane: Lane): (next: Option<Lane>)
    requires ValidFabric(f) && p in f.ports && out in f.ports && lane.sc < 32
    ensures next.Some? ==> next.value.sc < 32
  {
    if f.ports[p].qos.None? || f.ports[p].num == 0 || f.ports[out].num == 0 then Some(lane)
    else if f.ports[out].num !in f.ports[p].qos.value.scsc then Some(lane)
    else
      assert ValidPort(f, p);
      var q := f.ports[p].qos.value;
      var sc := q.scsc[f.ports[out].num][lane.sc];
      if sc == INVALID_SC || q.sc2vl[sc] == INVALID_VL then None else Some(Lane(sc, q.sc2vl[sc]))
  }

  /** The lane a packet travels on when it enters hop n, if it is still valid. */
  ghost function LaneAt(f: Fabric, start: PortId, dlid: Lid, sl: nat, n: nat): (lane: Option<Lane>)
    requires Startable(f, start) && sl < 32
    ensures lane.Some? ==> lane.value.sc < 32
  {
    if n == 0 then FirstLane(f, start, sl)
    else
      var lane, p := LaneAt(f, start, dlid, sl, n - 1), At(f, start, dlid, n - 1);
      if lane.None? || p.None? || !Transit(f, p.value, n - 1) || Exit(f, p.value, dlid).None? then None
      else NextLane(f, p.value, Exit(f, p.value, dlid).value, lane.value)
  }

  // ---- facts about forwarding ----

  lemma {:induction false} EarlierTransit(f: Fabric, start: PortId, dlid: Lid, m: nat, n: nat)
    requires Startable(f, start) && m < n
    ensures At(f, start, dlid, n).Some? ==> At(f, start, dlid, m).Some? && Transit(f, At(f, start, dlid, m).value, m)
  {
    hide Forward, ValidFabric;
    if m < n - 1 {
      EarlierTransit(f, start, dlid, m, n - 1);
    }
  }

  lemma {:induction false} LaneEarlier(f: Fabric, start: PortId, dlid: Lid, sl: nat, m: nat, n: nat)
    requires Startable(f, start) && sl < 32 && m <= n
    ensures LaneAt(f, start, dlid, sl, n).Some? ==> LaneAt(f, start, dlid, sl, m).Some?
  {
    hide NextLane, FirstLane, Exit, ValidFabric;
    if m < n {
      LaneEarlier(f, start, dlid, sl, m, n - 1);
    }
  }

  /** Entering a switch at the same port again repeats everything that followed. */
  lemma {:induction false} Periodic(f: Fabric, start: PortId, dlid: Lid, i: nat, j: nat, k: nat)
    requires Startable(f, start) && i < j
    requires At(f, start, dlid, i).Some? && At(f, start, dlid, i) == At(f, start, dlid, j)
    requires Transit(f, At(f, start, dlid, j).value, j)
    ensures At(f, start, dlid, i + k) == At(f, start, dlid, j + k)
  {
    hide Forward, ValidFabric;
    if k > 0 {
      Periodic(f, start, dlid, i, j, k - 1);
      assert At(f, start, dlid, i + k - 1) == At(f, start, dlid, j + k - 1);
    }
  }

  /** A packet that enters a switch twice through one port never arrives. */
  lemma {:induction false} LoopNeverArrives(f: Fabric, start: PortId, dlid: Lid, i: nat, j: nat, n: nat)
    requires Startable(f, start) && i < j
    requires At(f, start, dlid, i).Some? && At(f, start, dlid, i) == At(f, start, dlid, j)
    requires Transit(f, At(f, start, dlid, j).value, j)
    ensures !Arrives(f, start, dlid, n)
    decreases n
  {
    hide At, ValidFabric, Holds;
    if n <= j {
      if n < j {
        EarlierTransit(f, start, dlid, n, j);
      }
    } else {
      Periodic(f, start, dlid, i, j, n - j);
      LoopNeverArrives(f, start, dlid, i, j, n - (j - i));
    }
  }

  // ---- the walk ----

  ghost predicate AlwaysSucceeds(callback: seq<Hop> -> Status) {
    forall hops :: callback(hops) == FSuccess
  }

  /** dlid is reached within the hop limit and no lane on the way is invalid. */
  ghost predicate Delivered(f: Fabric, start: PortId, dlid: Lid, sl: nat)
    requires Startable(f, start) && sl < 32
  {
    exists n: nat :: n <= MAX_HOPS && DeliveredAt(f, start, dlid, sl, n)
  }

  ghost predicate DeliveredAt(f: Fabric, start: PortId, dlid: Lid, sl: nat, n: nat)
    requires Startable(f, start) && sl < 32
  {
    Arrives(f, start, dlid, n) && LaneAt(f, start, dlid, sl, n).Some?
  }

  /** Each hop stays within a device and leaves it by the cable to the next one. */
  ghost predicate Linked(f: Fabric, hops: seq<Hop>) {
    && (forall i :: 0 <= i < |hops| ==> HopInDevice(f, hops[i]))
    && (forall i :: 0 <= i < |hops| - 1 ==>
          && hops[i].exit.Some?
          && f.ports[hops[i].exit.value].neighbor.Some?
          && hops[i + 1].entry == f.ports[hops[i].exit.value].neighbor)
  }

  /** Every hop through a device takes the exit its forwarding table gives. */
  ghost predicate Follows(f: Fabric, dlid: Lid, hops: seq<Hop>)
    requires ValidFabric(f)
  {
    forall i :: 0 <= i < |hops| && hops[i].entry.Some? && hops[i].exit.Some? ==>
      hops[i].entry.value in f.ports && IsSwitch(f, hops[i].entry.value)
      && Exit(f, hops[i].entry.value, dlid) == hops[i].exit
  }

  ghost predicate HopInDevice(f: Fabric, h: Hop) {
    && (h.entry.Some? ==> h.entry.value in f.ports)
    && (h.exit.Some? ==> h.exit.value in f.ports)
    && (h.entry.Some? && h.exit.Some? ==> f.ports[h.entry.value].node == f.ports[h.exit.value].node)
  }

  /** hops has been walked so far and p is entered next. */
  ghost predicate Heading(f: Fabric, start: PortId, dlid: Lid, hops: seq<Hop>, p: PortId, n: nat)
    requires Startable(f, start)
  {
    && p in f.ports
    && Linked(f, hops)
    && Follows(f, dlid, hops)
    && |hops| == n + (if IsSwitch(f, start) then 0 else 1)
    && (if |hops| == 0 then p == start
        else
          && hops[0].entry == (if IsSwitch(f, start) then Some(start) else None)
          && (!IsSwitch(f, start) ==> hops[0].exit == Some(start))
          && var x := hops[|hops| - 1].exit;
             x.Some? && (f.ports[x.value].neighbor == Some(p)
                         || (n > 0 && x.value == p && IsSwitch(f, p) && f.ports[p].num == 0)))
  }

  /** How many switches have been crossed when hop i is called back, the lane of the
      hop being the one its exit is left on. */
  function Crossed(f: Fabric, start: PortId, hops: seq<Hop>, i: nat): nat
    requires start in f.ports && i < |hops|
  {
    if IsSwitch(f, start) then (if hops[i].exit.None? then i else i + 1)
    else if hops[i].exit.None? && i > 0 then i - 1 else i
  }

  /** Every hop is called back with the lane the packet is on. */
  ghost predicate OnLanes(f: Fabric, start: PortId, dlid: Lid, sl: nat, hops: seq<Hop>)
    requires Startable(f, start) && sl < 32
  {
    forall i :: 0 <= i < |hops| ==> HopLane(f, start, dlid, sl, hops, i)
  }

  ghost predicate HopLane(f: Fabric, start: PortId, dlid: Lid, sl: nat, hops: seq<Hop>, i: nat)
    requires Startable(f, start) && sl < 32 && i < |hops|
  {
    var lane := LaneAt(f, start, dlid, sl, Crossed(f, start, hops, i));
    lane.Some? && hops[i].vl == lane.value.vl
  }

  lemma NoLanes(f: Fabric, start: PortId, dlid: Lid, sl: nat)
    requires Startable(f, start) && sl < 32
    ensures OnLanes(f, start, dlid, sl, [])
  {
  }

  lemma LanesStep(f: Fabric, start: PortId, dlid: Lid, sl: nat, hops: seq<Hop>, h: Hop)
    requires Startable(f, start) && sl < 32 && OnLanes(f, start, dlid, sl, hops)
    requires HopLane(f, start, dlid, sl, hops + [h], |hops|)
    ensures OnLanes(f, start, dlid, sl, hops + [h])
  {
    hide LaneAt;
    forall i | 0 <= i < |hops|
      ensures HopLane(f, start, dlid, sl, hops + [h], i)
    {
      assert HopLane(f, start, dlid, sl, hops, i);
      assert (hops + [h])[i] == hops[i];
    }
  }

  lemma HeadingStart(f: Fabric, start: PortId, dlid: Lid)
    requires Startable(f, start)
    ensures IsSwitch(f, start) ==> Heading(f, start, dlid, [], start, 0)
    ensures !IsSwitch(f, start) ==>
              forall vl :: Heading(f, start, dlid, [Hop(None, Some(start), vl)], f.ports[start].neighbor.value, 0)
  {
  }

  lemma HeadingCount(f: Fabric, start: PortId, dlid: Lid, hops: seq<Hop>, p: PortId, n: nat)
    requires Startable(f, start) && Heading(f, start, dlid, hops, p, n)
    ensures |hops| == n + (if IsSwitch(f, start) then 0 else 1)
  {
  }

  /** A complete route from start to the owner of dlid. */
  ghost predicate IsRoute(f: Fabric, start: PortId, dlid: Lid, hops: seq<Hop>)
    requires Startable(f, start)
  {
    && |hops| > 0
    && Linked(f, hops)
    && Follows(f, dlid, hops)
    && hops[0].entry == (if IsSwitch(f, start) then Some(start) else None)
    && (!IsSwitch(f, start) ==> hops[0].exit == Some(start))
    && var last := hops[|hops| - 1];
       if last.exit.None? then last.entry.Some? && !IsSwitch(f, last.entry.value) && Holds(f, last.entry.value, dlid)
       else IsSwitch(f, last.exit.value) && f.ports[last.exit.value].num == 0 && Holds(f, last.exit.value, dlid)
  }

  lemma HeadingStep(f: Fabric, start: PortId, dlid: Lid, hops: seq<Hop>, p: PortId, n: nat, out: PortId, vl: nat)
    requires Startable(f, start) && Heading(f, start, dlid, hops, p, n) && Transit(f, p, n)
    requires Exit(f, p, dlid) == Some(out)
    requires f.ports[out].num != 0 ==> f.ports[out].neighbor.Some?
    ensures Heading(f, start, dlid, hops + [Hop(Some(p), Some(out), vl)], Across(f, out), n + 1)
    ensures Linked(f, hops + [Hop(Some(p), Some(out), vl)])
  {
  }

  /** The walk does not arrive at hop n or before unless it does so at hop n. */
  lemma OnlyHere(f: Fabric, start: PortId, dlid: Lid, sl: nat, n: nat)
    requires Startable(f, start) && sl < 32 && At(f, start, dlid, n).Some?
    requires !Transit(f, At(f, start, dlid, n).value, n)
    ensures forall m :: Arrives(f, start, dlid, m) ==> m == n
  {
    forall m: nat | Arrives(f, start, dlid, m)
      ensures m == n
    {
      if m < n {
        EarlierTransit(f, start, dlid, m, n);
      } else if n < m {
        EarlierTransit(f, start, dlid, n, m);
      }
    }
  }

  /** Stuck at a transit hop n, for want of an exit, of a valid lane or of hops
      left, nothing is delivered. */
  lemma StuckAt(f: Fabric, start: PortId, dlid: Lid, sl: nat, n: nat)
    requires Startable(f, start) && sl < 32 && At(f, start, dlid, n).Some?
    requires Transit(f, At(f, start, dlid, n).value, n)
    requires n >= MAX_HOPS || At(f, start, dlid, n + 1).None? || LaneAt(f, start, dlid, sl, n + 1).None?
    ensures !Delivered(f, start, dlid, sl)
  {
    hide LaneAt, At, Holds, ValidFabric;
    forall m: nat | m <= MAX_HOPS
      ensures !DeliveredAt(f, start, dlid, sl, m)
    {
      if m < n {
        EarlierTransit(f, start, dlid, m, n);
      } else if n < m {
        LaneEarlier(f, start, dlid, sl, n + 1, m);
        if n + 1 < m {
          EarlierTransit(f, start, dlid, n + 1, m);
        }
      }
    }
  }

  lemma LoopUndelivered(f: Fabric, start: PortId, dlid: Lid, sl: nat, i: nat, j: nat)
    requires Startable(f, start) && sl < 32 && i < j
    requires At(f, start, dlid, i).Some? && At(f, start, dlid, i) == At(f, start, dlid, j)
    requires Transit(f, At(f, start, dlid, j).value, j)
    ensures !Delivered(f, start, dlid, sl) && forall n: nat :: !Arrives(f, start, dlid, n)
  {
    hide At, Arrives, LaneAt, ValidFabric;
    forall n: nat
      ensures !Arrives(f, start, dlid, n)
    {
      LoopNeverArrives(f, start, dlid, i, j, n);
    }
  }

  /** At the end of the line, what decides is whether the port owns dlid. */
  lemma NotYet(f: Fabric, start: PortId, dlid: Lid, sl: nat, n: nat)
    requires Startable(f, start) && sl < 32 && n <= MAX_HOPS
    requires At(f, start, dlid, n).Some? && LaneAt(f, start, dlid, sl, n).Some?
    requires !Transit(f, At(f, start, dlid, n).value, n)
    ensures Delivered(f, start, dlid, sl) <==> Holds(f, At(f, start, dlid, n).value, dlid)
  {
    OnlyHere(f, start, dlid, sl, n);
    if Holds(f, At(f, start, dlid, n).value, dlid) {
      assert DeliveredAt(f, start, dlid, sl, n);
    }
  }

  /** visited lists the entry ports of the hops taken so far. */
  ghost predicate Visited(f: Fabric, start: PortId, dlid: Lid, visited: seq<PortId>)
    requires Startable(f, start)
  {
    forall i {:trigger visited[i]} :: 0 <= i < |visited| ==> At(f, start, dlid, i) == Some(visited[i])
  }

  lemma VisitedNone(f: Fabric, start: PortId, dlid: Lid)
    requires Startable(f, start)
    ensures Visited(f, start, dlid, [])
  {
  }

  lemma VisitedAt(f: Fabric, start: PortId, dlid: Lid, visited: seq<PortId>, i: nat)
    requires Startable(f, start) && Visited(f, start, dlid, visited) && i < |visited|
    ensures At(f, start, dlid, i) == Some(visited[i])
  {
    hide At, ValidFabric;
  }

  lemma VisitedStep(f: Fabric, start: PortId, dlid: Lid, visited: seq<PortId>, p: PortId)
    requires Startable(f, start) && Visited(f, start, dlid, visited) && At(f, start, dlid, |visited|) == Some(p)
    ensures Visited(f, start, dlid, visited + [p])
  {
    hide At, ValidFabric;
  }

  lemma LinkedStart(f: Fabric, start: PortId, dlid: Lid)
    requires Startable(f, start)
    ensures Linked(f, []) && Follows(f, dlid, [])
    ensures forall vl :: Linked(f, [Hop(None, Some(start), vl)]) && Follows(f, dlid, [Hop(None, Some(start), vl)])
  {
  }

  lemma RouteDone(f: Fabric, start: PortId, dlid: Lid, hops: seq<Hop>, p: PortId, n: nat, vl: nat)
    requires Startable(f, start) && Heading(f, start, dlid, hops, p, n) && !Transit(f, p, n) && Holds(f, p, dlid)
    ensures var route := if IsSwitch(f, p) then hops else hops + [Hop(Some(p), None, vl)];
            |route| > 0 && IsRoute(f, start, dlid, route) && Linked(f, route)
  {
  }

  lemma NoLane(f: Fabric, start: PortId, dlid: Lid, sl: nat)
    requires Startable(f, start) && sl < 32 && FirstLane(f, start, sl).None?
    ensures !Delivered(f, start, dlid, sl)
  {
    forall n: nat
      ensures !DeliveredAt(f, start, dlid, sl, n)
    {
      LaneEarlier(f, start, dlid, sl, 0, n);
    }
  }

  /** No earlier hop entered where hop n does. */
  ghost predicate Fresh(f: Fabric, start: PortId, dlid: Lid, n: nat)
    requires Startable(f, start)
  {
    forall m: nat :: m < n ==> At(f, start, dlid, m) != At(f, start, dlid, n)
  }

  /** The walk crosses the switch entered after n hops: it comes there for the first
      time, with hops left, and finds an exit and a valid lane. */
  ghost predicate Taken(f: Fabric, start: PortId, dlid: Lid, sl: nat, n: nat)
    requires Startable(f, start) && sl < 32
  {
    && n < 64 && (n > 0 ==> Taken(f, start, dlid, sl, n - 1))
    && var p := At(f, start, dlid, n);
       && p.Some? && Transit(f, p.value, n) && Fresh(f, start, dlid, n) && Exit(f, p.value, dlid).Some?
       && LaneAt(f, start, dlid, sl, n + 1).Some?
  }

  /** The callbacks up to and including those of the first k switches. */
  ghost function Calls(f: Fabric, start: PortId, dlid: Lid, sl: nat, k: nat): seq<Hop>
    requires Startable(f, start) && sl < 32 && (k > 0 ==> Taken(f, start, dlid, sl, k - 1))
  {
    if k == 0 then
      var lane := FirstLane(f, start, sl);
      if IsSwitch(f, start) || lane.None? then [] else [Hop(None, Some(start), lane.value.vl)]
    else
      var p := At(f, start, dlid, k - 1);
      Calls(f, start, dlid, sl, k - 1) + [Hop(p, Exit(f, p.value, dlid), LaneAt(f, start, dlid, sl, k).value.vl)]
  }

  /** The walk stops after k switches, having called back for each of them and, if it
      was successful, for an FI at the end; FUNAVAILABLE is for a switch without table. */
  ghost predicate StopsAfter(f: Fabric, start: PortId, dlid: Lid, sl: nat, k: nat, status: Status, hops: seq<Hop>)
    requires Startable(f, start) && sl < 32
  {
    var p := At(f, start, dlid, k);
    && (k > 0 ==> Taken(f, start, dlid, sl, k - 1)) && !Taken(f, start, dlid, sl, k)
    && (status == FUnavailable <==>
          && p.Some? && k < 64 && Transit(f, p.value, k) && Fresh(f, start, dlid, k) && LaneAt(f, start, dlid, sl, k).Some?
          && f.nodes[f.ports[p.value].node].lft.None?)
    && (status == FSuccess ==> p.Some? && LaneAt(f, start, dlid, sl, k).Some? && !Transit(f, p.value, k))
    && hops == Calls(f, start, dlid, sl, k)
               + (if status == FSuccess && !IsSwitch(f, p.value) then [Hop(p, None, LaneAt(f, start, dlid, sl, k).value.vl)] else [])
  }

  lemma FreshIf(f: Fabric, start: PortId, dlid: Lid, visited: seq<PortId>, p: PortId)
    requires Startable(f, start) && Visited(f, start, dlid, visited) && At(f, start, dlid, |visited|) == Some(p) && p !in visited
    ensures Fresh(f, start, dlid, |visited|)
  {
    hide At, ValidFabric;
    forall m: nat | m < |visited|
      ensures At(f, start, dlid, m) != Some(p)
    {
      VisitedAt(f, start, dlid, visited, m);
    }
  }

  lemma NotFresh(f: Fabric, start: PortId, dlid: Lid, m: nat, n: nat)
    requires Startable(f, start) && m < n && At(f, start, dlid, m) == At(f, start, dlid, n)
    ensures !Fresh(f, start, dlid, n)
  {
    hide At, ValidFabric;
  }

  lemma CallsStart(f: Fabric, start: PortId, dlid: Lid, sl: nat, lane: Lane)
    requires Startable(f, start) && sl < 32 && FirstLane(f, start, sl) == Some(lane)
    ensures At(f, start, dlid, 0) == Some(First(f, start)) && LaneAt(f, start, dlid, sl, 0) == Some(lane)
    ensures Calls(f, start, dlid, sl, 0) == if IsSwitch(f, start) then [] else [Hop(None, Some(start), lane.vl)]
  {
    hide ValidFabric, FirstLane;
  }

  /** One more switch is crossed and called back for. */
  lemma TakenStep(f: Fabric, start: PortId, dlid: Lid, sl: nat, n: nat, p: PortId, out: PortId, next: Lane, hops: seq<Hop>)
    requires Startable(f, start) && sl < 32 && n < MAX_HOPS && At(f, start, dlid, n) == Some(p) && Transit(f, p, n) && Fresh(f, start, dlid, n)
    requires Exit(f, p, dlid) == Some(out) && LaneAt(f, start, dlid, sl, n + 1) == Some(next)
    requires (n > 0 ==> Taken(f, start, dlid, sl, n - 1)) && hops == Calls(f, start, dlid, sl, n)
    ensures Taken(f, start, dlid, sl, n) && Calls(f, start, dlid, sl, n + 1) == hops + [Hop(Some(p), Some(out), next.vl)]
  {
    hide At, LaneAt, ValidFabric, Exit;
  }

  lemma Stops(f: Fabric, start: PortId, dlid: Lid, sl: nat, n: nat, status: Status, hops: seq<Hop>)
    requires Startable(f, start) && sl < 32 && At(f, start, dlid, n).Some? && LaneAt(f, start, dlid, sl, n).Some?
    requires (n > 0 ==> Taken(f, start, dlid, sl, n - 1)) && hops == Calls(f, start, dlid, sl, n) && status in {FNotDone, FUnavailable}
    requires var p := At(f, start, dlid, n).value;
             || n >= MAX_HOPS || !Transit(f, p, n) || !Fresh(f, start, dlid, n)
             || Exit(f, p, dlid).None? || LaneAt(f, start, dlid, sl, n + 1).None?
    requires var p := At(f, start, dlid, n).value;
             status == FUnavailable <==> n < MAX_HOPS && Transit(f, p, n) && Fresh(f, start, dlid, n) && f.nodes[f.ports[p].node].lft.None?
    ensures StopsAfter(f, start, dlid, sl, n, status, hops)
  {
    hide At, LaneAt, ValidFabric, Exit, Calls;
    assert hops + [] == hops;
  }

  lemma Arrived(f: Fabric, start: PortId, dlid: Lid, sl: nat, n: nat, p: PortId, lane: Lane, hops: seq<Hop>)
    requires Startable(f, start) && sl < 32 && At(f, start, dlid, n) == Some(p) && LaneAt(f, start, dlid, sl, n) == Some(lane)
    requires !Transit(f, p, n) && (n > 0 ==> Taken(f, start, dlid, sl, n - 1)) && hops == Calls(f, start, dlid, sl, n)
    ensures StopsAfter(f, start, dlid, sl, n, FSuccess, if IsSwitch(f, p) then hops else hops + [Hop(Some(p), None, lane.vl)])
  {
    hide At, LaneAt, ValidFabric, Exit, Calls;
    assert hops + [] == hops;
  }

  lemma NeverStarts(f: Fabric, start: PortId, dlid: Lid, sl: nat)
    requires Startable(f, start) && sl < 32 && FirstLane(f, start, sl).None?
    ensures StopsAfter(f, start, dlid, sl, 0, FNotDone, [])
  {
    hide At, ValidFabric, Exit;
    assert LaneAt(f, start, dlid, sl, 1).None?;
  }

  /** What one hop through a switch achieves. */
  lemma Advance(f: Fabric, start: PortId, dlid: Lid, sl: nat, hops: seq<Hop>, p: PortId, n: nat, lane: Lane, out: PortId, next: Lane)
    requires Startable(f, start) && sl < 32 && Heading(f, start, dlid, hops, p, n) && Transit(f, p, n)
    requires At(f, start, dlid, n) == Some(p) && LaneAt(f, start, dlid, sl, n) == Some(lane)
    requires Exit(f, p, dlid) == Some(out) && NextLane(f, p, out, lane) == Some(next)
    requires OnLanes(f, start, dlid, sl, hops)
    ensures At(f, start, dlid, n + 1) == Some(Across(f, out)) && LaneAt(f, start, dlid, sl, n + 1) == Some(next)
    ensures var hops' := hops + [Hop(Some(p), Some(out), next.vl)];
            && Heading(f, start, dlid, hops', Across(f, out), n + 1) && Linked(f, hops')
            && OnLanes(f, start, dlid, sl, hops')
  {
    hide Heading, OnLanes, NextLane, ValidFabric, Linked;
    HeadingStep(f, start, dlid, hops, p, n, out, next.vl);
    HeadingCount(f, start, dlid, hops, p, n);
    LanesStep(f, start, dlid, sl, hops, Hop(Some(p), Some(out), next.vl));
  }

  /** The walk has crossed the switches entered at visited and comes to p on a lane. */
  ghost predicate Walked(f: Fabric, start: PortId, dlid: Lid, sl: nat, hops: seq<Hop>, p: PortId, lane: Lane, visited: seq<PortId>)
    requires Startable(f, start) && sl < 32
  {
    var n := |visited|;
    && At(f, start, dlid, n) == Some(p) && LaneAt(f, start, dlid, sl, n) == Some(lane)
    && Visited(f, start, dlid, visited) && Heading(f, start, dlid, hops, p, n) && Linked(f, hops) && OnLanes(f, start, dlid, sl, hops)
    && (n > 0 ==> Taken(f, start, dlid, sl, n - 1)) && hops == Calls(f, start, dlid, sl, n)
  }

  lemma WalkedStart(f: Fabric, start: PortId, dlid: Lid, sl: nat, lane: Lane)
    requires Startable(f, start) && sl < 32 && FirstLane(f, start, sl) == Some(lane)
    ensures var hops := if IsSwitch(f, start) then [] else [Hop(None, Some(start), lane.vl)];
            && First(f, start) in f.ports && Walked(f, start, dlid, sl, hops, First(f, start), lane, [])
            && Linked(f, hops) && OnLanes(f, start, dlid, sl, hops)
  {
    hide ValidFabric, FirstLane, Linked, Heading, OnLanes, Visited, Calls;
    CallsStart(f, start, dlid, sl, lane);
    LinkedStart(f, start, dlid);
    HeadingStart(f, start, dlid);
    VisitedNone(f, start, dlid);
    NoLanes(f, start, dlid, sl);
    if !IsSwitch(f, start) {
      LanesStep(f, start, dlid, sl, [], Hop(None, Some(start), lane.vl));
      assert [] + [Hop(None, Some(start), lane.vl)] == [Hop(None, Some(start), lane.vl)];
    }
  }

  lemma WalkedStep(f: Fabric, start: PortId, dlid: Lid, sl: nat, hops: seq<Hop>, p: PortId, lane: Lane, visited: seq<PortId>, out: PortId, next: Lane)
    requires Startable(f, start) && sl < 32 && Walked(f, start, dlid, sl, hops, p, lane, visited)
    requires |visited| < MAX_HOPS && p !in visited && p in f.ports && Transit(f, p, |visited|)
    requires Exit(f, p, dlid) == Some(out) && NextLane(f, p, out, lane) == Some(next)
    ensures var hops' := hops + [Hop(Some(p), Some(out), next.vl)];
            && Walked(f, start, dlid, sl, hops', Across(f, out), next, visited + [p])
            && Linked(f, hops') && OnLanes(f, start, dlid, sl, hops')
  {
    hide ValidFabric, NextLane, Linked, Heading, OnLanes, Visited, Calls, Taken, At, LaneAt, Fresh, Exit, Across;
    FreshIf(f, start, dlid, visited, p);
    VisitedStep(f, start, dlid, visited, p);
    Advance(f, start, dlid, sl, hops, p, |visited|, lane, out, next);
    TakenStep(f, start, dlid, sl, |visited|, p, out, next, hops);
  }

  /** Where a switch is not crossed, the walk ends without delivery. */
  lemma GivesUp(f: Fabric, start: PortId, dlid: Lid, sl: nat, hops: seq<Hop>, p: PortId, lane: Lane, visited: seq<PortId>, status: Status)
    requires Startable(f, start) && sl < 32 && Walked(f, start, dlid, sl, hops, p, lane, visited)
    requires p in f.ports && lane.sc < 32 && Transit(f, p, |visited|)
    requires var out := Exit(f, p, dlid);
             |visited| >= MAX_HOPS || p in visited || out.None? || NextLane(f, p, out.value, lane).None?
    requires status == if |visited| < MAX_HOPS && p !in visited && f.nodes[f.ports[p].node].lft.None? then FUnavailable else FNotDone
    ensures !Delivered(f, start, dlid, sl) && StopsAfter(f, start, dlid, sl, |visited|, status, hops)
    ensures p in visited ==> forall n: nat :: !Arrives(f, start, dlid, n)
  {
    hide ValidFabric, NextLane, Linked, Heading, OnLanes, Visited, Calls, Taken, StopsAfter, Delivered, Arrives, Fresh;
    var n := |visited|;
    if p in visited {
      var i :| 0 <= i < n && visited[i] == p;
      VisitedAt(f, start, dlid, visited, i);
      LoopUndelivered(f, start, dlid, sl, i, n);
      NotFresh(f, start, dlid, i, n);
    } else {
      FreshIf(f, start, dlid, visited, p);
      StuckAt(f, start, dlid, sl, n);
    }
    Stops(f, start, dlid, sl, n, status, hops);
  }

  /** At a port that is not passed through, the walk ends with or without delivery. */
  lemma ComesToRest(f: Fabric, start: PortId, dlid: Lid, sl: nat, hops: seq<Hop>, p: PortId, lane: Lane, visited: seq<PortId>)
    requires Startable(f, start) && sl < 32 && Walked(f, start, dlid, sl, hops, p, lane, visited)
    requires p in f.ports && |visited| <= MAX_HOPS && !Transit(f, p, |visited|)
    ensures Delivered(f, start, dlid, sl) <==> Holds(f, p, dlid)
    ensures !Holds(f, p, dlid) ==> StopsAfter(f, start, dlid, sl, |visited|, FNotDone, hops)
    ensures Holds(f, p, dlid) ==>
              var route := if IsSwitch(f, p) then hops else hops + [Hop(Some(p), None, lane.vl)];
              && |route| > 0 && IsRoute(f, start, dlid, route) && Linked(f, route) && OnLanes(f, start, dlid, sl, route)
              && StopsAfter(f, start, dlid, sl, |visited|, FSuccess, route)
  {
    hide ValidFabric, Holds, Linked, Heading, OnLanes, Visited, Calls, Taken, StopsAfter, Delivered, Arrives, Fresh, At, LaneAt, IsRoute, Exit;
    NotYet(f, start, dlid, sl, |visited|);
    if Holds(f, p, dlid) {
      RouteDone(f, start, dlid, hops, p, |visited|, lane.vl);
      Arrived(f, start, dlid, sl, |visited|, p, lane, hops);
      if !IsSwitch(f, p) {
        HeadingCount(f, start, dlid, hops, p, |visited|);
        LanesStep(f, start, dlid, sl, hops, Hop(Some(p), None, lane.vl));
      }
    } else {
      Stops(f, start, dlid, sl, |visited|, FNotDone, hops);
    }
  }

  /** The first place of p among the entry ports, or their number. */
  method IndexOf(visited: seq<PortId>, p: PortId) returns (i: nat)
    ensures i <= |visited| && (i < |visited| ==> visited[i] == p)
    ensures p !in visited[..i] && (i == |visited| ==> p !in visited)
  {
    for k := 0 to |visited|
      invariant p !in visited[..k]
    {
      if visited[k] == p {
        return k;
      }
    }
    return |visited|;
  }

  /** Follows the forwarding tables from a port to dlid.  callback answers each
      call given all calls so far.  looped reports the exit for a repeated entry port. */
  method WalkRoutePort(f: Fabric, start: PortId, dlid: Lid, sl: nat, callback: seq<Hop> -> Status)
    returns (status: Status, hops: seq<Hop>, ghost looped: bool, ghost crossed: nat)
    requires Startable(f, start) && sl < 32
    ensures AlwaysSucceeds(callback) ==> (status == FSuccess <==> Delivered(f, start, dlid, sl))
    ensures AlwaysSucceeds(callback) ==> (status == FSuccess <==> CanDeliver(f, start, dlid, sl))
    ensures AlwaysSucceeds(callback) ==> status in {FSuccess, FNotDone, FUnavailable}
    ensures status == FSuccess ==> |hops| > 0 && IsRoute(f, start, dlid, hops)
    ensures Linked(f, hops) && OnLanes(f, start, dlid, sl, hops)
    ensures looped ==> status == FNotDone && forall n: nat :: !Arrives(f, start, dlid, n)
    ensures AlwaysSucceeds(callback) ==> StopsAfter(f, start, dlid, sl, crossed, status, hops)
  {
    hide ValidFabric, LookupLft, FirstLane, NextLane, Linked, IsRoute, Delivered, Holds, OnLanes, Arrives, Across,
         CanDeliver, StopsAfter, Walked;
    DeliveredIff(f, start, dlid, sl);
    hops, looped, crossed := [], false, 0;
    LinkedStart(f, start, dlid);
    NoLanes(f, start, dlid, sl);
    var first := FirstLane(f, start, sl);
    if first.None? {
      NoLane(f, start, dlid, sl);
      NeverStarts(f, start, dlid, sl);
      return FNotDone, hops, false, 0;
    }
    var lane, p := first.value, start;
    WalkedStart(f, start, dlid, sl, lane);
    if !IsSwitch(f, start) {
      hops := [Hop(None, Some(start), lane.vl)];
      var answer := callback(hops);
      if answer != FSuccess {
        return answer, hops, false, crossed;
      }
      p := f.ports[start].neighbor.value;
    }
    var visited: seq<PortId> := [];
    while Transit(f, p, |visited|)
      invariant |visited| <= MAX_HOPS && crossed == |visited| && p in f.ports && lane.sc < 32
      invariant Walked(f, start, dlid, sl, hops, p, lane, visited) && Linked(f, hops) && OnLanes(f, start, dlid, sl, hops)
      decreases MAX_HOPS - |visited|
    {
      if |visited| >= MAX_HOPS {
        GivesUp(f, start, dlid, sl, hops, p, lane, visited, FNotDone);
        return FNotDone, hops, false, crossed;
      }
      var i := IndexOf(visited, p);
      if i < |visited| {
        GivesUp(f, start, dlid, sl, hops, p, lane, visited, FNotDone);
        return FNotDone, hops, true, crossed;
      }
      var node := f.nodes[f.ports[p].node];
      if node.lft.None? {
        GivesUp(f, start, dlid, sl, hops, p, lane, visited, FUnavailable);
        return FUnavailable, hops, false, crossed;
      }
      var out := LookupLft(f, f.ports[p].node, dlid);
      if out.None? {
        GivesUp(f, start, dlid, sl, hops, p, lane, visited, FNotDone);
        return FNotDone, hops, false, crossed;
      }
      var next := NextLane(f, p, out.value, lane);
      if next.None? {
        GivesUp(f, start, dlid, sl, hops, p, lane, visited, FNotDone);
        return FNotDone, hops, false, crossed;
      }
      WalkedStep(f, start, dlid, sl, hops, p, lane, visited, out.value, next.value);
      visited := visited + [p];
      lane, crossed := next.value, |visited|;
      hops := hops + [Hop(Some(p), Some(out.value), lane.vl)];
      var answer := callback(hops);
      if answer != FSuccess {
        return answer, hops, false, crossed;
      }
      p := Across(f, out.value);
    }
    ComesToRest(f, start, dlid, sl, hops, p, lane, visited);
    if !Holds(f, p, dlid) {
      return FNotDone, hops, false, crossed;
    }
    if !IsSwitch(f, p) {
      hops := hops + [Hop(Some(p), None, lane.vl)];
      var answer := callback(hops);
      if answer != FSuccess {
        return answer, hops, false, crossed;
      }
    }
    return FSuccess, hops, false, crossed;
  }

  // ---- delivery told from the tables alone ----

  /** The lane packets of a service level start on: SC 0 and VL 0 without QOS data, else
      what SL2SC and SC2VL give, neither of them 15. */
  ghost predicate StartsOn(f: Fabric, start: PortId, sl: nat, lane: Lane) {
    && start in f.ports
    && match f.ports[start].qos
       case None => lane.sc == 0 && lane.vl == 0
       case Some(q) => sl < |q.sl2sc| && lane.sc == q.sl2sc[sl] < |q.sc2vl| && lane.vl == q.sc2vl[lane.sc] && lane.sc != 15 && lane.vl != 15
  }

  /** Crossing a switch from port p to port x changes the lane only if p has QOS data with
      a table towards x and neither is port 0; then SC2SC gives the SC and SC2VL of p the
      VL, neither of them 15. */
  ghost predicate MovesTo(f: Fabric, p: PortId, x: PortId, lane: Lane, next: Lane) {
    && p in f.ports && x in f.ports
    && if f.ports[p].num != 0 && f.ports[x].num != 0 && f.ports[p].qos.Some? && f.ports[x].num in f.ports[p].qos.value.scsc then
         var q := f.ports[p].qos.value;
         && lane.sc < |q.scsc[f.ports[x].num]| && next.sc == q.scsc[f.ports[x].num][lane.sc] < |q.sc2vl|
         && next.vl == q.sc2vl[next.sc] && next.sc != 15 && next.vl != 15
       else next == lane
  }

  lemma FirstLaneIff(f: Fabric, start: PortId, sl: nat, lane: Lane)
    requires ValidFabric(f) && start in f.ports && sl < 32
    ensures FirstLane(f, start, sl) == Some(lane) <==> StartsOn(f, start, sl, lane)
  {
    assert ValidPort(f, start);
  }

  lemma NextLaneIff(f: Fabric, p: PortId, x: PortId, lane: Lane, next: Lane)
    requires ValidFabric(f) && p in f.ports && x in f.ports && lane.sc < 32
    ensures NextLane(f, p, x, lane) == Some(next) <==> MovesTo(f, p, x, lane, next)
  {
    assert ValidPort(f, p);
  }

  ghost predicate AtSwitch(f: Fabric, p: PortId) {
    p in f.ports && f.ports[p].node in f.nodes && f.nodes[f.ports[p].node].isSwitch
  }

  /** One hop of a delivery: port p of a switch to port q of the next device, or to port
      0 of the same switch. */
  ghost predicate HopsTo(f: Fabric, p: PortId, lane: Lane, dlid: Lid, x: PortId, q: PortId, next: Lane) {
    && AtSwitch(f, p) && HasRoute(f, f.ports[p].node, dlid, x) && MovesTo(f, p, x, lane, next)
    && (if f.ports[x].num == 0 then q == x else f.ports[x].neighbor == Some(q))
  }

  /** ports are the entry ports of a delivery to dlid over at most 64 switches, exits
      those between them, lanes the lanes on the way: it begins behind the start port,
      or at it in a switch, goes on while it is at a switch, not having come to its port
      0, and ends at a port whose LID range holds dlid. */
  ghost predicate IsDelivery(f: Fabric, start: PortId, dlid: Lid, sl: nat, ports: seq<PortId>, exits: seq<PortId>, lanes: seq<Lane>) {
    && start in f.ports && 0 < |ports| == |lanes| == |exits| + 1 <= 65
    && (if AtSwitch(f, start) then ports[0] == start else f.ports[start].neighbor == Some(ports[0]))
    && StartsOn(f, start, sl, lanes[0])
    && (forall i :: 0 <= i < |exits| ==> HopsTo(f, ports[i], lanes[i], dlid, exits[i], ports[i + 1], lanes[i + 1]))
    && (forall i :: 0 < i < |exits| ==> ports[i] in f.ports && f.ports[ports[i]].num != 0)
    && var last := ports[|exits|];
       && last in f.ports && (AtSwitch(f, last) ==> |exits| > 0 && f.ports[last].num == 0)
       && f.ports[last].lid <= dlid <= BitOr(f.ports[last].lid, Pow2(f.ports[last].lmc) - 1)
  }

  ghost predicate CanDeliver(f: Fabric, start: PortId, dlid: Lid, sl: nat) {
    exists ports: seq<PortId>, exits: seq<PortId>, lanes: seq<Lane> :: IsDelivery(f, start, dlid, sl, ports, exits, lanes)
  }

  /** Forwarding takes the hops that the tables allow. */
  lemma ForwardIff(f: Fabric, p: PortId, dlid: Lid, lane: Lane, x: PortId, q: PortId, next: Lane)
    requires ValidFabric(f) && p in f.ports && IsSwitch(f, p) && lane.sc < 32
    ensures Exit(f, p, dlid) == Some(x) && Forward(f, p, dlid) == Some(q) && NextLane(f, p, x, lane) == Some(next) <==>
            HopsTo(f, p, lane, dlid, x, q, next)
  {
    if x in f.ports {
      NextLaneIff(f, p, x, lane, next);
    }
    hide MovesTo, NextLane;
    if HasRoute(f, f.ports[p].node, dlid, x) {
      assert LookupLft(f, f.ports[p].node, dlid) == Some(x);
    }
  }

  lemma {:induction false} DeliveryForwards(f: Fabric, start: PortId, dlid: Lid, sl: nat,
                                            ports: seq<PortId>, exits: seq<PortId>, lanes: seq<Lane>, i: nat)
    requires Startable(f, start) && sl < 32 && IsDelivery(f, start, dlid, sl, ports, exits, lanes) && i < |ports|
    ensures At(f, start, dlid, i) == Some(ports[i]) && LaneAt(f, start, dlid, sl, i) == Some(lanes[i])
  {
    hide ValidFabric, Exit, HasRoute, MovesTo;
    if i == 0 {
      FirstLaneIff(f, start, sl, lanes[0]);
    } else {
      DeliveryForwards(f, start, dlid, sl, ports, exits, lanes, i - 1);
      assert HopsTo(f, ports[i - 1], lanes[i - 1], dlid, exits[i - 1], ports[i - 1 + 1], lanes[i - 1 + 1]);
      ForwardIff(f, ports[i - 1], dlid, lanes[i - 1], exits[i - 1], ports[i], lanes[i]);
    }
  }

  /** The ports that forwarding goes through. */
  lemma {:induction false} PortsTo(f: Fabric, start: PortId, dlid: Lid, n: nat) returns (ports: seq<PortId>)
    requires Startable(f, start) && At(f, start, dlid, n).Some?
    ensures |ports| == n + 1 && forall i {:trigger ports[i]} :: 0 <= i <= n ==> At(f, start, dlid, i) == Some(ports[i])
  {
    hide At, ValidFabric;
    if n == 0 {
      ports := [At(f, start, dlid, 0).value];
    } else {
      EarlierTransit(f, start, dlid, n - 1, n);
      ports := PortsTo(f, start, dlid, n - 1);
      ports := ports + [At(f, start, dlid, n).value];
    }
  }

  /** The lanes it goes on. */
  lemma {:induction false} LanesTo(f: Fabric, start: PortId, dlid: Lid, sl: nat, n: nat) returns (lanes: seq<Lane>)
    requires Startable(f, start) && sl < 32 && LaneAt(f, start, dlid, sl, n).Some?
    ensures |lanes| == n + 1 && forall i {:trigger lanes[i]} :: 0 <= i <= n ==> LaneAt(f, start, dlid, sl, i) == Some(lanes[i])
  {
    hide LaneAt, ValidFabric;
    if n == 0 {
      lanes := [LaneAt(f, start, dlid, sl, 0).value];
    } else {
      LaneEarlier(f, start, dlid, sl, n - 1, n);
      lanes := LanesTo(f, start, dlid, sl, n - 1);
      lanes := lanes + [LaneAt(f, start, dlid, sl, n).value];
    }
  }

  /** The exits between them. */
  lemma ExitsTo(f: Fabric, start: PortId, dlid: Lid, sl: nat, n: nat, ports: seq<PortId>, lanes: seq<Lane>) returns (exits: seq<PortId>)
    requires Startable(f, start) && sl < 32 && |ports| == |lanes| == n + 1
    requires forall i {:trigger ports[i]} :: 0 <= i <= n ==> At(f, start, dlid, i) == Some(ports[i])
    requires forall i {:trigger lanes[i]} :: 0 <= i <= n ==> LaneAt(f, start, dlid, sl, i) == Some(lanes[i])
    ensures |exits| == n && forall k :: 0 <= k < n ==> HopsTo(f, ports[k], lanes[k], dlid, exits[k], ports[k + 1], lanes[k + 1])
    ensures forall k :: 0 < k < n ==> ports[k] in f.ports && f.ports[ports[k]].num != 0
  {
    hide ValidFabric, At, LaneAt, HopsTo;
    assert At(f, start, dlid, n) == Some(ports[n]) && LaneAt(f, start, dlid, sl, n) == Some(lanes[n]);
    exits := [];
    for i := 0 to n
      invariant |exits| == i && forall k :: 0 <= k < i ==> HopsTo(f, ports[k], lanes[k], dlid, exits[k], ports[k + 1], lanes[k + 1])
      invariant forall k :: 0 < k < i ==> ports[k] in f.ports && f.ports[ports[k]].num != 0
    {
      var x := HopAt(f, start, dlid, sl, n, ports, lanes, i);
      exits := exits + [x];
    }
  }

  lemma ForwardingDelivers(f: Fabric, start: PortId, dlid: Lid, sl: nat, n: nat)
    requires Startable(f, start) && sl < 32 && n <= MAX_HOPS && DeliveredAt(f, start, dlid, sl, n)
    ensures CanDeliver(f, start, dlid, sl)
  {
    hide ValidFabric, HopsTo, StartsOn, FirstLane, LaneAt, At, Calls;
    var ports := PortsTo(f, start, dlid, n);
    var lanes := LanesTo(f, start, dlid, sl, n);
    var exits := ExitsTo(f, start, dlid, sl, n, ports, lanes);
    assert At(f, start, dlid, n) == Some(ports[n]) && At(f, start, dlid, 0) == Some(ports[0]);
    assert LaneAt(f, start, dlid, sl, 0) == Some(lanes[0]);
    StartIs(f, start, dlid, sl, ports[0], lanes[0]);
    assert IsDelivery(f, start, dlid, sl, ports, exits, lanes);
  }

  lemma StartIs(f: Fabric, start: PortId, dlid: Lid, sl: nat, p: PortId, lane: Lane)
    requires Startable(f, start) && sl < 32 && At(f, start, dlid, 0) == Some(p) && LaneAt(f, start, dlid, sl, 0) == Some(lane)
    ensures (if AtSwitch(f, start) then p == start else f.ports[start].neighbor == Some(p)) && StartsOn(f, start, sl, lane)
  {
    FirstLaneIff(f, start, sl, lane);
    hide FirstLane, ValidFabric, StartsOn;
  }

  lemma HopAt(f: Fabric, start: PortId, dlid: Lid, sl: nat, n: nat, ports: seq<PortId>, lanes: seq<Lane>, i: nat) returns (x: PortId)
    requires Startable(f, start) && sl < 32 && i < n && At(f, start, dlid, n).Some? && LaneAt(f, start, dlid, sl, n).Some?
    requires |ports| == |lanes| == n + 1
    requires At(f, start, dlid, i) == Some(ports[i]) && At(f, start, dlid, i + 1) == Some(ports[i + 1])
    requires LaneAt(f, start, dlid, sl, i) == Some(lanes[i]) && LaneAt(f, start, dlid, sl, i + 1) == Some(lanes[i + 1])
    ensures HopsTo(f, ports[i], lanes[i], dlid, x, ports[i + 1], lanes[i + 1])
    ensures ports[i] in f.ports && (i > 0 ==> f.ports[ports[i]].num != 0)
  {
    EarlierTransit(f, start, dlid, i, n);
    x := Exit(f, ports[i], dlid).value;
    ForwardIff(f, ports[i], dlid, lanes[i], x, ports[i + 1], lanes[i + 1]);
    hide ValidFabric, Exit, MovesTo, HasRoute;
  }

  /** Delivery by forwarding is delivery told from the tables. */
  lemma DeliveredIff(f: Fabric, start: PortId, dlid: Lid, sl: nat)
    requires Startable(f, start) && sl < 32
    ensures Delivered(f, start, dlid, sl) <==> CanDeliver(f, start, dlid, sl)
  {
    hide ValidFabric, At, LaneAt;
    if Delivered(f, start, dlid, sl) {
      var n: nat :| n <= MAX_HOPS && DeliveredAt(f, start, dlid, sl, n);
      ForwardingDelivers(f, start, dlid, sl, n);
    }
    if CanDeliver(f, start, dlid, sl) {
      var ports: seq<PortId>, exits: seq<PortId>, lanes: seq<Lane> :| IsDelivery(f, start, dlid, sl, ports, exits, lanes);
      DeliveryForwards(f, start, dlid, sl, ports, exits, lanes, |exits|);
      assert DeliveredAt(f, start, dlid, sl, |exits|);
    }
  }
}
