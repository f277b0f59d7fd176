/** The part of the fabric database that route analysis reads. */
module Fabric {
  import opened Bits

  datatype Option<+T> = None | Some(value: T)

  type PortId = nat
  type NodeId = nat
  type Lid = nat

  const INVALID_SC: nat := 15
  const INVALID_VL: nat := 15
  const NO_ROUTE: nat := 0xff

  /** QOS tables of a port; an scsc entry is the SC2SC table towards an egress port. */
  datatype Qos = Qos(sl2sc: seq<nat>, sc2vl: seq<nat>, scsc: map<nat, seq<nat>>)

  datatype Port = Port(
    node: NodeId,
    num: nat,
    neighbor: Option<PortId>,
    lid: Lid,
    lmc: nat,
    initialized: bool,
    qos: Option<Qos>)

  /** lft is the linear forwarding table of a switch, if it was fetched. */
  datatype Node = Node(isSwitch: bool, ports: map<nat, PortId>, lft: Option<seq<nat>>)

  datatype Fabric = Fabric(ports: map<PortId, Port>, nodes: map<NodeId, Node>)

  ghost predicate ValidQos(q: Qos) {
    && |q.sl2sc| == 32 && (forall i :: 0 <= i < 32 ==> q.sl2sc[i] < 32)
    && |q.sc2vl| == 32
    && forall e :: e in q.scsc ==> |q.scsc[e]| == 32 && forall i :: 0 <= i < 32 ==> q.scsc[e][i] < 32
  }

  ghost predicate ValidPort(f: Fabric, p: PortId)
    requires p in f.ports
  {
    var x := f.ports[p];
    && x.node in f.nodes
    && (x.qos.Some? ==> ValidQos(x.qos.value))
    && (x.neighbor.Some? ==> x.neighbor.value in f.ports && x.neighbor.value != p
                             && f.ports[x.neighbor.value].neighbor == Some(p))
  }

  /** Neighbour pointers are symmetric, node->Ports is exact, and port 0 of a
      switch, which is internal, is cabled to nothing. */
  ghost predicate ValidFabric(f: Fabric) {
    && (forall p :: p in f.ports ==> ValidPort(f, p))
    && (forall p :: p in f.ports && IsSwitch(f, p) && f.ports[p].num == 0 ==> f.ports[p].neighbor == None)
    && (forall n, k :: n in f.nodes && k in f.nodes[n].ports ==>
          && f.nodes[n].ports[k] in f.ports
          && f.ports[f.nodes[n].ports[k]].node == n
          && f.ports[f.nodes[n].ports[k]].num == k)
  }

  predicate IsSwitch(f: Fabric, p: PortId)
    requires p in f.ports
  {
    f.ports[p].node in f.nodes && f.nodes[f.ports[p].node].isSwitch
  }

  /** The last LID of a port with the given base LID and LMC. */
  function LastLid(lid: Lid, lmc: nat): nat {
    BitOr(lid, Pow2(lmc) - 1)
  }

  predicate Holds(f: Fabric, p: PortId, dlid: Lid)
    requires p in f.ports
  {
    f.ports[p].lid <= dlid <= LastLid(f.ports[p].lid, f.ports[p].lmc)
  }

  function FindNodePort(f: Fabric, n: NodeId, num: nat): Option<PortId>
    requires n in f.nodes
  {
    if num in f.nodes[n].ports then Some(f.nodes[n].ports[num]) else None
  }

  /** The table of node n has a number for dlid other than 0xff, port p of the node is
      listed under it, is initialized, and is cabled unless the number is 0. */
  ghost predicate HasRoute(f: Fabric, n: NodeId, dlid: Lid, p: PortId) {
    && n in f.nodes && f.nodes[n].lft.Some? && 0 < dlid < |f.nodes[n].lft.value|
    && var num := f.nodes[n].lft.value[dlid];
       && num != 0xff && num in f.nodes[n].ports && f.nodes[n].ports[num] == p
       && p in f.ports && f.ports[p].initialized && (num == 0 || f.ports[p].neighbor.Some?)
  }

  /** The port through which a switch forwards dlid, if that is viable. */
  function LookupLft(f: Fabric, n: NodeId, dlid: Lid): (out: Option<PortId>)
    requires ValidFabric(f) && n in f.nodes && f.nodes[n].lft.Some?
    ensures forall p: PortId :: out == Some(p) <==> HasRoute(f, n, dlid, p)
    ensures out.Some? ==>
              && out.value in f.ports && f.ports[out.value].node == n
              && dlid < |f.nodes[n].lft.value| && f.ports[out.value].num == f.nodes[n].lft.value[dlid]
              && (f.ports[out.value].num != 0 ==> f.ports[out.value].neighbor.Some?)
  {
    var lft := f.nodes[n].lft.value;
    if dlid == 0 || dlid >= |lft| then None
    else if lft[dlid] == NO_ROUTE then None
    else
      var p := FindNodePort(f, n, lft[dlid]);
      if p.None? || !f.ports[p.value].initialized || (lft[dlid] != 0 && f.ports[p.value].neighbor.None?) then None
      else p
  }
}
