/** The recursive walk of multicast routes, with its visited flags, its list of the
    route so far and the problem records it copies that list into. */
module MulticastWalk {
  import opened Fabric

  const MCAST_START: nat := 0xc000
  const MCAST_END: nat := 0xfffe
  const MAX_HOPS: int := 64
  const MAX_ENTRY_SIZE: nat := 4
  const MASK_BITS: nat := 64

  datatype Status = FSuccess | FNotDone | FUnavailable | FDuplicate | FError

  datatype Problem = NoTrace | Unavailable | Loop | NoGroup

  /** One device of a route: the port it was entered by and the exit port taken. */
  datatype Stop = Stop(port: PortId, exit: nat)

  datatype Record = Record(problem: Problem, mlid: nat, route: seq<Stop>)

  datatype McPort = McPort(node: NodeId, neighbor: Option<PortId>, initialized: bool)

  /** Switch data; no table means that no multicast FDB was fetched. */
  datatype Switch = Switch(hasTable: bool, entrySize: nat, tableSize: nat)

  datatype McNode = McNode(isFi: bool, switch: Option<Switch>, numPorts: nat, ports: map<nat, PortId>)

  datatype Net = Net(ports: map<PortId, McPort>, nodes: map<NodeId, McNode>)

  datatype Group = Group(mlid: nat, members: set<NodeId>)

  ghost predicate ValidNet(net: Net) {
    && (forall p :: p in net.ports ==> net.ports[p].node in net.nodes)
    && (forall p :: p in net.ports && net.ports[p].neighbor.Some? ==> net.ports[p].neighbor.value in net.ports)
    && (forall n, k :: n in net.nodes && k in net.nodes[n].ports ==> net.nodes[n].ports[k] in net.ports)
  }

  function NodeOf(net: Net, p: PortId): NodeId
    requires p in net.ports
  {
    net.ports[p].node
  }

  // ---- routes ----

  ghost predicate Knows(net: Net, route: seq<Stop>) {
    forall i :: 0 <= i < |route| ==> route[i].port in net.ports && NodeOf(net, route[i].port) in net.nodes
  }

  /** Leaving a stop by its exit port leads over a cable to port q. */
  ghost predicate LeadsTo(net: Net, s: Stop, q: PortId)
    requires s.port in net.ports && NodeOf(net, s.port) in net.nodes
  {
    var ports := net.nodes[NodeOf(net, s.port)].ports;
    s.exit in ports && ports[s.exit] in net.ports && net.ports[ports[s.exit]].neighbor == Some(q)
  }

  /** Each stop of the route leads to the next. */
  ghost predicate Linked(net: Net, route: seq<Stop>) {
    Knows(net, route) && forall i :: 0 <= i < |route| - 1 ==> LeadsTo(net, route[i], route[i + 1].port)
  }

  /** The route goes through node n. */
  ghost predicate Through(net: Net, route: seq<Stop>, n: NodeId) {
    exists i :: 0 <= i < |route| && route[i].port in net.ports && NodeOf(net, route[i].port) == n
  }

  /** The visited flags belong to switches of the route so far. */
  ghost predicate Covered(net: Net, visited: set<NodeId>, route: seq<Stop>) {
    forall n :: n in visited ==> Through(net, route, n)
  }

  /** The last stop of a loop record is at a switch the record already went
      through: together with the links this is a real cycle of cables. */
  ghost predicate IsLoop(net: Net, route: seq<Stop>) {
    && |route| > 0
    && route[|route| - 1].port in net.ports
    && Through(net, route[..|route| - 1], NodeOf(net, route[|route| - 1].port))
  }

  /** What a recorded route ends at: a cycle for a loop, an FI outside the group, a
      switch without a usable table or without an entry for the group, and otherwise too
      long a route, a switch without switch data or an exit that is not viable. */
  ghost predicate EndsBadly(net: Net, group: Group, problem: Problem, route: seq<Stop>)
    requires |route| > 0 && Knows(net, route)
  {
    var last := route[|route| - 1];
    var n := NodeOf(net, last.port);
    match problem
    case Loop => IsLoop(net, route)
    case NoGroup => net.nodes[n].isFi && n !in group.members
    case Unavailable =>
      && !net.nodes[n].isFi && net.nodes[n].switch.Some?
      && var sw := net.nodes[n].switch.value;
         !sw.hasTable || sw.entrySize > 4 || group.mlid > 0xfffe || group.mlid == 0xc000 + sw.tableSize
    case NoTrace => |route| >= 64 || (!net.nodes[n].isFi && net.nodes[n].switch.None?) || !Viable(net, n, last.exit)
  }

  ghost predicate Genuine(net: Net, group: Group, r: Record) {
    r.mlid == group.mlid && Linked(net, r.route) && |r.route| > 0 && EndsBadly(net, group, r.problem, r.route)
  }

  ghost predicate AllGenuine(net: Net, group: Group, records: seq<Record>, lo: nat) {
    forall i :: lo <= i < |records| ==> Genuine(net, group, records[i])
  }

  /** A proper route so far: linked, with the flags of its switches only, and counted in
      full or less. */
  ghost predicate Proper(net: Net, visited: set<NodeId>, route: seq<Stop>, hop: int) {
    Linked(net, route) && Covered(net, visited, route) && hop <= |route|
  }

  /** A walk that enters port next continues a proper route. */
  ghost predicate Ready(net: Net, visited: set<NodeId>, route: seq<Stop>, port: PortId, hop: int) {
    Proper(net, visited, route, hop) && (route == [] || LeadsTo(net, route[|route| - 1], port))
  }

  lemma Entered(net: Net, visited: set<NodeId>, route: seq<Stop>, port: PortId, exit: nat, hop: int)
    requires ValidNet(net) && port in net.ports && Ready(net, visited, route, port, hop)
    ensures Proper(net, visited + {NodeOf(net, port)}, route + [Stop(port, exit)], hop + 1)
    ensures NodeOf(net, port) in visited ==> IsLoop(net, route + [Stop(port, exit)])
  {
    var r := route + [Stop(port, exit)];
    assert r[|route|].port == port && r[..|r| - 1] == route;
    forall n | n in visited + {NodeOf(net, port)}
      ensures Through(net, r, n)
    {
      if n in visited {
        var i :| 0 <= i < |route| && route[i].port in net.ports && NodeOf(net, route[i].port) == n;
        assert r[i] == route[i];
      }
    }
  }

  /** Noting another exit at the last stop changes neither links nor nodes. */
  lemma Reexit(net: Net, visited: set<NodeId>, route: seq<Stop>, exit: nat, hop: int)
    requires |route| > 0 && Proper(net, visited, route, hop)
    ensures Proper(net, visited, route[|route| - 1 := Stop(route[|route| - 1].port, exit)], hop)
  {
    var r := route[|route| - 1 := Stop(route[|route| - 1].port, exit)];
    assert forall i :: 0 <= i < |route| ==> r[i].port == route[i].port;
    forall n | n in visited
      ensures Through(net, r, n)
    {
      var i :| 0 <= i < |route| && route[i].port in net.ports && NodeOf(net, route[i].port) == n;
      assert r[i].port == route[i].port;
    }
  }

  lemma AppendGenuine(net: Net, group: Group, records: seq<Record>, lo: nat, r: Record)
    requires AllGenuine(net, group, records, lo) && Genuine(net, group, r)
    ensures AllGenuine(net, group, records + [r], lo)
  {
  }

  /** What entering a device shows. */
  datatype Finding = Clear | Found(problem: Problem) | Broken

  /** The tests on entering a device, in order: too many hops, an FI outside the group,
      no switch data, no usable table, a table too short, no entry for the group, a
      switch met before.  A group one past the table is let through to the lookup. */
  function FindingAt(node: McNode, isMember: bool, seen: bool, mlid: nat, hop: int): Finding {
    if hop >= MAX_HOPS then Found(NoTrace)
    else if node.isFi then if isMember then Clear else Found(NoGroup)
    else if node.switch.None? then Found(NoTrace)
    else if !node.switch.value.hasTable || node.switch.value.entrySize > MAX_ENTRY_SIZE then Found(Unavailable)
    else if mlid < MCAST_START || mlid - MCAST_START > node.switch.value.tableSize then Broken
    else if !(MCAST_START <= mlid <= MCAST_END && mlid - MCAST_START < node.switch.value.tableSize) then Found(Unavailable)
    else if seen then Found(Loop)
    else Clear
  }

  function StatusOf(problem: Problem): Status
  {
    match problem
    case NoTrace => FNotDone
    case Unavailable => FUnavailable
    case Loop => FDuplicate
    case NoGroup => FUnavailable
  }

  lemma KnowsMore(net: Net, route: seq<Stop>, port: PortId)
    requires ValidNet(net) && Knows(net, route) && port in net.ports
    ensures NodeOf(net, port) in net.nodes && Knows(net, route + [Stop(port, 0)])
  {
  }

  // ---- what the tables allow ----

  /** What decides where packets of a group go: port numbers and multicast tables. */
  datatype View = View(net: Net, portNum: map<PortId, nat>, mft: map<(NodeId, nat), set<nat>>, group: Group)

  function MaskIn(mft: map<(NodeId, nat), set<nat>>, n: NodeId, mlid: nat): set<nat> {
    if (n, mlid) in mft then mft[(n, mlid)] else {}
  }

  /** The switch entered by s.port forwards to its port s.exit. */
  ghost predicate Allowed(v: View, s: Stop) {
    && s.port in v.net.ports && NodeOf(v.net, s.port) in v.net.nodes && s.port in v.portNum
    && 1 <= s.exit <= v.net.nodes[NodeOf(v.net, s.port)].numPorts && s.exit < 64
    && s.exit != v.portNum[s.port]
    && (NodeOf(v.net, s.port), v.group.mlid) in v.mft && s.exit in v.mft[(NodeOf(v.net, s.port), v.group.mlid)]
  }

  /** An initialized port with a cable. */
  ghost predicate Viable(net: Net, n: NodeId, exit: nat)
  {
    && n in net.nodes && exit in net.nodes[n].ports
    && var out := net.nodes[n].ports[exit];
       out in net.ports && net.ports[out].initialized && net.ports[out].neighbor.Some?
  }

  ghost function Beyond(net: Net, n: NodeId, exit: nat): (q: PortId)
    requires ValidNet(net) && Viable(net, n, exit)
    ensures q in net.ports
  {
    net.ports[net.nodes[n].ports[exit]].neighbor.value
  }

  /** A switch with switch data and a table whose entries are at most 4 wide. */
  ghost predicate Usable(node: McNode) {
    !node.isFi && node.switch.Some? && node.switch.value.hasTable && node.switch.value.entrySize <= 4
  }

  /** A switch with an entry for the group. */
  ghost predicate HasEntry(node: McNode, mlid: nat) {
    Usable(node) && 0xc000 <= mlid <= 0xfffe && mlid < 0xc000 + node.switch.value.tableSize
  }

  /** The group is outside the multicast range or more than one past the table. */
  ghost predicate OutOfTable(node: McNode, mlid: nat) {
    Usable(node) && (mlid < 0xc000 || mlid > 0xc000 + node.switch.value.tableSize)
  }

  /** Fewer than 64 hops led to a member of the group, or to a switch that has an entry
      for the group and is met for the first time. */
  ghost predicate Enterable(v: View, port: PortId, visited: set<NodeId>, hop: int)
    requires ValidNet(v.net) && port in v.net.ports
  {
    var n := NodeOf(v.net, port);
    hop < 64 && if v.net.nodes[n].isFi then n in v.group.members else HasEntry(v.net.nodes[n], v.group.mlid) && n !in visited
  }

  /** What a device shows that is entered by the hop-th hop. */
  ghost predicate Shows(v: View, port: PortId, visited: set<NodeId>, hop: int, finding: Finding)
    requires ValidNet(v.net) && port in v.net.ports
  {
    var n := NodeOf(v.net, port);
    var node, mlid := v.net.nodes[n], v.group.mlid;
    match finding
    case Clear => Enterable(v, port, visited, hop)
    case Broken => hop < 64 && OutOfTable(node, mlid)
    case Found(NoTrace) => hop >= 64 || (!node.isFi && node.switch.None?)
    case Found(NoGroup) => hop < 64 && node.isFi && n !in v.group.members
    case Found(Unavailable) =>
      && hop < 64 && !node.isFi && node.switch.Some?
      && (!Usable(node) || (!HasEntry(node, mlid) && !OutOfTable(node, mlid)))
    case Found(Loop) => hop < 64 && HasEntry(node, mlid) && n in visited
  }

  /** The tests of the walk tell exactly that. */
  lemma FindingIff(v: View, port: PortId, visited: set<NodeId>, hop: int, finding: Finding)
    requires ValidNet(v.net) && port in v.net.ports
    ensures var n := NodeOf(v.net, port);
            FindingAt(v.net.nodes[n], n in v.group.members, n in visited, v.group.mlid, hop) == finding <==> Shows(v, port, visited, hop, finding)
  {
  }

  /** The device entered by port is reached for the first time, by the hop-th hop, is
      a member of the group or a switch with a table, and has no dead exits. */
  ghost predicate Sound(v: View, port: PortId, visited: set<NodeId>, hop: int)
    requires ValidNet(v.net) && port in v.net.ports
  {
    && Enterable(v, port, visited, hop)
    && (!v.net.nodes[NodeOf(v.net, port)].isFi ==>
          forall e: nat :: Allowed(v, Stop(port, e)) ==> Viable(v.net, NodeOf(v.net, port), e))
  }

  /** A route that goes where the switches forward to; FIs do not forward. */
  ghost predicate Followed(v: View, route: seq<Stop>)
    requires ValidNet(v.net)
  {
    && Linked(v.net, route)
    && forall i :: 0 <= i < |route| - 1 ==> Allowed(v, route[i]) && !v.net.nodes[NodeOf(v.net, route[i].port)].isFi
  }

  ghost function NodesOf(net: Net, route: seq<Stop>): set<NodeId>
    requires Knows(net, route)
  {
    set i | 0 <= i < |route| :: NodeOf(net, route[i].port)
  }

  /** The last device of the route is sound, given its earlier devices. */
  ghost predicate EndSound(v: View, route: seq<Stop>, visited: set<NodeId>, hop: int)
    requires ValidNet(v.net) && Linked(v.net, route) && |route| > 0
  {
    Sound(v, route[|route| - 1].port, visited + NodesOf(v.net, route[..|route| - 1]), hop + |route|)
  }

  /** Every route the tables allow from port onwards is in order: it meets no switch
      twice, is not too long, and has no dead end. */
  ghost predicate AllSound(v: View, port: PortId, visited: set<NodeId>, hop: int)
    requires ValidNet(v.net)
  {
    forall route: seq<Stop> :: |route| > 0 && route[0].port == port && Followed(v, route) ==> EndSound(v, route, visited, hop)
  }

  /** The same seen from one exit of a switch already entered. */
  ghost predicate ExitSound(v: View, port: PortId, exit: nat, visited: set<NodeId>, hop: int)
    requires ValidNet(v.net) && port in v.net.ports
  {
    var n := NodeOf(v.net, port);
    Viable(v.net, n, exit) && AllSound(v, Beyond(v.net, n, exit), visited, hop)
  }

  ghost predicate ExitsSound(v: View, port: PortId, visited: set<NodeId>, hop: int, below: nat)
    requires ValidNet(v.net) && port in v.net.ports
  {
    forall e: nat :: e < below && Allowed(v, Stop(port, e)) ==> ExitSound(v, port, e, visited, hop)
  }

  /** Dropping the first stop. */
  lemma ShorterRoute(v: View, route: seq<Stop>)
    requires ValidNet(v.net) && |route| > 1 && Followed(v, route)
    ensures Followed(v, route[1..]) && LeadsTo(v.net, route[0], route[1].port)
    ensures NodesOf(v.net, route[..|route| - 1]) == {NodeOf(v.net, route[0].port)} + NodesOf(v.net, route[1..][..|route| - 2])
  {
    var a, b := route[..|route| - 1], route[1..][..|route| - 2];
    assert forall i :: 0 <= i < |b| ==> b[i] == a[i + 1];
    assert forall i :: 1 <= i < |a| ==> a[i] == b[i - 1];
    assert forall i :: 0 <= i < |route| - 1 ==> route[1..][i] == route[i + 1];
    forall i | 0 <= i < |route| - 2
      ensures LeadsTo(v.net, route[1..][i], route[1..][i + 1].port)
    {
      assert LeadsTo(v.net, route[i + 1], route[i + 2].port);
    }
    assert NodesOf(v.net, a) == {NodeOf(v.net, a[0].port)} + NodesOf(v.net, b);
  }

  /** Putting a switch in front. */
  lemma LongerRoute(v: View, s: Stop, route: seq<Stop>)
    requires ValidNet(v.net) && |route| > 0 && Followed(v, route) && Allowed(v, s) && LeadsTo(v.net, s, route[0].port)
    requires !v.net.nodes[NodeOf(v.net, s.port)].isFi
    ensures Followed(v, [s] + route)
  {
    var r := [s] + route;
    forall i | 0 <= i < |r| - 1
      ensures LeadsTo(v.net, r[i], r[i + 1].port) && Allowed(v, r[i]) && !v.net.nodes[NodeOf(v.net, r[i].port)].isFi
    {
      if i > 0 {
        assert r[i] == route[i - 1] && r[i + 1] == route[i];
        assert LeadsTo(v.net, route[i - 1], route[i - 1 + 1].port);
      }
    }
  }

  lemma SingleRoute(v: View, port: PortId, visited: set<NodeId>, hop: int)
    requires ValidNet(v.net) && port in v.net.ports
    ensures Followed(v, [Stop(port, 0)])
    ensures EndSound(v, [Stop(port, 0)], visited, hop) <==> Sound(v, port, visited, hop + 1)
  {
    assert visited + NodesOf(v.net, []) == visited;
  }

  lemma EndSoundShorter(v: View, route: seq<Stop>, visited: set<NodeId>, hop: int)
    requires ValidNet(v.net) && |route| > 1 && Followed(v, route)
    ensures Followed(v, route[1..])
    ensures EndSound(v, route, visited, hop) <==> EndSound(v, route[1..], visited + {NodeOf(v.net, route[0].port)}, hop + 1)
  {
    hide Sound, LeadsTo, Allowed;
    ShorterRoute(v, route);
    var n := NodeOf(v.net, route[0].port);
    assert visited + NodesOf(v.net, route[..|route| - 1]) == (visited + {n}) + NodesOf(v.net, route[1..][..|route| - 2]);
  }

  /** All routes from a port are in order exactly if the device is, and all routes
      beyond each of its exits are. */
  lemma AllSoundUnfold(v: View, port: PortId, visited: set<NodeId>, hop: int)
    requires ValidNet(v.net) && port in v.net.ports && v.portNum.Keys == v.net.ports.Keys
    ensures var n := NodeOf(v.net, port);
            AllSound(v, port, visited, hop) <==>
              && Enterable(v, port, visited, hop + 1)
              && (!v.net.nodes[n].isFi ==> ExitsSound(v, port, visited + {n}, hop + 1, v.net.nodes[n].numPorts + 1))
  {
    hide Enterable, EndSound, Followed, LeadsTo;
    if AllSound(v, port, visited, hop) {
      SoundBeyond(v, port, visited, hop);
    } else if Enterable(v, port, visited, hop + 1) {
      UnsoundBeyond(v, port, visited, hop);
    }
  }

  lemma SoundBeyond(v: View, port: PortId, visited: set<NodeId>, hop: int)
    requires ValidNet(v.net) && port in v.net.ports && AllSound(v, port, visited, hop)
    ensures var n := NodeOf(v.net, port);
            && Enterable(v, port, visited, hop + 1)
            && (!v.net.nodes[n].isFi ==> ExitsSound(v, port, visited + {n}, hop + 1, v.net.nodes[n].numPorts + 1))
  {
    hide Enterable, EndSound, Linked, LeadsTo, ValidNet;
    SingleRoute(v, port, visited, hop);
    NodeKnown(v.net, port);
    var n := NodeOf(v.net, port);
    assert [Stop(port, 0)][0].port == port;
    assert Sound(v, port, visited, hop + 1);
    if !v.net.nodes[n].isFi {
      forall e: nat, route: seq<Stop> | Allowed(v, Stop(port, e)) && |route| > 0 && route[0].port == Beyond(v.net, n, e) && Followed(v, route)
        ensures EndSound(v, route, visited + {n}, hop + 1)
      {
        SoundExit(v, port, e, visited, hop, route);
      }
    }
  }

  lemma SoundExit(v: View, port: PortId, e: nat, visited: set<NodeId>, hop: int, route: seq<Stop>)
    requires ValidNet(v.net) && port in v.net.ports && AllSound(v, port, visited, hop)
    requires !v.net.nodes[NodeOf(v.net, port)].isFi && Allowed(v, Stop(port, e)) && Viable(v.net, NodeOf(v.net, port), e)
    requires |route| > 0 && route[0].port == Beyond(v.net, NodeOf(v.net, port), e) && Followed(v, route)
    ensures EndSound(v, route, visited + {NodeOf(v.net, port)}, hop + 1)
  {
    hide EndSound, Followed, Allowed;
    var r := [Stop(port, e)] + route;
    assert LeadsTo(v.net, Stop(port, e), route[0].port);
    LongerRoute(v, Stop(port, e), route);
    assert r[0].port == port;
    EndSoundShorter(v, r, visited, hop);
    assert r[1..] == route;
  }

  lemma UnsoundBeyond(v: View, port: PortId, visited: set<NodeId>, hop: int)
    requires ValidNet(v.net) && port in v.net.ports && v.portNum.Keys == v.net.ports.Keys && !AllSound(v, port, visited, hop)
    requires Enterable(v, port, visited, hop + 1)
    ensures var n := NodeOf(v.net, port);
            !v.net.nodes[n].isFi && !ExitsSound(v, port, visited + {n}, hop + 1, v.net.nodes[n].numPorts + 1)
  {
    hide Enterable, EndSound, ValidNet, AllSound;
    var n := NodeOf(v.net, port);
    var route := UnsoundRoute(v, port, visited, hop);
    if |route| == 1 {
      assert route[..0] == [];
      EndOfSingle(v, route, visited, hop);
    } else {
      ShorterRoute(v, route);
      EndSoundShorter(v, route, visited, hop);
      var e := route[0].exit;
      assert route[0] == Stop(port, e) && Allowed(v, Stop(port, e));
      BeyondIsUnsound(v, port, e, visited, hop, route[1..]);
    }
  }

  ghost function UnsoundRoute(v: View, port: PortId, visited: set<NodeId>, hop: int): (route: seq<Stop>)
    requires ValidNet(v.net) && !AllSound(v, port, visited, hop)
    ensures |route| > 0 && route[0].port == port && Followed(v, route) && !EndSound(v, route, visited, hop)
  {
    var route: seq<Stop> :| |route| > 0 && route[0].port == port && Followed(v, route) && !EndSound(v, route, visited, hop);
    route
  }

  lemma EndOfSingle(v: View, route: seq<Stop>, visited: set<NodeId>, hop: int)
    requires ValidNet(v.net) && |route| == 1 && Followed(v, route)
    ensures EndSound(v, route, visited, hop) <==> Sound(v, route[0].port, visited, hop + 1)
  {
    assert visited + NodesOf(v.net, route[..0]) == visited;
  }

  lemma BeyondIsUnsound(v: View, port: PortId, e: nat, visited: set<NodeId>, hop: int, rest: seq<Stop>)
    requires ValidNet(v.net) && port in v.net.ports && Allowed(v, Stop(port, e))
    requires |rest| > 0 && Followed(v, rest) && LeadsTo(v.net, Stop(port, e), rest[0].port)
    requires !EndSound(v, rest, visited + {NodeOf(v.net, port)}, hop + 1)
    ensures !ExitSound(v, port, e, visited + {NodeOf(v.net, port)}, hop + 1)
  {
    hide EndSound, Followed, Allowed;
  }

  // ---- walks that fail ----

  /** The group's LID is in the multicast range and at most one past the table of every
      switch that has a usable one. */
  ghost predicate TablesReach(net: Net, mlid: nat) {
    forall n :: n in net.nodes && Usable(net.nodes[n]) ==> !OutOfTable(net.nodes[n], mlid)
  }

  /** The exit that the walk takes first. */
  ghost predicate FirstExit(v: View, port: PortId, e: nat) {
    Allowed(v, Stop(port, e)) && forall d: nat :: d < e ==> !Allowed(v, Stop(port, d))
  }

  /** Taking the first exit at every device, the walk comes to a switch whose table is
      too short. */
  ghost predicate Doomed(v: View, port: PortId, visited: set<NodeId>, hop: int)
    requires ValidNet(v.net) && port in v.net.ports
    decreases |v.net.nodes.Keys - visited|, 0
  {
    var n := NodeOf(v.net, port);
    || Shows(v, port, visited, hop, Broken)
    || (Shows(v, port, visited, hop, Clear) && !v.net.nodes[n].isFi
        && assert v.net.nodes.Keys - visited == (v.net.nodes.Keys - (visited + {n})) + {n};
           DoomedExit(v, port, visited + {n}, hop))
  }

  ghost predicate DoomedExit(v: View, port: PortId, visited: set<NodeId>, hop: int)
    requires ValidNet(v.net) && port in v.net.ports
    decreases |v.net.nodes.Keys - visited|, 2
  {
    exists e: nat :: FirstExit(v, port, e) && DoomedBeyond(v, port, e, visited, hop)
  }

  ghost predicate DoomedBeyond(v: View, port: PortId, e: nat, visited: set<NodeId>, hop: int)
    requires ValidNet(v.net) && port in v.net.ports
    decreases |v.net.nodes.Keys - visited|, 1
  {
    Viable(v.net, NodeOf(v.net, port), e) && Doomed(v, Beyond(v.net, NodeOf(v.net, port), e), visited, hop + 1)
  }

  lemma AllowedIs(v: View, port: PortId, e: nat)
    requires ValidNet(v.net) && port in v.net.ports && v.portNum.Keys == v.net.ports.Keys
    ensures Allowed(v, Stop(port, e)) <==>
              && 1 <= e <= v.net.nodes[NodeOf(v.net, port)].numPorts && e < MASK_BITS
              && e != v.portNum[port] && e in MaskIn(v.mft, NodeOf(v.net, port), v.group.mlid)
  {
  }

  class Walker {
    var visited: set<NodeId>
    var portNum: map<PortId, nat>
    var mft: map<(NodeId, nat), set<nat>>
    var route: seq<Stop>
    var records: seq<Record>
    var hop: int

    constructor (net: Net, nums: map<PortId, nat>, tables: map<(NodeId, nat), set<nat>>)
      requires nums.Keys == net.ports.Keys
      ensures visited == {} && route == [] && records == [] && portNum == nums && mft == tables
    {
      visited, portNum, mft := {}, nums, tables;
      route, records, hop := [], [], 0;
    }

    ghost predicate Valid(net: Net)
      reads this
    {
      ValidNet(net) && portNum.Keys == net.ports.Keys && Knows(net, route)
    }

    ghost function Now(net: Net, group: Group): View
      reads this
    {
      View(net, portNum, mft, group)
    }

    /** Copies the route so far into the list of problem routes. */
    method CopyToList(problem: Problem, mlid: nat)
      modifies this`records
      ensures records == old(records) + [Record(problem, mlid, route)]
    {
      records := records + [Record(problem, mlid, route)];
    }

    /** Reports a problem at the stop just entered and takes it off the route; a loop
        also closes the exit towards the port entered by. */
    method Report(problem: Problem, n: NodeId, mlid: nat, ghost outer: seq<Stop>, here: Stop)
      requires route == outer + [here] && here.port in portNum
      modifies this`records, this`route, this`mft
      ensures records == old(records) + [Record(problem, mlid, outer + [here])] && route == outer
      ensures mft == if problem == Loop then old(mft)[(n, mlid) := old(MaskIn(mft, n, mlid)) - {portNum[here.port]}] else old(mft)
    {
      CopyToList(problem, mlid);
      if problem == Loop {
        mft := mft[(n, mlid) := MaskIn(mft, n, mlid) - {portNum[here.port]}];
      }
      route := route[..|route| - 1];
    }

    /** Adds a device to the route; at the start of a route its port is told its number. */
    method Enter(port: PortId, entryPort: nat)
      modifies this`hop, this`route, this`portNum
      ensures hop == old(hop) + 1 && route == old(route) + [Stop(port, 0)]
      ensures portNum == Renumbered(old(portNum), port, entryPort)
    {
      hop := hop + 1;
      route := route + [Stop(port, 0)];
      if entryPort != 0 {
        portNum := portNum[port := entryPort];
      }
    }

    /** Walks the multicast tree from a port.  Unless it fails with an error, it
        leaves the visited flags and the route as it found them, and from a proper
        route every problem it records is genuine.  It records nothing exactly if
        every route the tables allow from there is in order.  A problem with the device
        entered is recorded as what it is. */
    method Walk(net: Net, group: Group, port: PortId, entryPort: nat) returns (status: Status)
      requires Valid(net) && port in net.ports
      modifies this
      ensures Valid(net) && portNum == Renumbered(old(portNum), port, entryPort)
      ensures status != FError ==> visited == old(visited) && route == old(route) && hop <= old(hop) + 1
      ensures old(records) <= records
      ensures old(Ready(net, visited, route, port, hop)) ==> AllGenuine(net, group, records, |old(records)|)
      ensures status != FError && records == old(records) <==>
                AllSound(View(net, portNum, old(mft), group), port, old(visited), old(hop))
      ensures status != FError && records == old(records) ==> mft == old(mft) && hop == old(hop) + 1 && status == FSuccess
      ensures TablesReach(net, group.mlid) ==> status != FError
      ensures Doomed(View(net, portNum, old(mft), group), port, old(visited), old(hop) + 1) ==> status == FError
      ensures forall problem :: Shows(View(net, portNum, old(mft), group), port, old(visited), old(hop) + 1, Found(problem)) ==>
                && records == old(records) + [Record(problem, group.mlid, old(route) + [Stop(port, 0)])]
                && status == (if problem == NoTrace then FNotDone else if problem == Loop then FDuplicate else FUnavailable)
      ensures Shows(View(net, portNum, old(mft), group), port, old(visited), old(hop) + 1, Clear) ==>
                status == FError && !net.nodes[NodeOf(net, port)].isFi ==> NodeOf(net, port) in visited
      ensures status == FError ==> old(visited) <= visited
      decreases |net.nodes.Keys - visited|, 0
    {
      hide Proper, LeadsTo, IsLoop, Ready, Genuine, AllGenuine, Knows, ValidNet, AllSound, ExitsSound, Enterable, FindingAt, DoomedExit, TablesReach, Shows;
      KnowsMore(net, route, port);
      var n := NodeOf(net, port);
      var node := net.nodes[n];
      ghost var ready := Ready(net, visited, route, port, hop);
      NoneYet(net, group, records);
      ghost var outer := route;
      Enter(port, entryPort);
      ghost var v := Now(net, group);
      AllSoundUnfold(v, port, visited, old(hop));
      var finding := FindingAt(node, n in group.members, n in visited, group.mlid, hop);
      OnlyShows(v, port, visited, hop, finding);
      if finding.Broken? {
        return FError;
      } else if finding.Found? {
        if ready {
          ShownIsGenuine(v, visited, outer, port, old(hop), finding.problem);
        }
        Report(finding.problem, n, group.mlid, outer, Stop(port, 0));
        GenuineIf(net, group, old(records), Record(finding.problem, group.mlid, outer + [Stop(port, 0)]), ready);
        status := StatusOf(finding.problem);
      } else if node.isFi {
        route := route[..|route| - 1];
        assert route == outer;
        status := FSuccess;
      } else {
        if ready {
          Entered(net, visited, outer, port, 0, old(hop));
        }
        status := WalkSwitch(net, group, port, entryPort, outer);
      }
    }

    /** Flags an unvisited switch while its ports are walked. */
    method WalkSwitch(net: Net, group: Group, port: PortId, entryPort: nat, ghost outer: seq<Stop>) returns (status: Status)
      requires Valid(net) && port in net.ports && route == outer + [Stop(port, 0)]
      requires NodeOf(net, port) in net.nodes && NodeOf(net, port) !in visited && entryPort in {0, portNum[port]}
      modifies this
      ensures Valid(net) && portNum == old(portNum)
      ensures status != FError ==> visited == old(visited) && route == outer && hop <= old(hop)
      ensures old(records) <= records
      ensures old(Proper(net, visited + {NodeOf(net, port)}, route, hop)) ==> AllGenuine(net, group, records, |old(records)|)
      ensures status != FError && records == old(records) <==>
                old(ExitsSound(Now(net, group), port, visited + {NodeOf(net, port)}, hop, net.nodes[NodeOf(net, port)].numPorts + 1))
      ensures status != FError && records == old(records) ==> mft == old(mft) && hop == old(hop) && status == FSuccess
      ensures TablesReach(net, group.mlid) ==> status != FError
      ensures old(DoomedExit(Now(net, group), port, visited + {NodeOf(net, port)}, hop)) ==> status == FError
      ensures status == FError ==> old(visited) + {NodeOf(net, port)} <= visited
      decreases |net.nodes.Keys - visited|, 0, 0
    {
      hide Proper, AllGenuine, ValidNet, ExitsSound, DoomedExit, TablesReach;
      var n := NodeOf(net, port);
      visited := visited + {n};
      assert net.nodes.Keys - old(visited) == (net.nodes.Keys - visited) + {n};
      status := WalkPorts(net, group, port, entryPort);
      if status != FError {
        visited := visited - {n};
        route := route[..|route| - 1];
        assert old(route)[..|old(route)| - 1] == outer;
      }
    }

    /** Follows every exit port in the switch's mask except the one entered by. */
    method WalkPorts(net: Net, group: Group, port: PortId, entryPort: nat) returns (status: Status)
      requires Valid(net) && port in net.ports && |route| > 0 && route[|route| - 1].port == port && entryPort in {0, portNum[port]}
      modifies this
      ensures Valid(net) && portNum == old(portNum)
      ensures status != FError ==> visited == old(visited) && |route| == |old(route)| && route[..|route| - 1] == old(route[..|route| - 1])
      ensures status != FError ==> hop <= old(hop)
      ensures old(records) <= records
      ensures old(Proper(net, visited, route, hop)) ==> AllGenuine(net, group, records, |old(records)|)
      ensures status != FError && records == old(records) <==>
                old(ExitsSound(Now(net, group), port, visited, hop, net.nodes[NodeOf(net, port)].numPorts + 1))
      ensures status != FError && records == old(records) ==> mft == old(mft) && hop == old(hop) && status == FSuccess
      ensures TablesReach(net, group.mlid) ==> status != FError
      ensures old(DoomedExit(Now(net, group), port, visited, hop)) ==> status == FError
      ensures status == FError ==> old(visited) <= visited
      decreases |net.nodes.Keys - visited|, 2
    {
      hide Proper, LeadsTo, IsLoop, Ready, AllGenuine, ValidNet, Allowed, ExitSound, ExitsSound, DoomedBeyond, TablesReach;
      NodeKnown(net, port);
      var n := NodeOf(net, port);
      ghost var v := Now(net, group);
      ghost var good := Proper(net, visited, route, hop);
      NoneYet(net, group, records);
      status := FSuccess;
      NoExits(v, port, visited, hop);
      ghost var doomed, first: nat := DoomedExit(v, port, visited, hop), 0;
      if doomed {
        first :| FirstExit(v, port, first) && DoomedBeyond(v, port, first, visited, hop);
        AllowedIs(v, port, first);
      }
      for exit := 1 to net.nodes[n].numPorts + 1
        invariant Valid(net) && visited == old(visited) && portNum == old(portNum)
        invariant |route| == |old(route)| && route[..|route| - 1] == old(route[..|route| - 1]) && route[|route| - 1].port == port
        invariant old(records) <= records && status != FError
        invariant good ==> Proper(net, visited, route, hop) && AllGenuine(net, group, records, |old(records)|)
        invariant records == old(records) <==> ExitsSound(v, port, old(visited), old(hop), exit)
        invariant records == old(records) ==> mft == old(mft) && hop == old(hop) && status == FSuccess
        invariant hop <= old(hop)
        invariant doomed ==> exit <= first && records == old(records)
      {
        NextExit(v, port, visited, old(hop), exit);
        AllowedIs(v, port, exit);
        if (portNum[port] == 0 && entryPort != exit) || portNum[port] != exit {
          if exit in MaskIn(mft, n, group.mlid) && exit < MASK_BITS {
            status := WalkExit(net, group, port, exit, |old(records)|);
            if ExitsSound(v, port, old(visited), old(hop), net.nodes[n].numPorts + 1) {
              FewerExits(v, port, old(visited), old(hop), exit + 1, net.nodes[n].numPorts + 1);
            }
            if status == FError {
              return;
            }
            if good {
              CountLess(net, visited, route, hop);
            }
            hop := hop - 1;
          }
        }
      }
    }

    /** One exit port: notes it in the route and, if it is viable, walks on from there;
        an exit that is not is recorded. */
    method WalkExit(net: Net, group: Group, port: PortId, exit: nat, ghost lo: nat) returns (status: Status)
      requires Valid(net) && port in net.ports && |route| > 0 && route[|route| - 1].port == port && lo <= |records|
      modifies this
      ensures Valid(net) && portNum == old(portNum)
      ensures status != FError ==> visited == old(visited) && route == old(route[|route| - 1 := Stop(port, exit)]) && hop <= old(hop) + 1
      ensures old(records) <= records
      ensures old(Proper(net, visited, route, hop) && AllGenuine(net, group, records, lo)) ==>
                AllGenuine(net, group, records, lo) && (status != FError ==> Proper(net, visited, route, hop - 1))
      ensures status != FError && records == old(records) <==> old(ExitSound(Now(net, group), port, exit, visited, hop))
      ensures status != FError && records == old(records) ==> mft == old(mft) && hop == old(hop) + 1 && status == FSuccess
      ensures !Viable(net, NodeOf(net, port), exit) ==>
                && records == old(records) + [Record(NoTrace, group.mlid, old(route[|route| - 1 := Stop(port, exit)]))]
                && status == FNotDone && mft == old(mft) && hop == old(hop)
      ensures TablesReach(net, group.mlid) ==> status != FError
      ensures old(DoomedBeyond(Now(net, group), port, exit, visited, hop)) ==> status == FError
      ensures status == FError ==> old(visited) <= visited
      decreases |net.nodes.Keys - visited|, 1
    {
      hide Proper, Ready, LeadsTo, IsLoop, Genuine, AllGenuine, AllSound, Doomed, TablesReach, Shows;
      var n := NodeOf(net, port);
      ghost var good := Proper(net, visited, route, hop);
      if good {
        Reexit(net, visited, route, exit, hop);
      }
      route := route[|route| - 1 := Stop(port, exit)];
      if exit !in net.nodes[n].ports || !net.ports[net.nodes[n].ports[exit]].initialized || net.ports[net.nodes[n].ports[exit]].neighbor.None? {
        CopyToList(NoTrace, group.mlid);
        if good && AllGenuine(net, group, old(records), lo) {
          LessCounted(net, visited, route, hop, hop - 1);
          DeadExit(net, group, visited, route, hop);
          AppendGenuine(net, group, old(records), lo, Record(NoTrace, group.mlid, route));
        }
        return FNotDone;
      }
      if good {
        Onward(net, visited, route, hop);
      }
      ghost var far := route;
      status := Walk(net, group, net.ports[net.nodes[n].ports[exit]].neighbor.value, 0);
      if good && status != FError {
        LessCounted(net, visited, far, old(hop), hop - 1);
      }
      if good && AllGenuine(net, group, old(records), lo) {
        JoinGenuine(net, group, old(records), records, lo);
      }
    }
  }

  lemma LessCounted(net: Net, visited: set<NodeId>, route: seq<Stop>, hop: int, less: int)
    requires Proper(net, visited, route, hop) && less <= hop
    ensures Proper(net, visited, route, less)
  {
  }

  lemma Onward(net: Net, visited: set<NodeId>, route: seq<Stop>, hop: int)
    requires ValidNet(net) && Proper(net, visited, route, hop) && |route| > 0 && route[|route| - 1].port in net.ports
    requires Viable(net, NodeOf(net, route[|route| - 1].port), route[|route| - 1].exit)
    ensures Ready(net, visited, route, Beyond(net, NodeOf(net, route[|route| - 1].port), route[|route| - 1].exit), hop)
  {
  }

  lemma DeadExit(net: Net, group: Group, visited: set<NodeId>, route: seq<Stop>, hop: int)
    requires Proper(net, visited, route, hop) && |route| > 0 && route[|route| - 1].port in net.ports
    requires !Viable(net, NodeOf(net, route[|route| - 1].port), route[|route| - 1].exit)
    ensures Genuine(net, group, Record(NoTrace, group.mlid, route))
  {
  }

  lemma CountLess(net: Net, visited: set<NodeId>, route: seq<Stop>, hop: int)
    requires Proper(net, visited, route, hop - 1)
    ensures hop - 1 <= |route|
  {
  }

  /** One finding only is shown, and the tests tell which. */
  lemma OnlyShows(v: View, port: PortId, visited: set<NodeId>, hop: int, finding: Finding)
    requires ValidNet(v.net) && port in v.net.ports
    requires var n := NodeOf(v.net, port);
             finding == FindingAt(v.net.nodes[n], n in v.group.members, n in visited, v.group.mlid, hop)
    ensures forall x :: Shows(v, port, visited, hop, x) <==> x == finding
    ensures finding == Clear <==> Enterable(v, port, visited, hop)
    ensures finding == Clear && !v.net.nodes[NodeOf(v.net, port)].isFi ==> NodeOf(v.net, port) !in visited
    ensures finding == Broken ==> !TablesReach(v.net, v.group.mlid)
  {
    FindingIff(v, port, visited, hop, Clear);
    FindingIff(v, port, visited, hop, Broken);
    forall x
      ensures Shows(v, port, visited, hop, x) <==> x == finding
    {
      FindingIff(v, port, visited, hop, x);
    }
    hide FindingAt;
  }

  /** What a device shows is a genuine problem of the route that leads there. */
  lemma ShownIsGenuine(v: View, visited: set<NodeId>, route: seq<Stop>, port: PortId, hop: int, problem: Problem)
    requires ValidNet(v.net) && port in v.net.ports && Ready(v.net, visited, route, port, hop)
    requires Shows(v, port, visited, hop + 1, Found(problem))
    ensures Genuine(v.net, v.group, Record(problem, v.group.mlid, route + [Stop(port, 0)]))
  {
    Entered(v.net, visited, route, port, 0, hop);
    hide Ready, ValidNet, Covered, IsLoop, LeadsTo;
    assert (route + [Stop(port, 0)])[|route|] == Stop(port, 0);
  }

  /** Starting from an edge switch tells its port the number it was entered by. */
  function Renumbered(nums: map<PortId, nat>, port: PortId, entryPort: nat): map<PortId, nat> {
    if entryPort != 0 then nums[port := entryPort] else nums
  }

  lemma NodeKnown(net: Net, port: PortId)
    requires ValidNet(net) && port in net.ports
    ensures NodeOf(net, port) in net.nodes
  {
  }

  lemma NoExits(v: View, port: PortId, visited: set<NodeId>, hop: int)
    requires ValidNet(v.net) && port in v.net.ports
    ensures ExitsSound(v, port, visited, hop, 1)
  {
  }

  lemma FewerExits(v: View, port: PortId, visited: set<NodeId>, hop: int, lo: nat, hi: nat)
    requires ValidNet(v.net) && port in v.net.ports && lo <= hi && ExitsSound(v, port, visited, hop, hi)
    ensures ExitsSound(v, port, visited, hop, lo)
  {
  }

  lemma NextExit(v: View, port: PortId, visited: set<NodeId>, hop: int, exit: nat)
    requires ValidNet(v.net) && port in v.net.ports && v.portNum.Keys == v.net.ports.Keys
    requires 1 <= exit <= v.net.nodes[NodeOf(v.net, port)].numPorts
    ensures ExitsSound(v, port, visited, hop, exit + 1) <==>
              && ExitsSound(v, port, visited, hop, exit)
              && (exit < MASK_BITS && exit != v.portNum[port] && exit in MaskIn(v.mft, NodeOf(v.net, port), v.group.mlid) ==>
                    ExitSound(v, port, exit, visited, hop))
  {
    hide ExitSound;
  }

  lemma NoneYet(net: Net, group: Group, records: seq<Record>)
    ensures AllGenuine(net, group, records, |records|)
  {
  }

  lemma JoinGenuine(net: Net, group: Group, before: seq<Record>, records: seq<Record>, lo: nat)
    requires before <= records && lo <= |before| && AllGenuine(net, group, before, lo) && AllGenuine(net, group, records, |before|)
    ensures AllGenuine(net, group, records, lo)
  {
  }

  lemma GenuineIf(net: Net, group: Group, records: seq<Record>, r: Record, good: bool)
    requires good ==> Genuine(net, group, r)
    ensures good ==> AllGenuine(net, group, records + [r], |records|)
  {
  }

  /** One edge switch of a group to start from. */
  datatype Start = Start(group: Group, port: PortId, entryPort: nat)

  /** The port numbers after the first k starts. */
  ghost function NumsAfter(nums: map<PortId, nat>, net: Net, starts: seq<Start>, k: nat): map<PortId, nat>
    requires k <= |starts|
  {
    if k == 0 then nums
    else
      var before, s := NumsAfter(nums, net, starts, k - 1), starts[k - 1];
      if FromSwitch(net, s.port) then Renumbered(before, s.port, s.entryPort) else before
  }

  predicate FromSwitch(net: Net, port: PortId) {
    port in net.ports && NodeOf(net, port) in net.nodes && net.nodes[NodeOf(net, port)].switch.Some?
  }

  /** Start k leads to routes in order only, or is not at a switch. */
  ghost predicate StartSound(nums: map<PortId, nat>, mft: map<(NodeId, nat), set<nat>>, net: Net, starts: seq<Start>, k: nat)
    requires ValidNet(net) && k < |starts|
  {
    FromSwitch(net, starts[k].port) ==>
      AllSound(View(net, NumsAfter(nums, net, starts, k + 1), mft, starts[k].group), starts[k].port, {}, 0)
  }

  /** Validates the routes of one group from one edge switch. */
  method ValidateRoutes(net: Net, w: Walker, s: Start) returns (status: Status)
    requires w.Valid(net) && s.port in net.ports
    modifies w
    ensures ValidNet(net) && w.portNum.Keys == net.ports.Keys
    ensures w.portNum == if FromSwitch(net, s.port) then Renumbered(old(w.portNum), s.port, s.entryPort) else old(w.portNum)
    ensures old(w.records) <= w.records
    ensures status != FError ==> w.visited == old(w.visited)
    ensures old(w.visited) == {} ==> AllGenuine(net, s.group, w.records, |old(w.records)|)
    ensures status != FError && w.records == old(w.records) <==>
              (FromSwitch(net, s.port) ==> AllSound(View(net, w.portNum, old(w.mft), s.group), s.port, old(w.visited), 0))
    ensures status != FError && w.records == old(w.records) ==>
              w.mft == old(w.mft) && status == if FromSwitch(net, s.port) then FSuccess else FNotDone
    ensures TablesReach(net, s.group.mlid) ==> status != FError
    ensures FromSwitch(net, s.port) ==>
              var v := View(net, w.portNum, old(w.mft), s.group);
              && (Doomed(v, s.port, old(w.visited), 1) ==> status == FError)
              && (forall problem :: Shows(v, s.port, old(w.visited), 1, Found(problem)) ==>
                    w.records == old(w.records) + [Record(problem, s.group.mlid, [Stop(s.port, 0)])])
              && (status == FError && Shows(v, s.port, old(w.visited), 1, Clear) && !net.nodes[NodeOf(net, s.port)].isFi ==>
                    NodeOf(net, s.port) in w.visited)
  {
    hide AllSound, Doomed, TablesReach, Shows;
    NodeKnown(net, s.port);
    NoneYet(net, s.group, w.records);
    if net.nodes[NodeOf(net, s.port)].switch.None? {
      return FNotDone;
    }
    w.route, w.hop := [], 0;
    assert w.visited == {} ==> Ready(net, w.visited, [], s.port, 0);
    assert [] + [Stop(s.port, 0)] == [Stop(s.port, 0)];
    status := w.Walk(net, s.group, s.port, s.entryPort);
  }

  /** Validates all multicast routes.  As long as no walk failed with an error, the
      flags are clear between walks and every recorded loop is a real one.  Nothing
      fails and nothing is recorded exactly if all routes of all starts are in order. */
  method ValidateAll(net: Net, w: Walker, starts: seq<Start>) returns (failed: bool)
    requires w.Valid(net) && forall i :: 0 <= i < |starts| ==> starts[i].port in net.ports
    modifies w
    ensures !failed ==> w.visited == {} && FromStarts(net, starts, |starts|, w.records)
    ensures !failed && w.records == [] <==> forall k: nat :: k < |starts| ==> StartSound(old(w.portNum), old(w.mft), net, starts, k)
    ensures (forall i :: 0 <= i < |starts| ==> TablesReach(net, starts[i].group.mlid)) ==> !failed
  {
    hide StartSound, ValidNet, TablesReach, AllGenuine;
    w.visited, w.records := {}, [];
    failed := false;
    assert FromStarts(net, starts, 0, []);
    hide FromStarts;
    ghost var nums, mft := w.portNum, w.mft;
    for i := 0 to |starts|
      invariant w.portNum.Keys == net.ports.Keys && ValidNet(net) && w.portNum == NumsAfter(nums, net, starts, i)
      invariant !failed ==> w.visited == {} && FromStarts(net, starts, i, w.records)
      invariant !failed && w.records == [] <==> forall k: nat :: k < i ==> StartSound(nums, mft, net, starts, k)
      invariant !failed && w.records == [] ==> w.mft == mft
      invariant failed ==> exists j :: 0 <= j < i && !TablesReach(net, starts[j].group.mlid)
    {
      ghost var before := w.records;
      w.route := [];
      var status := ValidateRoutes(net, w, starts[i]);
      if !failed {
        MoreStarts(net, starts, i, before, w.records);
        StartDone(nums, mft, net, starts, i);
      }
      failed := failed || status == FError;
    }
  }

  /** Every record is a genuine problem of the group of one of the first k starts. */
  ghost predicate FromStarts(net: Net, starts: seq<Start>, k: nat, records: seq<Record>)
    requires k <= |starts|
  {
    forall i :: 0 <= i < |records| ==> exists j :: 0 <= j < k && Genuine(net, starts[j].group, records[i])
  }

  lemma MoreStarts(net: Net, starts: seq<Start>, k: nat, before: seq<Record>, records: seq<Record>)
    requires k < |starts| && FromStarts(net, starts, k, before) && before <= records
    requires AllGenuine(net, starts[k].group, records, |before|)
    ensures FromStarts(net, starts, k + 1, records)
  {
    hide Genuine;
    forall i | 0 <= i < |records|
      ensures exists j :: 0 <= j < k + 1 && Genuine(net, starts[j].group, records[i])
    {
      if i < |before| {
        var j :| 0 <= j < k && Genuine(net, starts[j].group, before[i]);
      } else {
        assert Genuine(net, starts[k].group, records[i]);
      }
    }
  }

  lemma StartDone(nums: map<PortId, nat>, mft: map<(NodeId, nat), set<nat>>, net: Net, starts: seq<Start>, k: nat)
    requires ValidNet(net) && k < |starts|
    ensures StartSound(nums, mft, net, starts, k) <==>
              (FromSwitch(net, starts[k].port) ==>
                 AllSound(View(net, NumsAfter(nums, net, starts, k + 1), mft, starts[k].group), starts[k].port, {}, 0))
  {
    hide AllSound;
  }

  // ---- a record of a loop that is none ----

  /** Switch 0, entered by its port 1, forwards one group to switch 1, whose table is
      shorter. */
  function ShortTable(): Net {
    Net(map[10 := McPort(0, None, true), 11 := McPort(0, Some(20), true), 20 := McPort(1, Some(11), true)],
        map[0 := McNode(false, Some(Switch(true, 1, 10)), 2, map[1 := 10, 2 := 11]),
            1 := McNode(false, Some(Switch(true, 1, 2)), 1, map[1 := 20])])
  }

  const LONG_GROUP := Group(MCAST_START + 5, {})
  const SHORT_GROUP := Group(MCAST_START, {})
  const NUMBERS: map<PortId, nat> := map[10 := 1, 11 := 2, 20 := 1]
  const MASKS: map<(NodeId, nat), set<nat>> := map[(0, MCAST_START + 5) := {2}]

  lemma ShortFindings()
    ensures ValidNet(ShortTable())
    ensures var v := View(ShortTable(), NUMBERS, MASKS, LONG_GROUP);
            Shows(v, 10, {}, 1, Clear) && Shows(v, 20, {0}, 2, Broken)
  {
  }

  lemma ShortExit()
    requires ValidNet(ShortTable())
    ensures var v := View(ShortTable(), NUMBERS, MASKS, LONG_GROUP);
            FirstExit(v, 10, 2) && Viable(v.net, 0, 2) && Beyond(v.net, 0, 2) == 20
  {
    hide ValidNet;
    assert MaskIn(MASKS, 0, LONG_GROUP.mlid) == {2};
  }

  lemma ShortIsDoomed()
    ensures ValidNet(ShortTable())
    ensures var v := View(ShortTable(), NUMBERS, MASKS, LONG_GROUP);
            Doomed(v, 10, {}, 1) && Shows(v, 10, {}, 1, Clear)
  {
    ShortFindings();
    ShortExit();
    ShortFacts();
    hide ValidNet, Shows, FirstExit, Viable, Beyond, ShortTable;
    var v := View(ShortTable(), NUMBERS, MASKS, LONG_GROUP);
    assert Doomed(v, 20, {0}, 2);
    assert DoomedBeyond(v, 10, 2, {0}, 1);
    assert DoomedExit(v, 10, {0}, 1);
    assert {} + {NodeOf(v.net, 10)} == {0};
  }

  lemma StaleFinds(mft: map<(NodeId, nat), set<nat>>, visited: set<NodeId>)
    requires ValidNet(ShortTable()) && 0 in visited
    ensures Shows(View(ShortTable(), NUMBERS, mft, SHORT_GROUP), 10, visited, 1, Found(Loop))
    ensures !IsLoop(ShortTable(), [Stop(10, 0)])
  {
  }

  lemma ShortFacts()
    ensures FromSwitch(ShortTable(), 10) && !ShortTable().nodes[NodeOf(ShortTable(), 10)].isFi && NodeOf(ShortTable(), 10) == 0
    ensures ShortTable().ports.Keys == NUMBERS.Keys && Renumbered(NUMBERS, 10, 1) == NUMBERS
  {
  }

  /** From cleared flags, the walk of the first group fails at the second switch and
      leaves the first one flagged; the walk of the second group then records a loop
      that is none. */
  method StaleFlagLoop() returns (w: Walker)
    ensures exists r :: r in w.records && r.problem == Loop && !IsLoop(ShortTable(), r.route)
  {
    hide Doomed, Shows, IsLoop, AllSound, AllGenuine, TablesReach, ValidNet, ShortTable, FromSwitch, Renumbered, Knows;
    ShortIsDoomed();
    ShortFacts();
    var net := ShortTable();
    w := new Walker(net, NUMBERS, MASKS);
    NothingKnown(net);
    var status := ValidateRoutes(net, w, Start(LONG_GROUP, 10, 1));
    w.route := [];
    StaleFinds(w.mft, w.visited);
    ghost var n := |w.records|;
    status := ValidateRoutes(net, w, Start(SHORT_GROUP, 10, 1));
    assert w.records[n] == Record(Loop, SHORT_GROUP.mlid, [Stop(10, 0)]);
  }

  lemma NothingKnown(net: Net)
    ensures Knows(net, [])
  {
  }
}
