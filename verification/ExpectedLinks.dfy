/** Associating the links of a topology file with links of the fabric, the better
    match winning. */
module ExpectedLinks {
  import opened Fabric

  type LinkId = nat
  type Guid = nat
  type Name = string

  datatype Match = MatchNone | MatchNode | MatchPort

  /** A port selector of the topology file; absent fields were not given. */
  datatype Selector = Selector(nodeGuid: Option<Guid>, portGuid: Option<Guid>, portNum: Option<nat>, nodeDesc: Option<Name>)

  datatype SitePort = SitePort(node: NodeId, neighbor: Option<PortId>)

  /** The fabric as the resolver looks it up. */
  datatype Site = Site(
    ports: map<PortId, SitePort>,
    nodePorts: map<NodeId, map<nat, PortId>>,
    nodeByGuid: map<Guid, NodeId>,
    nodeByName: map<Name, NodeId>,
    portByGuid: map<Guid, PortId>)

  ghost predicate ValidSite(s: Site) {
    && (forall p :: p in s.ports ==> s.ports[p].node in s.nodePorts)
    && (forall p :: p in s.ports && s.ports[p].neighbor.Some? ==>
          && s.ports[p].neighbor.value in s.ports && s.ports[p].neighbor.value != p
          && s.ports[s.ports[p].neighbor.value].neighbor == Some(p))
    && (forall n, k :: n in s.nodePorts && k in s.nodePorts[n] ==> s.nodePorts[n][k] in s.ports && s.ports[s.nodePorts[n][k]].node == n)
    && (forall g :: g in s.nodeByGuid ==> s.nodeByGuid[g] in s.nodePorts)
    && (forall g :: g in s.nodeByName ==> s.nodeByName[g] in s.nodePorts)
    && (forall g :: g in s.portByGuid ==> s.portByGuid[g] in s.ports)
  }

  datatype Resolved = Resolved(node: Option<NodeId>, port: Option<PortId>, level: Match)

  function Find<K, V>(m: map<K, V>, k: Option<K>): Option<V> {
    if k.Some? && k.value in m then Some(m[k.value]) else None
  }

  lemma SingleKey<V>(m: map<nat, V>)
    requires |m| == 1
    ensures exists k :: k in m
    ensures forall j, k :: j in m && k in m ==> j == k
  {
    var k :| k in m.Keys;
    assert |m.Keys - {k}| == 0;
  }

  /** The selector gives the port by its number on its node or by its GUID. */
  ghost predicate Named(s: Site, sel: Option<Selector>, p: PortId)
    requires ValidSite(s) && p in s.ports
  {
    sel.Some? && (Find(s.nodePorts[s.ports[p].node], sel.value.portNum) == Some(p) || Find(s.portByGuid, sel.value.portGuid) == Some(p))
  }

  /** Resolves as much of a selector as possible: node by GUID, else by name, else
      by the port GUID; then the port by number, else by GUID on that node, else the
      only port of the node, which does not raise the match level. */
  function ResolveSelector(s: Site, sel: Option<Selector>): (r: Resolved)
    requires ValidSite(s)
    ensures r.node.Some? ==> r.node.value in s.nodePorts
    ensures r.port.Some? ==> r.port.value in s.ports && r.node == Some(s.ports[r.port.value].node)
    ensures r.level == MatchNone <==> r.node.None?
    ensures r.level == MatchPort <==> r.port.Some? && Named(s, sel, r.port.value)
    ensures sel.Some? && Find(s.nodeByGuid, sel.value.nodeGuid).Some? ==> r.node == Find(s.nodeByGuid, sel.value.nodeGuid)
  {
    if sel.None? then Resolved(None, None, MatchNone)
    else
      var x := sel.value;
      var byGuid := Find(s.nodeByGuid, x.nodeGuid);
      var node0 := if byGuid.Some? then byGuid else Find(s.nodeByName, x.nodeDesc);
      var guidPort := Find(s.portByGuid, x.portGuid);
      var port0 := if node0.None? then guidPort else None;
      var node := if node0.None? && port0.Some? then Some(s.ports[port0.value].node) else node0;
      if node.None? then Resolved(None, None, MatchNone)
      else
        var numbered := Find(s.nodePorts[node.value], x.portNum);
        var port1 := if numbered.Some? then numbered else port0;
        var port2 := if port1.None? && guidPort.Some? && s.ports[guidPort.value].node == node.value then guidPort else port1;
        if port2.Some? then Resolved(node, port2, MatchPort)
        else if |s.nodePorts[node.value]| == 1 then
          SingleKey(s.nodePorts[node.value]);
          var k :| k in s.nodePorts[node.value];
          Resolved(node, Some(s.nodePorts[node.value][k]), MatchNode)
        else Resolved(node, None, MatchNode)
  }

  // ---- what selectors name, told from the maps alone ----

  ghost predicate GuidKnown(s: Site, x: Selector) {
    x.nodeGuid.Some? && x.nodeGuid.value in s.nodeByGuid
  }

  ghost predicate NameKnown(s: Site, x: Selector) {
    x.nodeDesc.Some? && x.nodeDesc.value in s.nodeByName
  }

  /** The port GUID is that of a port of node n. */
  ghost predicate PortGuidOn(s: Site, x: Selector, n: NodeId) {
    && x.portGuid.Some? && x.portGuid.value in s.portByGuid
    && s.portByGuid[x.portGuid.value] in s.ports && s.ports[s.portByGuid[x.portGuid.value]].node == n
  }

  ghost predicate NumberOn(s: Site, x: Selector, n: NodeId) {
    n in s.nodePorts && x.portNum.Some? && x.portNum.value in s.nodePorts[n]
  }

  /** The node GUID goes before the name, and the name before the port GUID; each counts
      only if the one before it is not given or not found. */
  ghost predicate NamesNode(s: Site, x: Selector, n: NodeId) {
    if GuidKnown(s, x) then s.nodeByGuid[x.nodeGuid.value] == n
    else if NameKnown(s, x) then s.nodeByName[x.nodeDesc.value] == n
    else PortGuidOn(s, x, n)
  }

  /** On the node, the number goes before the port GUID; with neither, its only port. */
  ghost predicate NamesPort(s: Site, x: Selector, n: NodeId, p: PortId) {
    && n in s.nodePorts
    && if NumberOn(s, x, n) then s.nodePorts[n][x.portNum.value] == p
       else if PortGuidOn(s, x, n) then s.portByGuid[x.portGuid.value] == p
       else |s.nodePorts[n]| == 1 && p in s.nodePorts[n].Values
  }

  /** A selector resolves to the node and port that it names; the match is one of the
      port if its number or GUID was found there. */
  lemma ResolvesIff(s: Site, sel: Option<Selector>)
    requires ValidSite(s)
    ensures var r := ResolveSelector(s, sel);
            && (forall n: NodeId :: r.node == Some(n) <==> sel.Some? && NamesNode(s, sel.value, n))
            && (forall p: PortId :: r.port == Some(p) <==> sel.Some? && r.node.Some? && NamesPort(s, sel.value, r.node.value, p))
            && (r.level == MatchNone <==> r.node.None?)
            && (r.level == MatchPort <==> r.node.Some? && (NumberOn(s, sel.value, r.node.value) || PortGuidOn(s, sel.value, r.node.value)))
  {
    if sel.Some? {
      ResolvesNode(s, sel.value);
      var r := ResolveSelector(s, sel);
      if r.node.Some? {
        ResolvesPort(s, sel.value, r.node.value);
      }
    }
    hide ResolveSelector, ValidSite;
  }

  lemma ResolvesNode(s: Site, x: Selector)
    requires ValidSite(s)
    ensures forall n: NodeId :: ResolveSelector(s, Some(x)).node == Some(n) <==> NamesNode(s, x, n)
  {
  }

  lemma ResolvesPort(s: Site, x: Selector, n: NodeId)
    requires ValidSite(s) && ResolveSelector(s, Some(x)).node == Some(n)
    ensures var r := ResolveSelector(s, Some(x));
            && (forall p: PortId :: r.port == Some(p) <==> NamesPort(s, x, n, p))
            && (r.level == MatchPort <==> NumberOn(s, x, n) || PortGuidOn(s, x, n))
  {
    if |s.nodePorts[n]| == 1 {
      SingleKey(s.nodePorts[n]);
    }
  }

  /** Whether a selector should name one port on its own. */
  predicate IsComplete(sel: Option<Selector>) {
    sel.Some? && ((sel.value.nodeGuid.Some? && sel.value.portNum.Some?)
                  || sel.value.portGuid.Some?
                  || (sel.value.nodeDesc.Some? && sel.value.portNum.Some?))
  }

  /** A selector is complete exactly if in some fabric it names its port itself, be it by
      number or GUID. */
  lemma CompleteIff(sel: Option<Selector>)
    ensures IsComplete(sel) <==> exists s: Site :: ValidSite(s) && ResolveSelector(s, sel).level == MatchPort
  {
    if IsComplete(sel) {
      var s := CompleteSite(sel.value);
      ResolvesIff(s, sel);
      assert NamesNode(s, sel.value, 0);
      assert ResolveSelector(s, sel).level == MatchPort;
    }
    if s: Site :| ValidSite(s) && ResolveSelector(s, sel).level == MatchPort {
      ResolvesIff(s, sel);
    }
  }

  /** One node with one port, known by all that a selector gives. */
  lemma CompleteSite(x: Selector) returns (s: Site)
    requires IsComplete(Some(x))
    ensures ValidSite(s) && NamesNode(s, x, 0) && (NumberOn(s, x, 0) || PortGuidOn(s, x, 0))
  {
    var num := if x.portNum.Some? then x.portNum.value else 1;
    s := Site(map[0 := SitePort(0, None)], map[0 := map[num := 0]],
              if x.nodeGuid.Some? then map[x.nodeGuid.value := 0] else map[],
              if x.nodeDesc.Some? then map[x.nodeDesc.value := 0] else map[],
              if x.portGuid.Some? then map[x.portGuid.value := 0] else map[]);
  }

  function LinkLevel(a: Match, b: Match): nat {
    match (a, b)
    case (MatchNone, MatchNone) => 0
    case (MatchNone, MatchNode) => 1
    case (MatchNone, MatchPort) => 2
    case (MatchNode, MatchNone) => 1
    case (MatchNode, MatchNode) => 3
    case (MatchNode, MatchPort) => 4
    case (MatchPort, MatchNone) => 2
    case (MatchPort, MatchNode) => 4
    case (MatchPort, MatchPort) => 5
  }

  ghost function Rank(m: Match): nat {
    if m == MatchNone then 0 else if m == MatchNode then 1 else 2
  }

  ghost function WorseEnd(a: Match, b: Match): nat {
    if Rank(a) < Rank(b) then Rank(a) else Rank(b)
  }

  ghost function BetterEnd(a: Match, b: Match): nat {
    if Rank(a) < Rank(b) then Rank(b) else Rank(a)
  }

  /** Levels rank links by their worse matched end, then by the better one, whichever
      end it is. */
  lemma LevelIff(a: Match, b: Match, c: Match, d: Match)
    ensures LinkLevel(a, b) < LinkLevel(c, d) <==>
              WorseEnd(a, b) < WorseEnd(c, d) || (WorseEnd(a, b) == WorseEnd(c, d) && BetterEnd(a, b) < BetterEnd(c, d))
  {
  }

  /** So the level is symmetric, grows with the match of either end, and is greater for
      two matched ends than for one. */
  lemma LevelOrder(a: Match, b: Match, c: Match, d: Match)
    ensures LinkLevel(a, b) == LinkLevel(b, a) <= 5
    ensures Rank(a) < Rank(c) && Rank(b) <= Rank(d) ==> LinkLevel(a, b) < LinkLevel(c, d)
    ensures MatchNone !in {c, d} && MatchNone in {a, b} ==> LinkLevel(a, b) < LinkLevel(c, d)
  {
    LevelIff(a, b, c, d);
    LevelIff(a, b, b, a);
    LevelIff(b, a, a, b);
  }

  /** A link of the topology file. */
  datatype Link = Link(sel1: Option<Selector>, sel2: Option<Selector>)

  /** The ports a link is matched with and how well. */
  datatype Target = Target(p1: Option<PortId>, p2: Option<PortId>, level: nat)

  function Neighbor(s: Site, p: PortId): (q: Option<PortId>)
    requires ValidSite(s) && p in s.ports
    ensures q.Some? ==> q.value in s.ports
  {
    s.ports[p].neighbor
  }

  /** The ends of a link with the fuzzy rules applied: an incomplete selector takes
      the neighbour of the other end, and so does an end known only by its node when
      that node is where the cable leads. */
  function TargetOf(s: Site, l: Link): (t: Target)
    requires ValidSite(s)
    ensures t.p1.Some? ==> t.p1.value in s.ports
    ensures t.p2.Some? ==> t.p2.value in s.ports
    ensures t.level == LinkLevel(ResolveSelector(s, l.sel1).level, ResolveSelector(s, l.sel2).level)
    ensures var r1, r2 := ResolveSelector(s, l.sel1).port, ResolveSelector(s, l.sel2).port;
            t.p1.Some? && t.p2.Some? && (t.p1 != r1 || t.p2 != r2) ==> Cable(s, t.p1.value, t.p2.value)
  {
    var r1, r2 := ResolveSelector(s, l.sel1), ResolveSelector(s, l.sel2);
    var level := LinkLevel(r1.level, r2.level);
    var a1 := if r1.port.Some? && !IsComplete(l.sel2) then r1.port
              else if r2.port.Some? && !IsComplete(l.sel1) then Neighbor(s, r2.port.value) else r1.port;
    var a2 := if r1.port.Some? && !IsComplete(l.sel2) then Neighbor(s, r1.port.value) else r2.port;
    var b2 := if a1.Some? && a2.None? && r2.node.Some? && Neighbor(s, a1.value).Some?
                 && s.ports[Neighbor(s, a1.value).value].node == r2.node.value then Neighbor(s, a1.value) else a2;
    var b1 := if b2.Some? && a1.None? && r1.node.Some? && Neighbor(s, b2.value).Some?
                 && s.ports[Neighbor(s, b2.value).value].node == r1.node.value then Neighbor(s, b2.value) else a1;
    Target(b1, b2, level)
  }

  /** The neighbour of p where it is on node n. */
  ghost predicate NeighborOn(s: Site, p: Option<PortId>, n: Option<NodeId>, q: PortId) {
    && p.Some? && p.value in s.ports && s.ports[p.value].neighbor == Some(q)
    && q in s.ports && n == Some(s.ports[q].node)
  }

  /** Where a link leads, in all cases.  If the other end need not be a certain port, a
      resolved end takes its neighbour for it, end 1 before end 2.  Otherwise both ends
      stay as resolved, and a missing one is the neighbour of the other if that is on its
      node. */
  lemma TargetIs(s: Site, l: Link)
    requires ValidSite(s)
    ensures var t, r1, r2 := TargetOf(s, l), ResolveSelector(s, l.sel1), ResolveSelector(s, l.sel2);
            var open1, open2 := r1.port.Some? && !IsComplete(l.sel2), r2.port.Some? && !IsComplete(l.sel1);
            && (open1 ==> t.p1 == r1.port && t.p2 == s.ports[r1.port.value].neighbor)
            && (!open1 && open2 ==> t.p2 == r2.port && t.p1 == s.ports[r2.port.value].neighbor)
            && (!open1 && !open2 ==>
                  && (r1.port.Some? ==> t.p1 == r1.port) && (r2.port.Some? ==> t.p2 == r2.port)
                  && (r1.port.None? ==> forall q: PortId :: t.p1 == Some(q) <==> NeighborOn(s, r2.port, r1.node, q))
                  && (r2.port.None? ==> forall q: PortId :: t.p2 == Some(q) <==> NeighborOn(s, r1.port, r2.node, q)))
            && (r1.port.Some? || r2.port.Some? <==> t.p1.Some? || t.p2.Some?)
  {
    hide ResolveSelector, IsComplete;
  }

  /** A link as the resolver sees it: where it leads and whether either end resolved. */
  datatype Goal = Goal(target: Target, resolved: bool)

  /** A link neither of whose ends resolves is left alone. */
  function GoalOf(s: Site, l: Link): (g: Goal)
    requires ValidSite(s)
    ensures g.target.p1.Some? ==> g.target.p1.value in s.ports
    ensures g.target.p2.Some? ==> g.target.p2.value in s.ports
    ensures g.resolved <==> g.target.p1.Some? || g.target.p2.Some?
  {
    TargetIs(s, l);
    Goal(TargetOf(s, l), ResolveSelector(s, l.sel1).port.Some? || ResolveSelector(s, l.sel2).port.Some?)
  }

  ghost function GoalsOf(s: Site, links: seq<Link>): (goals: seq<Goal>)
    requires ValidSite(s)
    ensures |goals| == |links|
    ensures forall i :: 0 <= i < |links| ==> goals[i] == GoalOf(s, links[i])
  {
    seq(|links|, i requires 0 <= i < |links| => GoalOf(s, links[i]))
  }

  /** A link is matched with the cable between p and q. */
  ghost predicate Matches(g: Goal, p: PortId, q: PortId) {
    g.resolved && ((g.target.p1 == Some(p) && g.target.p2 == Some(q)) || (g.target.p1 == Some(q) && g.target.p2 == Some(p)))
  }

  ghost predicate Cable(s: Site, p: PortId, q: PortId) {
    p in s.ports && s.ports[p].neighbor == Some(q)
  }

  /** The first link of the best level among the first n that match the cable. */
  ghost function Best(goals: seq<Goal>, n: nat, p: PortId, q: PortId): (b: Option<LinkId>)
    requires n <= |goals|
    ensures b.Some? ==> b.value < n
  {
    if n == 0 then None
    else
      var b := Best(goals, n - 1, p, q);
      if Matches(goals[n - 1], p, q) && (b.None? || goals[b.value].target.level < goals[n - 1].target.level)
      then Some(n - 1) else b
  }

  /** Best is what its name says. */
  lemma {:induction false} BestIsBest(goals: seq<Goal>, n: nat, p: PortId, q: PortId, i: nat)
    requires n <= |goals| && i < n && Matches(goals[i], p, q)
    ensures var b := Best(goals, n, p, q);
            && b.Some? && Matches(goals[b.value], p, q)
            && goals[i].target.level <= goals[b.value].target.level
            && (i < b.value ==> goals[i].target.level < goals[b.value].target.level)
  {
    BestMatches(goals, n - 1, p, q);
    if i < n - 1 {
      BestIsBest(goals, n - 1, p, q, i);
    }
  }

  lemma {:induction false} BestMatches(goals: seq<Goal>, n: nat, p: PortId, q: PortId)
    requires n <= |goals|
    ensures Best(goals, n, p, q).Some? ==> Matches(goals[Best(goals, n, p, q).value], p, q)
  {
    if n > 0 {
      BestMatches(goals, n - 1, p, q);
    }
  }

  lemma {:induction false} BestSymmetric(goals: seq<Goal>, n: nat, p: PortId, q: PortId)
    requires n <= |goals|
    ensures Best(goals, n, p, q) == Best(goals, n, q, p)
  {
    if n > 0 {
      BestSymmetric(goals, n - 1, p, q);
    }
  }

  // ---- the running association ----

  const UNSET := Target(None, None, 0)

  /** owner is the link a port points at, assoc the ports a link points at. */
  datatype State = State(owner: map<PortId, LinkId>, assoc: seq<Target>)

  /** The first n links are done: each cable is owned, at both ends, by its best
      match so far, an owner points at its own target, and no link points at
      anything else. */
  ghost predicate Done(s: Site, goals: seq<Goal>, n: nat, st: State)
    requires ValidSite(s) && n <= |goals|
  {
    && |st.assoc| == |goals|
    && (forall p, q :: Cable(s, p, q) ==> Best(goals, n, p, q) == if p in st.owner then Some(st.owner[p]) else None)
    && (forall p :: p in st.owner ==>
          p in s.ports && s.ports[p].neighbor.Some? && st.owner[p] < n && st.assoc[st.owner[p]] == goals[st.owner[p]].target)
    && (forall i :: 0 <= i < |goals| ==> st.assoc[i] == UNSET || (i < n && st.assoc[i] == goals[i].target))
  }

  /** Both ends are claimed by one link. */
  predicate Claimed(st: State, t: Target) {
    t.p1.Some? && t.p2.Some? && t.p1.value in st.owner && t.p2.value in st.owner && st.owner[t.p1.value] == st.owner[t.p2.value]
  }

  function Unclaim(st: State, t: Target): State
    requires Claimed(st, t) && st.owner[t.p1.value] < |st.assoc|
  {
    State(st.owner - {t.p1.value, t.p2.value}, st.assoc[st.owner[t.p1.value] := UNSET])
  }

  /** Points the link at its ports and, if they are two free ends of a cable, the
      ports at the link. */
  function Claim(s: Site, st: State, l: LinkId, t: Target): State
    requires l < |st.assoc|
  {
    var free := t.p1.Some? && t.p2.Some? && t.p1.value in s.ports && s.ports[t.p1.value].neighbor == t.p2
                && t.p1.value !in st.owner && t.p2.value !in st.owner;
    State(if free then st.owner[t.p1.value := l][t.p2.value := l] else st.owner, st.assoc[l := t])
  }

  ghost predicate OwnersKnown(st: State) {
    forall p :: p in st.owner ==> st.owner[p] < |st.assoc|
  }

  /** What associating link l does. */
  ghost function Step(s: Site, goals: seq<Goal>, l: LinkId, st: State): (r: State)
    requires ValidSite(s) && l < |goals| == |st.assoc| && OwnersKnown(st)
    ensures |r.assoc| == |st.assoc| && OwnersKnown(r)
  {
    var t := goals[l].target;
    if !goals[l].resolved then st
    else if !Claimed(st, t) then Claim(s, st, l, t)
    else
      var level := st.assoc[st.owner[t.p1.value]].level;
      if level > t.level then st
      else if level < t.level then Claim(s, Unclaim(st, t), l, t)
      else Claim(s, st, l, t)
  }

  /** Both ends of a link resolved to one and the same port. */
  predicate SamePort(g: Goal) {
    g.resolved && g.target.p1.Some? && g.target.p1 == g.target.p2
  }

  /** Both ends of link l resolved to one end of a cable that already has a worse
      match. */
  ghost predicate Breaks(s: Site, goals: seq<Goal>, l: LinkId)
    requires ValidSite(s) && l < |goals|
  {
    && SamePort(goals[l])
    && var p := goals[l].target.p1.value;
       && p in s.ports && s.ports[p].neighbor.Some?
       && var b := Best(goals, l, p, s.ports[p].neighbor.value);
          b.Some? && goals[b.value].target.level < goals[l].target.level
  }

  class Associations {
    var owner: map<PortId, LinkId>
    var assoc: seq<Target>

    ghost function Now(): State
      reads this
    {
      State(owner, assoc)
    }

    constructor (n: nat)
      ensures owner == map[] && assoc == seq(n, _ => UNSET)
    {
      owner, assoc := map[], seq(n, _ => UNSET);
    }

    /** Associates link l.  A duplicate match of a cable that already has an owner
        replaces it only if it is better. */
    method ResolvePorts(s: Site, links: seq<Link>, l: LinkId)
      requires ValidSite(s) && l < |links| == |assoc| && OwnersKnown(Now())
      modifies this
      ensures Now() == Step(s, GoalsOf(s, links), l, old(Now()))
      ensures old(Done(s, GoalsOf(s, links), l, Now())) ==> (Done(s, GoalsOf(s, links), l + 1, Now()) <==> !Breaks(s, GoalsOf(s, links), l))
    {
      hide ValidSite, GoalOf, Done, Breaks;
      if Done(s, GoalsOf(s, links), l, Now()) {
        StepDone(s, GoalsOf(s, links), l, Now());
      }
      var goal := GoalOf(s, links[l]);
      if !goal.resolved {
        return;
      }
      var t := goal.target;
      if t.p1.Some? && t.p2.Some? && t.p1.value in owner && t.p2.value in owner && owner[t.p1.value] == owner[t.p2.value] {
        var other := owner[t.p1.value];
        if assoc[other].level > t.level {
          return;
        } else if assoc[other].level < t.level {
          owner := owner - {t.p1.value, t.p2.value};
          assoc := assoc[other := UNSET];
        }
      }
      assoc := assoc[l := t];
      if t.p1.Some? && t.p2.Some? && s.ports[t.p1.value].neighbor == t.p2 && t.p1.value !in owner && t.p2.value !in owner {
        owner := owner[t.p1.value := l][t.p2.value := l];
      }
    }
  }

  lemma OwnersInRange(s: Site, goals: seq<Goal>, l: LinkId, st: State)
    requires ValidSite(s) && l < |goals| && Done(s, goals, l, st)
    ensures OwnersKnown(st) && |st.assoc| == |goals|
  {
  }

  /** The two ends of a cable have the same owner. */
  lemma OwnersPaired(s: Site, goals: seq<Goal>, n: nat, st: State, p: PortId, q: PortId)
    requires ValidSite(s) && n <= |goals| && Done(s, goals, n, st) && Cable(s, p, q)
    ensures Cable(s, q, p) && p != q
    ensures p in st.owner <==> q in st.owner
    ensures Best(goals, n, p, q) == if p in st.owner then Some(st.owner[p]) else None
    ensures p in st.owner ==>
              && st.owner[p] == st.owner[q] < n && |st.assoc| == |goals|
              && st.assoc[st.owner[p]] == goals[st.owner[p]].target && Matches(goals[st.owner[p]], p, q)
  {
    hide Best;
    BestSymmetric(goals, n, p, q);
    BestMatches(goals, n, p, q);
  }

  /** A claimed pair of different ports is a cable. */
  lemma ClaimedIsCable(s: Site, goals: seq<Goal>, l: LinkId, st: State)
    requires ValidSite(s) && l < |goals| && Done(s, goals, l, st) && goals[l].resolved && !SamePort(goals[l])
    requires Claimed(st, goals[l].target)
    ensures Cable(s, goals[l].target.p1.value, goals[l].target.p2.value)
  {
    hide Best;
    var t := goals[l].target;
    var p, q := t.p1.value, t.p2.value;
    OwnersPaired(s, goals, l, st, p, s.ports[p].neighbor.value);
    OwnersPaired(s, goals, l, st, q, s.ports[q].neighbor.value);
  }

  /** Link l changes the best match of no cable but the one it matches. */
  lemma BestNext(goals: seq<Goal>, l: LinkId, p: PortId, q: PortId)
    requires l < |goals|
    ensures !Matches(goals[l], p, q) ==> Best(goals, l + 1, p, q) == Best(goals, l, p, q)
    ensures Matches(goals[l], p, q) && Best(goals, l, p, q).None? ==> Best(goals, l + 1, p, q) == Some(l)
    ensures Matches(goals[l], p, q) && Best(goals, l, p, q).Some? ==>
              Best(goals, l + 1, p, q) ==
                if goals[Best(goals, l, p, q).value].target.level < goals[l].target.level then Some(l) else Best(goals, l, p, q)
  {
  }

  lemma IgnoredDone(s: Site, goals: seq<Goal>, l: LinkId, st: State)
    requires ValidSite(s) && l < |goals| && Done(s, goals, l, st) && !goals[l].resolved
    ensures Done(s, goals, l + 1, st)
  {
    hide Best, ValidSite;
    forall p, q | Cable(s, p, q)
      ensures Best(goals, l + 1, p, q) == Best(goals, l, p, q)
    {
      BestNext(goals, l, p, q);
    }
  }

  /** A worse match of an owned cable changes nothing. */
  lemma WorseDone(s: Site, goals: seq<Goal>, l: LinkId, st: State)
    requires ValidSite(s) && l < |goals| && Done(s, goals, l, st) && OwnersKnown(st) && Claimed(st, goals[l].target)
    requires st.assoc[st.owner[goals[l].target.p1.value]].level > goals[l].target.level
    ensures Done(s, goals, l + 1, st)
  {
    hide Best;
    forall p, q | Cable(s, p, q)
      ensures Best(goals, l + 1, p, q) == Best(goals, l, p, q)
    {
      BestNext(goals, l, p, q);
      OwnersPaired(s, goals, l, st, p, q);
    }
  }

  /** An equal match is noted, but the earlier owner stays. */
  lemma EqualDone(s: Site, goals: seq<Goal>, l: LinkId, st: State)
    requires ValidSite(s) && l < |goals| && Done(s, goals, l, st) && OwnersKnown(st) && Claimed(st, goals[l].target)
    requires st.assoc[st.owner[goals[l].target.p1.value]].level == goals[l].target.level
    ensures Done(s, goals, l + 1, Claim(s, st, l, goals[l].target))
  {
    hide Best;
    forall p, q | Cable(s, p, q)
      ensures Best(goals, l + 1, p, q) == Best(goals, l, p, q)
    {
      BestNext(goals, l, p, q);
      OwnersPaired(s, goals, l, st, p, q);
    }
  }

  /** A better match takes the cable over; seen from one cable. */
  lemma BetterCable(s: Site, goals: seq<Goal>, l: LinkId, st: State, p: PortId, q: PortId)
    requires ValidSite(s) && l < |goals| && Done(s, goals, l, st) && OwnersKnown(st) && goals[l].resolved
    requires Claimed(st, goals[l].target) && Cable(s, p, q) && |st.assoc| == |goals|
    requires Cable(s, goals[l].target.p1.value, goals[l].target.p2.value)
    requires st.assoc[st.owner[goals[l].target.p1.value]].level < goals[l].target.level
    ensures var r := Claim(s, Unclaim(st, goals[l].target), l, goals[l].target);
            && Best(goals, l + 1, p, q) == (if p in r.owner then Some(r.owner[p]) else None)
            && (p in r.owner ==> r.owner[p] <= l && r.assoc[r.owner[p]] == goals[r.owner[p]].target)
  {
    hide Best, ValidSite, Done;
    var t := goals[l].target;
    BestNext(goals, l, p, q);
    OwnersPaired(s, goals, l, st, p, q);
    OwnersPaired(s, goals, l, st, t.p1.value, t.p2.value);
  }

  lemma BetterDone(s: Site, goals: seq<Goal>, l: LinkId, st: State)
    requires ValidSite(s) && l < |goals| && Done(s, goals, l, st) && OwnersKnown(st) && goals[l].resolved
    requires Claimed(st, goals[l].target) && |st.assoc| == |goals|
    requires Cable(s, goals[l].target.p1.value, goals[l].target.p2.value)
    requires st.assoc[st.owner[goals[l].target.p1.value]].level < goals[l].target.level
    ensures Done(s, goals, l + 1, Claim(s, Unclaim(st, goals[l].target), l, goals[l].target))
  {
    hide Best, ValidSite;
    var t := goals[l].target;
    OwnersPaired(s, goals, l, st, t.p1.value, t.p2.value);
    var r := Claim(s, Unclaim(st, t), l, t);
    forall p, q | Cable(s, p, q)
      ensures Best(goals, l + 1, p, q) == if p in r.owner then Some(r.owner[p]) else None
      ensures p in r.owner ==> r.owner[p] <= l && r.assoc[r.owner[p]] == goals[r.owner[p]].target
    {
      BetterCable(s, goals, l, st, p, q);
    }
    forall p | p in r.owner
      ensures p in s.ports && s.ports[p].neighbor.Some? && Cable(s, p, s.ports[p].neighbor.value)
    {
      assert p in st.owner;
    }
  }

  /** A match of no owned cable takes its cable, if it is one. */
  lemma FreshCable(s: Site, goals: seq<Goal>, l: LinkId, st: State, p: PortId, q: PortId)
    requires ValidSite(s) && l < |goals| && Done(s, goals, l, st) && goals[l].resolved
    requires !Claimed(st, goals[l].target) && Cable(s, p, q) && |st.assoc| == |goals|
    ensures var r := Claim(s, st, l, goals[l].target);
            && Best(goals, l + 1, p, q) == (if p in r.owner then Some(r.owner[p]) else None)
            && (p in r.owner ==> r.owner[p] <= l && r.assoc[r.owner[p]] == goals[r.owner[p]].target)
  {
    hide Best, ValidSite, Done;
    BestNext(goals, l, p, q);
    OwnersPaired(s, goals, l, st, p, q);
    var t := goals[l].target;
    if t.p1.Some? && t.p2.Some? && Cable(s, t.p1.value, t.p2.value) {
      OwnersPaired(s, goals, l, st, t.p1.value, t.p2.value);
    }
  }

  lemma FreshDone(s: Site, goals: seq<Goal>, l: LinkId, st: State)
    requires ValidSite(s) && l < |goals| && Done(s, goals, l, st) && goals[l].resolved
    requires !Claimed(st, goals[l].target) && |st.assoc| == |goals|
    ensures Done(s, goals, l + 1, Claim(s, st, l, goals[l].target))
  {
    hide Best, ValidSite;
    var t := goals[l].target;
    var r := Claim(s, st, l, t);
    forall p, q | Cable(s, p, q)
      ensures Best(goals, l + 1, p, q) == if p in r.owner then Some(r.owner[p]) else None
      ensures p in r.owner ==> r.owner[p] <= l && r.assoc[r.owner[p]] == goals[r.owner[p]].target
    {
      FreshCable(s, goals, l, st, p, q);
    }
    if t.p1.Some? && t.p2.Some? && Cable(s, t.p1.value, t.p2.value) {
      OwnersPaired(s, goals, l, st, t.p1.value, t.p2.value);
    }
    forall p | p in r.owner
      ensures p in s.ports && s.ports[p].neighbor.Some? && Cable(s, p, s.ports[p].neighbor.value)
    {
      assert p in st.owner || t.p1 == Some(p) || t.p2 == Some(p);
    }
  }

  /** Clearing the owner of one end only is the one thing that goes wrong. */
  lemma BreaksNotDone(s: Site, goals: seq<Goal>, l: LinkId, st: State)
    requires ValidSite(s) && l < |goals| && Done(s, goals, l, st) && OwnersKnown(st) && Breaks(s, goals, l)
    ensures !Done(s, goals, l + 1, Step(s, goals, l, st))
  {
    hide Best, ValidSite;
    var t := goals[l].target;
    var p := t.p1.value;
    var q := s.ports[p].neighbor.value;
    assert Cable(s, p, q);
    BestNext(goals, l, p, q);
    OwnersPaired(s, goals, l, st, p, q);
    assert Step(s, goals, l, st) == Claim(s, Unclaim(st, t), l, t);
  }

  lemma SamePortDone(s: Site, goals: seq<Goal>, l: LinkId, st: State)
    requires ValidSite(s) && l < |goals| && Done(s, goals, l, st) && OwnersKnown(st) && SamePort(goals[l])
    requires Claimed(st, goals[l].target)
    ensures Breaks(s, goals, l) <==> st.assoc[st.owner[goals[l].target.p1.value]].level < goals[l].target.level
  {
    hide Best;
    var p := goals[l].target.p1.value;
    assert Cable(s, p, s.ports[p].neighbor.value);
  }

  /** A step keeps the running best match exactly when it does not break it. */
  lemma StepDone(s: Site, goals: seq<Goal>, l: LinkId, st: State)
    requires ValidSite(s) && l < |goals| && Done(s, goals, l, st)
    ensures OwnersKnown(st) && |st.assoc| == |goals|
    ensures Done(s, goals, l + 1, Step(s, goals, l, st)) <==> !Breaks(s, goals, l)
  {
    hide ValidSite, Done, Breaks;
    OwnersInRange(s, goals, l, st);
    var t := goals[l].target;
    if Breaks(s, goals, l) {
      BreaksNotDone(s, goals, l, st);
    } else if !goals[l].resolved {
      IgnoredDone(s, goals, l, st);
    } else if !Claimed(st, t) {
      FreshDone(s, goals, l, st);
    } else {
      if SamePort(goals[l]) {
        SamePortDone(s, goals, l, st);
      } else {
        ClaimedIsCable(s, goals, l, st);
      }
      var level := st.assoc[st.owner[t.p1.value]].level;
      if level > t.level {
        WorseDone(s, goals, l, st);
      } else if level < t.level {
        BetterDone(s, goals, l, st);
      } else {
        EqualDone(s, goals, l, st);
      }
    }
  }

  /** The association after the first k links. */
  ghost function Run(s: Site, goals: seq<Goal>, k: nat): (st: State)
    requires ValidSite(s) && k <= |goals|
    ensures |st.assoc| == |goals| && OwnersKnown(st)
  {
    if k == 0 then State(map[], seq(|goals|, _ => UNSET)) else Step(s, goals, k - 1, Run(s, goals, k - 1))
  }

  lemma NothingDone(s: Site, goals: seq<Goal>)
    requires ValidSite(s)
    ensures Done(s, goals, 0, Run(s, goals, 0))
  {
    hide ValidSite;
  }

  ghost predicate NoneBreaks(s: Site, goals: seq<Goal>)
    requires ValidSite(s)
  {
    forall l: nat :: l < |goals| ==> !Breaks(s, goals, l)
  }

  /** Every prefix of the run is the best match so far. */
  ghost predicate AlwaysDone(s: Site, goals: seq<Goal>)
    requires ValidSite(s)
  {
    forall k: nat :: k <= |goals| ==> Done(s, goals, k, Run(s, goals, k))
  }

  lemma {:induction false} RunDone(s: Site, goals: seq<Goal>, k: nat)
    requires ValidSite(s) && k <= |goals| && NoneBreaks(s, goals)
    ensures Done(s, goals, k, Run(s, goals, k))
  {
    hide ValidSite, Done, Breaks, Step;
    if k == 0 {
      NothingDone(s, goals);
    } else {
      RunDone(s, goals, k - 1);
      StepDone(s, goals, k - 1, Run(s, goals, k - 1));
    }
  }

  lemma RunUnbroken(s: Site, goals: seq<Goal>, l: nat)
    requires ValidSite(s) && l < |goals| && AlwaysDone(s, goals)
    ensures !Breaks(s, goals, l)
  {
    hide ValidSite, Done, Breaks, Step;
    assert Done(s, goals, l, Run(s, goals, l)) && Done(s, goals, l + 1, Run(s, goals, l + 1));
    StepDone(s, goals, l, Run(s, goals, l));
  }

  /** Every prefix of a run is the best match so far exactly if no link breaks it. */
  lemma RunDoneIff(s: Site, goals: seq<Goal>)
    requires ValidSite(s)
    ensures AlwaysDone(s, goals) <==> NoneBreaks(s, goals)
  {
    if NoneBreaks(s, goals) {
      forall k: nat | k <= |goals|
        ensures Done(s, goals, k, Run(s, goals, k))
      {
        RunDone(s, goals, k);
      }
    }
    if AlwaysDone(s, goals) {
      forall l: nat | l < |goals|
        ensures !Breaks(s, goals, l)
      {
        RunUnbroken(s, goals, l);
      }
    }
  }

  /** Resolves all links in file order. */
  method ResolveAll(s: Site, links: seq<Link>) returns (result: Associations)
    requires ValidSite(s)
    ensures fresh(result) && result.Now() == Run(s, GoalsOf(s, links), |links|)
    ensures AlwaysDone(s, GoalsOf(s, links)) <==> NoneBreaks(s, GoalsOf(s, links))
    ensures NoneBreaks(s, GoalsOf(s, links)) ==> Done(s, GoalsOf(s, links), |links|, result.Now())
  {
    hide ValidSite, GoalOf, Done, Breaks, Step, NoneBreaks;
    result := new Associations(|links|);
    for l := 0 to |links|
      invariant fresh(result) && result.Now() == Run(s, GoalsOf(s, links), l)
    {
      result.ResolvePorts(s, links, l);
    }
    RunDoneIff(s, GoalsOf(s, links));
  }

  /** Every cable of a finished association belongs to the earliest of its best
      matches, which points back at exactly its two ends; unmatched cables are free. */
  lemma OwnerIsBest(s: Site, goals: seq<Goal>, st: State, p: PortId, q: PortId)
    requires ValidSite(s) && Done(s, goals, |goals|, st) && Cable(s, p, q)
    ensures p in st.owner <==> exists i :: 0 <= i < |goals| && Matches(goals[i], p, q)
    ensures p in st.owner ==>
              var o := st.owner[p];
              && q in st.owner && st.owner[q] == o && o < |goals| && {st.assoc[o].p1, st.assoc[o].p2} == {Some(p), Some(q)}
              && forall i :: 0 <= i < |goals| && Matches(goals[i], p, q) ==>
                   && goals[i].target.level <= goals[o].target.level
                   && (i < o ==> goals[i].target.level < goals[o].target.level)
  {
    hide Best;
    OwnersPaired(s, goals, |goals|, st, p, q);
    forall i | 0 <= i < |goals| && Matches(goals[i], p, q)
      ensures p in st.owner && goals[i].target.level <= goals[st.owner[p]].target.level
      ensures i < st.owner[p] ==> goals[i].target.level < goals[st.owner[p]].target.level
    {
      BestIsBest(goals, |goals|, p, q, i);
    }
  }

  /** Link l is matched no better than link m, by the worse end and then by the better. */
  ghost predicate NoBetter(s: Site, l: Link, m: Link)
    requires ValidSite(s)
  {
    var a, b := ResolveSelector(s, l.sel1).level, ResolveSelector(s, l.sel2).level;
    var c, d := ResolveSelector(s, m.sel1).level, ResolveSelector(s, m.sel2).level;
    WorseEnd(a, b) < WorseEnd(c, d) || (WorseEnd(a, b) == WorseEnd(c, d) && BetterEnd(a, b) <= BetterEnd(c, d))
  }

  /** No link that leads to a cable is matched better than the link that owns it, and no
      earlier one as well. */
  lemma OwnerRanksFirst(s: Site, links: seq<Link>, st: State, p: PortId, q: PortId, i: nat)
    requires ValidSite(s) && Done(s, GoalsOf(s, links), |links|, st) && Cable(s, p, q)
    requires i < |links| && {TargetOf(s, links[i]).p1, TargetOf(s, links[i]).p2} == {Some(p), Some(q)}
    ensures p in st.owner && st.owner[p] < |links|
    ensures NoBetter(s, links[i], links[st.owner[p]])
    ensures i < st.owner[p] ==> !NoBetter(s, links[st.owner[p]], links[i])
  {
    hide ResolveSelector, Done, Rank;
    var goals := GoalsOf(s, links);
    assert p != q;
    var t := TargetOf(s, links[i]);
    assert t.p1 in {t.p1, t.p2} && t.p2 in {t.p1, t.p2} && Some(p) in {t.p1, t.p2} && Some(q) in {t.p1, t.p2};
    assert Matches(goals[i], p, q);
    OwnerIsBest(s, goals, st, p, q);
    hide TargetOf, ValidSite;
    var l, m := links[i], links[st.owner[p]];
    var a, b, c, d := ResolveSelector(s, l.sel1).level, ResolveSelector(s, l.sel2).level, ResolveSelector(s, m.sel1).level, ResolveSelector(s, m.sel2).level;
    LevelIff(a, b, c, d);
    LevelIff(c, d, a, b);
  }

  // ---- a link that breaks the association ----

  /** Two single-port nodes joined by a cable. */
  const PAIR := Site(
    map[10 := SitePort(0, Some(11)), 11 := SitePort(1, Some(10))],
    map[0 := map[1 := 10], 1 := map[1 := 11]],
    map[100 := 0, 101 := 1], map[], map[])

  const BY_NODE := Selector(Some(100), None, None, None)
  const BY_PORT := Selector(Some(100), None, Some(1), None)

  const PAIR_LINKS := [Link(Some(BY_NODE), None), Link(Some(BY_PORT), Some(BY_PORT))]

  const PAIR_GOALS := [Goal(Target(Some(10), Some(11), 1), true), Goal(Target(Some(10), Some(10), 5), true)]

  /** After the first link. */
  const FIRST := State(map[10 := 0, 11 := 0], [Target(Some(10), Some(11), 1), UNSET])

  /** A link given by one node, then a link both of whose ends name that node's port:
      the second is the better match, so it frees the port, but it does not fit the
      cable; the other end keeps pointing at a link that points nowhere. */
  lemma SamePortBreaks()
    ensures ValidSite(PAIR) && GoalsOf(PAIR, PAIR_LINKS) == PAIR_GOALS
    ensures Step(PAIR, PAIR_GOALS, 0, State(map[], [UNSET, UNSET])) == FIRST && Done(PAIR, PAIR_GOALS, 1, FIRST)
    ensures Breaks(PAIR, PAIR_GOALS, 1)
    ensures Step(PAIR, PAIR_GOALS, 1, FIRST) == State(map[11 := 0], [UNSET, Target(Some(10), Some(10), 5)])
  {
    PairTargets();
    PairFirst();
    PairSecond();
    hide ValidSite, GoalsOf, Done, Breaks, Step;
  }

  lemma PairFirst()
    ensures ValidSite(PAIR)
    ensures Step(PAIR, PAIR_GOALS, 0, State(map[], [UNSET, UNSET])) == FIRST && Done(PAIR, PAIR_GOALS, 1, FIRST)
    ensures Best(PAIR_GOALS, 1, 10, 11) == Best(PAIR_GOALS, 1, 11, 10) == Some(0)
  {
    PairValid();
    hide ValidSite;
    var none := State(map[], [UNSET, UNSET]);
    assert FIRST.owner == none.owner[10 := 0][11 := 0];
    assert FIRST.assoc == none.assoc[0 := Target(Some(10), Some(11), 1)];
    assert Best(PAIR_GOALS, 0, 10, 11).None? && Best(PAIR_GOALS, 0, 11, 10).None?;
    BestNext(PAIR_GOALS, 0, 10, 11);
    BestNext(PAIR_GOALS, 0, 11, 10);
  }

  lemma PairSecond()
    ensures ValidSite(PAIR) && Breaks(PAIR, PAIR_GOALS, 1)
    ensures Step(PAIR, PAIR_GOALS, 1, FIRST) == State(map[11 := 0], [UNSET, Target(Some(10), Some(10), 5)])
  {
    PairFirst();
    hide ValidSite, Done, Best;
    var two := Unclaim(FIRST, Target(Some(10), Some(10), 5));
    assert two.owner == map[11 := 0] && two.assoc == [UNSET, UNSET];
  }

  lemma PairTargets()
    ensures ValidSite(PAIR) && GoalsOf(PAIR, PAIR_LINKS) == PAIR_GOALS
  {
    PairGoals();
    hide GoalOf, ValidSite;
  }

  lemma PairGoals()
    ensures ValidSite(PAIR) && GoalOf(PAIR, PAIR_LINKS[0]) == PAIR_GOALS[0] && GoalOf(PAIR, PAIR_LINKS[1]) == PAIR_GOALS[1]
  {
    PairByNode();
    PairByPort();
    PairValid();
    assert ResolveSelector(PAIR, None) == Resolved(None, None, MatchNone);
    hide ResolveSelector, ValidSite;
    assert Neighbor(PAIR, 10) == Some(11);
  }

  lemma PairValid()
    ensures ValidSite(PAIR)
  {
  }

  lemma PairByNode()
    ensures ValidSite(PAIR) && ResolveSelector(PAIR, Some(BY_NODE)) == Resolved(Some(0), Some(10), MatchNode)
  {
    PairValid();
    hide ValidSite;
    assert PAIR.nodePorts[0] == map[1 := 10];
    assert Find(PAIR.nodeByGuid, Some(100)) == Some(0);
  }

  lemma PairByPort()
    ensures ValidSite(PAIR) && ResolveSelector(PAIR, Some(BY_PORT)) == Resolved(Some(0), Some(10), MatchPort)
  {
    PairValid();
    hide ValidSite;
    assert Find(PAIR.nodeByGuid, Some(100)) == Some(0);
    assert Find(PAIR.nodePorts[0], Some(1)) == Some(10);
  }
}
