/** Points: what a report focuses on.  A point lists ports, nodes or IOCs, or names
    one of them or a whole system; compression turns a list of everything below one
    parent into the parent. */
module Points {
  import opened Fabric

  type SystemId = nat
  type IouId = nat
  type IocId = nat

  /** The objects of a fabric, their parents, and the parents' lists of children. */
  datatype Inventory = Inventory(
    ports: set<PortId>, nodes: set<NodeId>, iocs: set<IocId>,
    node: PortId -> NodeId, system: NodeId -> SystemId, iou: IocId -> IouId, iouNode: IouId -> NodeId,
    portsOf: NodeId -> set<PortId>, nodesOf: SystemId -> set<NodeId>, iocsOf: IouId -> set<IocId>)
  {
    function IocNode(i: IocId): NodeId { iouNode(iou(i)) }

    function PortSystem(p: PortId): SystemId { system(node(p)) }

    function IocSystem(i: IocId): SystemId { system(IocNode(i)) }

    /** The lists of children are exact, and ports and IOCs are on listed nodes. */
    ghost predicate Exact() {
      && (forall p :: p in ports ==> node(p) in nodes)
      && (forall i :: i in iocs ==> IocNode(i) in nodes)
      && (forall p, n :: p in portsOf(n) <==> p in ports && node(p) == n)
      && (forall n, s :: n in nodesOf(s) <==> n in nodes && system(n) == s)
      && (forall i, u :: i in iocsOf(u) <==> i in iocs && iou(i) == u)
    }
  }

  /** The fabric part of a point. */
  datatype Part =
    | NoPart
    | OnePort(port: PortId) | PortList(portList: seq<PortId>)
    | OneNode(node: NodeId) | NodeList(nodeList: seq<NodeId>)
    | OneIoc(ioc: IocId) | IocList(iocList: seq<IocId>)
    | OneSystem(system: SystemId)

  /** Lists are never empty and hold objects of the fabric. */
  ghost predicate WellFormed(inv: Inventory, part: Part) {
    match part
    case PortList(xs) => |xs| > 0 && forall x :: x in xs ==> x in inv.ports
    case NodeList(xs) => |xs| > 0 && forall x :: x in xs ==> x in inv.nodes
    case IocList(xs) => |xs| > 0 && forall x :: x in xs ==> x in inv.iocs
    case _ => true
  }

  /** Some listed object leads to b. */
  ghost predicate Leads<A(!new), B(!new)>(xs: seq<A>, f: A -> B, b: B) {
    exists x :: x in xs && f(x) == b
  }

  // ---- what a part selects ----

  ghost predicate SelectsPort(inv: Inventory, part: Part, p: PortId) {
    match part
    case NoPart => false
    case OnePort(x) => p == x
    case PortList(xs) => p in xs
    case OneNode(n) => inv.node(p) == n
    case NodeList(ns) => inv.node(p) in ns
    case OneIoc(i) => inv.node(p) == inv.IocNode(i)
    case IocList(xs) => Leads(xs, i => inv.IocNode(i), inv.node(p))
    case OneSystem(s) => inv.PortSystem(p) == s
  }

  ghost predicate SelectsNode(inv: Inventory, part: Part, n: NodeId) {
    match part
    case NoPart => false
    case OnePort(x) => n == inv.node(x)
    case PortList(xs) => Leads(xs, inv.node, n)
    case OneNode(x) => n == x
    case NodeList(ns) => n in ns
    case OneIoc(i) => n == inv.IocNode(i)
    case IocList(xs) => Leads(xs, i => inv.IocNode(i), n)
    case OneSystem(s) => inv.system(n) == s
  }

  ghost predicate SelectsIoc(inv: Inventory, part: Part, i: IocId) {
    match part
    case OneIoc(x) => i == x
    case IocList(xs) => i in xs
    case _ => SelectsNode(inv, part, inv.IocNode(i))
  }

  ghost predicate SelectsSystem(inv: Inventory, part: Part, s: SystemId) {
    match part
    case NoPart => false
    case OnePort(x) => s == inv.PortSystem(x)
    case PortList(xs) => Leads(xs, p => inv.PortSystem(p), s)
    case OneNode(n) => s == inv.system(n)
    case NodeList(ns) => Leads(ns, inv.system, s)
    case OneIoc(i) => s == inv.IocSystem(i)
    case IocList(xs) => Leads(xs, i => inv.IocSystem(i), s)
    case OneSystem(x) => s == x
  }

  /** Two parts select the same ports, nodes, IOCs and systems of the fabric. */
  ghost predicate SameAnswers(inv: Inventory, a: Part, b: Part) {
    && (forall p :: p in inv.ports ==> (SelectsPort(inv, a, p) <==> SelectsPort(inv, b, p)))
    && (forall n :: n in inv.nodes ==> (SelectsNode(inv, a, n) <==> SelectsNode(inv, b, n)))
    && (forall i :: i in inv.iocs ==> (SelectsIoc(inv, a, i) <==> SelectsIoc(inv, b, i)))
    && (forall s :: SelectsSystem(inv, a, s) <==> SelectsSystem(inv, b, s))
  }

  // ---- compression ----

  ghost predicate AllUnder<A(!new), B(!new)>(xs: seq<A>, f: A -> B, b: B) {
    forall x :: x in xs ==> f(x) == b
  }

  /** A list of as many objects as their common parent has. */
  ghost predicate Merges<A(!new), B(!new)>(xs: seq<A>, f: A -> B, children: B -> set<A>)
    requires |xs| > 0
  {
    |xs| != 1 && |xs| == |children(f(xs[0]))| && AllUnder(xs, f, f(xs[0]))
  }

  ghost function Compressed(inv: Inventory, part: Part): Part
    requires WellFormed(inv, part)
  {
    match part
    case PortList(xs) =>
      if |xs| == 1 then OnePort(xs[0]) else if Merges(xs, inv.node, inv.portsOf) then OneNode(inv.node(xs[0])) else part
    case NodeList(xs) =>
      if |xs| == 1 then OneNode(xs[0]) else if Merges(xs, inv.system, inv.nodesOf) then OneSystem(inv.system(xs[0])) else part
    case IocList(xs) =>
      if |xs| == 1 then OneIoc(xs[0]) else if Merges(xs, inv.iou, inv.iocsOf) then OneNode(inv.IocNode(xs[0])) else part
    case _ => part
  }

  ghost predicate NoDuplicates<T(!new)>(xs: seq<T>) {
    forall i, j :: 0 <= i < j < |xs| ==> xs[i] != xs[j]
  }

  /** No other IOU with IOCs is on the node of u. */
  ghost predicate OnlyIou(inv: Inventory, u: IouId) {
    forall i :: i in inv.iocs && inv.IocNode(i) == inv.iouNode(u) ==> inv.iou(i) == u
  }

  /** When compression loses nothing: a list it merges has no duplicates, and a list
      of IOCs it merges has the only IOU of its node. */
  ghost predicate Safe(inv: Inventory, part: Part)
    requires WellFormed(inv, part)
  {
    match part
    case PortList(xs) => Merges(xs, inv.node, inv.portsOf) ==> NoDuplicates(xs)
    case NodeList(xs) => Merges(xs, inv.system, inv.nodesOf) ==> NoDuplicates(xs)
    case IocList(xs) => Merges(xs, inv.iou, inv.iocsOf) ==> NoDuplicates(xs) && OnlyIou(inv, inv.iou(xs[0]))
    case _ => true
  }

  ghost function Elements<T(!new)>(xs: seq<T>): (r: set<T>)
    ensures forall x :: x in r <==> x in xs
  {
    set x | x in xs
  }

  lemma {:induction false} ElementCount<T(!new)>(xs: seq<T>)
    ensures |Elements(xs)| <= |xs|
    ensures |Elements(xs)| == |xs| <==> NoDuplicates(xs)
  {
    if |xs| > 0 {
      var last, rest := xs[|xs| - 1], xs[..|xs| - 1];
      ElementCount(rest);
      assert Elements(xs) == Elements(rest) + {last};
      if last in rest {
        var i :| 0 <= i < |rest| && rest[i] == last;
        assert xs[i] == xs[|xs| - 1];
      } else {
        assert NoDuplicates(xs) ==> NoDuplicates(rest);
        assert NoDuplicates(rest) ==> NoDuplicates(xs);
      }
    }
  }

  lemma SubsetOfSameSize<T>(a: set<T>, b: set<T>)
    requires a <= b
    ensures |a| == |b| <==> a == b
  {
    assert |b| == |a| + |b - a| by {
      assert b == a + (b - a);
    }
  }

  /** A list of as many members as the parent has is all of them exactly if it has
      no duplicates. */
  lemma ListIsWhole<T(!new)>(xs: seq<T>, all: set<T>)
    requires |xs| == |all| && forall x :: x in xs ==> x in all
    ensures NoDuplicates(xs) <==> forall x :: x in all ==> x in xs
  {
    ElementCount(xs);
    SubsetOfSameSize(Elements(xs), all);
  }

  /** A list under one parent leads to that parent only. */
  lemma LeadsToParent<A(!new), B(!new)>(xs: seq<A>, f: A -> B)
    requires |xs| > 0 && AllUnder(xs, f, f(xs[0]))
    ensures forall b :: Leads(xs, f, b) <==> b == f(xs[0])
  {
    assert xs[0] in xs;
  }

  lemma PortsCompress(inv: Inventory, xs: seq<PortId>)
    requires inv.Exact() && WellFormed(inv, PortList(xs)) && Merges(xs, inv.node, inv.portsOf)
    ensures SameAnswers(inv, PortList(xs), OneNode(inv.node(xs[0]))) <==> NoDuplicates(xs)
  {
    var n := inv.node(xs[0]);
    ListIsWhole(xs, inv.portsOf(n));
    assert xs[0] in xs;
    assert forall p :: p in inv.ports ==> (SelectsPort(inv, OneNode(n), p) <==> p in inv.portsOf(n));
    assert (forall p :: p in inv.ports ==> (SelectsPort(inv, PortList(xs), p) <==> SelectsPort(inv, OneNode(n), p)))
           <==> forall p :: p in inv.portsOf(n) ==> p in xs;
  }

  lemma NodesCompress(inv: Inventory, xs: seq<NodeId>)
    requires inv.Exact() && WellFormed(inv, NodeList(xs)) && Merges(xs, inv.system, inv.nodesOf)
    ensures SameAnswers(inv, NodeList(xs), OneSystem(inv.system(xs[0]))) <==> NoDuplicates(xs)
  {
    var s := inv.system(xs[0]);
    ListIsWhole(xs, inv.nodesOf(s));
    assert xs[0] in xs;
    assert forall n :: n in inv.nodes ==> (SelectsNode(inv, OneSystem(s), n) <==> n in inv.nodesOf(s));
    assert (forall n :: n in inv.nodes ==> (SelectsNode(inv, NodeList(xs), n) <==> SelectsNode(inv, OneSystem(s), n)))
           <==> forall n :: n in inv.nodesOf(s) ==> n in xs;
  }

  lemma IocsCompress(inv: Inventory, xs: seq<IocId>)
    requires inv.Exact() && WellFormed(inv, IocList(xs)) && Merges(xs, inv.iou, inv.iocsOf)
    ensures SameAnswers(inv, IocList(xs), OneNode(inv.IocNode(xs[0]))) <==> NoDuplicates(xs) && OnlyIou(inv, inv.iou(xs[0]))
  {
    var u := inv.iou(xs[0]);
    var n := inv.IocNode(xs[0]);
    ListIsWhole(xs, inv.iocsOf(u));
    LeadsToParent(xs, i => inv.IocNode(i));
    LeadsToParent(xs, i => inv.IocSystem(i));
    var same := forall i :: i in inv.iocs ==> (SelectsIoc(inv, IocList(xs), i) <==> SelectsIoc(inv, OneNode(n), i));
    assert SameAnswers(inv, IocList(xs), OneNode(n)) <==> same;
    if same {
      forall i | i in inv.iocs && inv.IocNode(i) == n
        ensures inv.iou(i) == u && i in xs
      {
        assert SelectsIoc(inv, OneNode(n), i);
      }
    }
  }

  /** Compression changes no answer exactly when it is safe. */
  lemma CompressExact(inv: Inventory, part: Part)
    requires inv.Exact() && WellFormed(inv, part)
    ensures SameAnswers(inv, part, Compressed(inv, part)) <==> Safe(inv, part)
  {
    match part {
      case PortList(xs) =>
        assert |xs| == 1 ==> xs == [xs[0]];
        if Merges(xs, inv.node, inv.portsOf) {
          PortsCompress(inv, xs);
        }
      case NodeList(xs) =>
        assert |xs| == 1 ==> xs == [xs[0]];
        if Merges(xs, inv.system, inv.nodesOf) {
          NodesCompress(inv, xs);
        }
      case IocList(xs) =>
        if |xs| == 1 {
          LeadsToParent(xs, i => inv.IocNode(i));
          LeadsToParent(xs, i => inv.IocSystem(i));
        }
        if Merges(xs, inv.iou, inv.iocsOf) {
          IocsCompress(inv, xs);
        }
      case _ =>
    }
  }

  /** For lists without duplicates and nodes with at most one IOU, compression changes
      no answer. */
  lemma CompressKeeps(inv: Inventory, part: Part)
    requires inv.Exact() && WellFormed(inv, part)
    requires forall u, v :: inv.iouNode(u) == inv.iouNode(v) ==> u == v
    requires part.PortList? ==> NoDuplicates(part.portList)
    requires part.NodeList? ==> NoDuplicates(part.nodeList)
    requires part.IocList? ==> NoDuplicates(part.iocList)
    ensures SameAnswers(inv, part, Compressed(inv, part))
  {
    CompressExact(inv, part);
  }

  /** One node with two ports, the first of which is listed twice: the list counts as
      the whole node, and the second port is selected after compression only. */
  lemma DuplicateWidens()
    ensures exists inv: Inventory, xs: seq<PortId>, p: PortId ::
              && inv.Exact() && WellFormed(inv, PortList(xs)) && p in inv.ports
              && !SelectsPort(inv, PortList(xs), p) && SelectsPort(inv, Compressed(inv, PortList(xs)), p)
  {
    var inv := Inventory({0, 1}, {0}, {}, p => 0, n => 0, i => 0, u => 0,
                         (n: NodeId) => if n == 0 then {0, 1} else {}, (s: SystemId) => if s == 0 then {0} else {}, u => {});
    assert inv.Exact();
    assert |inv.portsOf(0)| == 2;
    assert Merges([0, 0], inv.node, inv.portsOf);
    assert WellFormed(inv, PortList([0, 0]));
    assert !SelectsPort(inv, PortList([0, 0]), 1);
    assert SelectsPort(inv, Compressed(inv, PortList([0, 0])), 1);
  }

  // ---- the scans ----

  method Contains<T(==, !new)>(xs: seq<T>, x: T) returns (r: bool)
    ensures r <==> x in xs
  {
    for i := 0 to |xs|
      invariant x !in xs[..i]
    {
      if x == xs[i] {
        return true;
      }
    }
    return false;
  }

  method ContainsParent<A(!new), B(==, !new)>(xs: seq<A>, f: A -> B, b: B) returns (r: bool)
    ensures r <==> Leads(xs, f, b)
  {
    for i := 0 to |xs|
      invariant !Leads(xs[..i], f, b)
    {
      if b == f(xs[i]) {
        assert xs[i] in xs;
        return true;
      }
      assert xs[..i + 1] == xs[..i] + [xs[i]];
    }
    assert xs[..|xs|] == xs;
    return false;
  }

  /** Whether all listed objects have the parent of the first. */
  method SameParent<A(!new), B(==, !new)>(xs: seq<A>, f: A -> B) returns (r: bool)
    requires |xs| > 0
    ensures r <==> AllUnder(xs, f, f(xs[0]))
  {
    for i := 0 to |xs|
      invariant AllUnder(xs[..i], f, f(xs[0]))
    {
      if f(xs[0]) != f(xs[i]) {
        assert xs[i] in xs;
        return false;
      }
      assert xs[..i + 1] == xs[..i] + [xs[i]];
    }
    assert xs[..|xs|] == xs;
    return true;
  }

  datatype Status = FSuccess | FInvalidOperation

  /** A point; expected says whether its expected node, SM or link parts are set. */
  class Point {
    var part: Part
    var expected: bool

    constructor ()
      ensures part == NoPart && !expected
    {
      part, expected := NoPart, false;
    }

    predicate Valid()
      reads this
    {
      part != NoPart || expected
    }

    method ComparePort(inv: Inventory, p: PortId) returns (r: bool)
      ensures r <==> (Valid() ==> SelectsPort(inv, part, p))
    {
      if !Valid() {
        return true;
      }
      match part {
        case NoPart => r := false;
        case OnePort(x) => r := p == x;
        case PortList(xs) => r := Contains(xs, p);
        case OneNode(n) => r := inv.node(p) == n;
        case NodeList(ns) => r := Contains(ns, inv.node(p));
        case OneIoc(i) => r := inv.node(p) == inv.IocNode(i);
        case IocList(xs) => r := ContainsParent(xs, i => inv.IocNode(i), inv.node(p));
        case OneSystem(s) => r := inv.PortSystem(p) == s;
      }
    }

    method CompareNode(inv: Inventory, n: NodeId) returns (r: bool)
      ensures r <==> (Valid() ==> SelectsNode(inv, part, n))
    {
      if !Valid() {
        return true;
      }
      match part {
        case NoPart => r := false;
        case OnePort(x) => r := n == inv.node(x);
        case PortList(xs) => r := ContainsParent(xs, inv.node, n);
        case OneNode(x) => r := n == x;
        case NodeList(ns) => r := Contains(ns, n);
        case OneIoc(i) => r := n == inv.IocNode(i);
        case IocList(xs) => r := ContainsParent(xs, i => inv.IocNode(i), n);
        case OneSystem(s) => r := inv.system(n) == s;
      }
    }

    method CompareIoc(inv: Inventory, i: IocId) returns (r: bool)
      ensures r <==> (Valid() ==> SelectsIoc(inv, part, i))
    {
      if !Valid() {
        return true;
      }
      match part {
        case OneIoc(x) => r := i == x;
        case IocList(xs) => r := Contains(xs, i);
        case _ => r := CompareNode(inv, inv.IocNode(i));
      }
    }

    method CompareSystem(inv: Inventory, s: SystemId) returns (r: bool)
      ensures r <==> (Valid() ==> SelectsSystem(inv, part, s))
    {
      if !Valid() {
        return true;
      }
      match part {
        case NoPart => r := false;
        case OnePort(x) => r := s == inv.PortSystem(x);
        case PortList(xs) => r := ContainsParent(xs, p => inv.PortSystem(p), s);
        case OneNode(n) => r := s == inv.system(n);
        case NodeList(ns) => r := ContainsParent(ns, inv.system, s);
        case OneIoc(i) => r := s == inv.IocSystem(i);
        case IocList(xs) => r := ContainsParent(xs, i => inv.IocSystem(i), s);
        case OneSystem(x) => r := s == x;
      }
    }

    /** Appends a port to a port list unless it is there; the first port makes the
        list.  Any other kind of point is destroyed. */
    method AppendUniquePort(inv: Inventory, p: PortId) returns (status: Status)
      modifies this
      ensures status == FSuccess <==> old(part.NoPart? || part.PortList?)
      ensures status == FSuccess ==> part.PortList? && expected == old(expected)
      ensures status == FSuccess ==> forall x :: SelectsPort(inv, part, x) <==> x == p || old(SelectsPort(inv, part, x))
      ensures status == FSuccess && old(part.PortList? ==> NoDuplicates(part.portList)) ==> NoDuplicates(part.portList)
      ensures status != FSuccess ==> !Valid()
    {
      if part.PortList? {
        var known := ComparePort(inv, p);
        if known {
          return FSuccess;
        }
      }
      if part.NoPart? {
        part := PortList([]);
      } else if !part.PortList? {
        part, expected := NoPart, false;
        return FInvalidOperation;
      }
      part := PortList(part.portList + [p]);
      return FSuccess;
    }

    /** Puts the point in a simpler form if there is one. */
    method Compress(inv: Inventory)
      requires inv.Exact() && WellFormed(inv, part)
      modifies this
      ensures part == Compressed(inv, old(part)) && expected == old(expected) && Valid() == old(Valid())
      ensures SameAnswers(inv, old(part), part) <==> old(Safe(inv, part))
    {
      CompressExact(inv, part);
      match part {
        case PortList(xs) =>
          if |xs| == 1 {
            part := OnePort(xs[0]);
          } else if |xs| == |inv.portsOf(inv.node(xs[0]))| {
            var same := SameParent(xs, inv.node);
            if same {
              part := OneNode(inv.node(xs[0]));
            }
          }
        case NodeList(xs) =>
          if |xs| == 1 {
            part := OneNode(xs[0]);
          } else if |xs| == |inv.nodesOf(inv.system(xs[0]))| {
            var same := SameParent(xs, inv.system);
            if same {
              part := OneSystem(inv.system(xs[0]));
            }
          }
        case IocList(xs) =>
          if |xs| == 1 {
            part := OneIoc(xs[0]);
          } else if |xs| == |inv.iocsOf(inv.iou(xs[0]))| {
            var same := SameParent(xs, inv.iou);
            if same {
              part := OneNode(inv.IocNode(xs[0]));
            }
          }
        case _ =>
      }
    }
  }
}
