/** Which service channels traffic can use: those the used SLs map to, closed
    under the SC2SC tables of the switches. */
module ScClosure {
  import opened Fabric

  const MAX_SCS: nat := 32

  /** An SL2SC or SC2SC table. */
  type Table = t: seq<nat> | |t| == MAX_SCS && forall i :: 0 <= i < MAX_SCS ==> t[i] < MAX_SCS
    witness seq(MAX_SCS, i => 0)

  /** An ingress port with its SC2SC tables by egress port. */
  datatype Ingress = Ingress(num: nat, scsc: map<nat, Table>)

  datatype Switch = Switch(numPorts: nat, ports: seq<Ingress>)

  /** The mask 0xff7f, at which seeding stops. */
  const SEEDING_DONE: set<nat> := {0, 1, 2, 3, 4, 5, 6, 8, 9, 10, 11, 12, 13, 14, 15}

  /** One of the first n SLs is used and mapped to sc. */
  ghost predicate FromTable(table: Table, usedSLs: set<nat>, n: nat, sc: nat)
    requires n <= MAX_SCS
  {
    sc != INVALID_SC && exists sl :: sl in usedSLs && 0 <= sl < n && table[sl] == sc
  }

  ghost predicate FromNode(node: seq<Table>, usedSLs: set<nat>, n: nat, sc: nat)
    requires n <= |node|
  {
    exists j :: 0 <= j < n && FromTable(node[j], usedSLs, MAX_SCS, sc)
  }

  /** A used SL is mapped to sc at one of the first n nodes. */
  ghost predicate IsSeed(nodes: seq<seq<Table>>, usedSLs: set<nat>, n: nat, sc: nat)
    requires n <= |nodes|
  {
    exists i :: 0 <= i < n && FromNode(nodes[i], usedSLs, |nodes[i]|, sc)
  }

  /** S keeps everything a table maps its members to, except the invalid SC. */
  ghost predicate Respects(S: set<nat>, table: Table) {
    forall sc :: sc in S && sc < MAX_SCS && table[sc] != INVALID_SC ==> table[sc] in S
  }

  /** The ingress/egress pairs the sweep visits: egress 0 to NumPorts - 1. */
  ghost predicate ClosedAt(S: set<nat>, sw: Switch, port: Ingress) {
    port.num != 0 ==> forall e :: 0 <= e < sw.numPorts && e in port.scsc ==> Respects(S, port.scsc[e])
  }

  ghost predicate ClosedIn(S: set<nat>, sw: Switch) {
    forall j :: 0 <= j < |sw.ports| ==> ClosedAt(S, sw, sw.ports[j])
  }

  ghost predicate Closed(S: set<nat>, switches: seq<Switch>) {
    forall i :: 0 <= i < |switches| ==> ClosedIn(S, switches[i])
  }

  /** Valid SCs only. */
  ghost predicate Channels(S: set<nat>) {
    forall sc :: sc in S ==> sc < MAX_SCS && sc != INVALID_SC
  }

  ghost predicate IsSc(sc: nat) {
    sc < MAX_SCS
  }

  /** A sweep step only adds what any closed set above it has. */
  ghost predicate Grows(S: set<nat>, S': set<nat>, switches: seq<Switch>) {
    && S <= S'
    && (Channels(S) ==> Channels(S'))
    && forall C: set<nat> :: S <= C && Closed(C, switches) ==> S' <= C
  }

  /** Maps every used SC through one table.  SCs added below the scan position
      are left to a later sweep. */
  method ApplyTable(used: set<nat>, table: Table) returns (used': set<nat>)
    requires Channels(used)
    ensures used <= used' && Channels(used')
    ensures forall C: set<nat> :: used <= C && Respects(C, table) ==> used' <= C
    ensures used' == used ==> Respects(used, table)
  {
    used' := used;
    var sc := 0;
    while exists x :: x in used' && x >= sc
      invariant used <= used' && Channels(used') && sc <= MAX_SCS
      invariant forall C: set<nat> :: used <= C && Respects(C, table) ==> used' <= C
      invariant forall x :: x in used && x < sc && table[x] != INVALID_SC ==> table[x] in used'
      decreases MAX_SCS - sc
    {
      if sc in used' {
        if table[sc] != INVALID_SC {
          used' := used' + {table[sc]};
        }
      }
      sc := sc + 1;
    }
  }

  method SweepPort(used: set<nat>, sw: Switch, port: Ingress, ghost switches: seq<Switch>) returns (used': set<nat>)
    requires Channels(used) && sw in switches && port in sw.ports
    ensures Grows(used, used', switches)
    ensures used' == used ==> ClosedAt(used, sw, port)
  {
    used' := used;
    if port.num == 0 {
      return;
    }
    for e := 0 to sw.numPorts
      invariant Channels(used') && Grows(used, used', switches)
      invariant used' == used ==> forall d :: 0 <= d < e && d in port.scsc ==> Respects(used, port.scsc[d])
    {
      if e in port.scsc {
        ghost var before := used';
        used' := ApplyTable(used', port.scsc[e]);
        forall C: set<nat> | used <= C && Closed(C, switches)
          ensures used' <= C
        {
          assert ClosedIn(C, sw) && ClosedAt(C, sw, port);
          assert Respects(C, port.scsc[e]);
        }
      }
    }
  }

  method Sweep(used: set<nat>, switches: seq<Switch>) returns (used': set<nat>)
    requires Channels(used)
    ensures Grows(used, used', switches)
    ensures used' == used ==> Closed(used, switches)
  {
    used' := used;
    for i := 0 to |switches|
      invariant Channels(used') && Grows(used, used', switches)
      invariant used' == used ==> forall k :: 0 <= k < i ==> ClosedIn(used, switches[k])
    {
      var sw := switches[i];
      for j := 0 to |sw.ports|
        invariant Channels(used') && Grows(used, used', switches)
        invariant used' == used ==> forall k :: 0 <= k < i ==> ClosedIn(used, switches[k])
        invariant used' == used ==> forall k :: 0 <= k < j ==> ClosedAt(used, sw, sw.ports[k])
      {
        used' := SweepPort(used', sw, sw.ports[j], switches);
      }
    }
  }

  /** SCs that the used SLs map to at hosts and at port 0 of switches; nodes lists
      the SL2SC tables of those ports, node by node.  The early stop never happens:
      its mask includes the invalid SC. */
  method Seed(nodes: seq<seq<Table>>, usedSLs: set<nat>) returns (used: set<nat>)
    ensures Channels(used) && forall sc :: sc in used <==> IsSeed(nodes, usedSLs, |nodes|, sc)
  {
    used := {};
    var i := 0;
    while i < |nodes| && used != SEEDING_DONE
      invariant i <= |nodes| && Channels(used) && forall sc :: sc in used <==> IsSeed(nodes, usedSLs, i, sc)
      decreases |nodes| - i
    {
      for j := 0 to |nodes[i]|
        invariant Channels(used)
        invariant forall sc :: sc in used <==> IsSeed(nodes, usedSLs, i, sc) || FromNode(nodes[i], usedSLs, j, sc)
      {
        var table := nodes[i][j];
        for sl := 0 to MAX_SCS
          invariant Channels(used)
          invariant forall sc :: sc in used <==>
                      IsSeed(nodes, usedSLs, i, sc) || FromNode(nodes[i], usedSLs, j, sc) || FromTable(table, usedSLs, sl, sc)
        {
          if sl in usedSLs && table[sl] != INVALID_SC {
            used := used + {table[sl]};
          }
        }
      }
      i := i + 1;
    }
    assert INVALID_SC in SEEDING_DONE;
  }

  /** The used SLs, and the least set of SCs that holds their seeds and is closed
      under the tables visited. */
  method GetSlScInfo(vfs: seq<nat>, nodes: seq<seq<Table>>, switches: seq<Switch>) returns (usedSLs: set<nat>, usedSCs: set<nat>)
    ensures forall sl :: sl in usedSLs <==> sl in vfs
    ensures Channels(usedSCs) && Closed(usedSCs, switches)
    ensures forall sc :: IsSeed(nodes, usedSLs, |nodes|, sc) ==> sc in usedSCs
    ensures forall C: set<nat> :: Closed(C, switches) && (forall sc :: IsSeed(nodes, usedSLs, |nodes|, sc) ==> sc in C) ==> usedSCs <= C
    ensures forall sc: nat :: sc in usedSCs <==> Reachable(nodes, usedSLs, switches, false, sc)
  {
    usedSLs := {};
    for i := 0 to |vfs|
      invariant forall sl :: sl in usedSLs <==> sl in vfs[..i]
    {
      usedSLs := usedSLs + {vfs[i]};
    }
    assert vfs[..|vfs|] == vfs;
    usedSCs := Seed(nodes, usedSLs);
    ghost var all := set sc: nat | sc < MAX_SCS && IsSc(sc);
    ghost var seeds := usedSCs;
    var save := usedSCs;
    usedSCs := Sweep(usedSCs, switches);
    while usedSCs != save
      invariant seeds <= save <= usedSCs && Channels(usedSCs)
      invariant forall sc :: sc in usedSCs ==> IsSc(sc)
      invariant forall C: set<nat> :: seeds <= C && Closed(C, switches) ==> usedSCs <= C
      invariant usedSCs == save ==> Closed(usedSCs, switches)
      decreases all - save
    {
      save := usedSCs;
      usedSCs := Sweep(usedSCs, switches);
    }
    LeastIsReachable(nodes, usedSLs, switches, usedSCs);
  }

  // ---- what packets can come to use ----

  /** A packet on SC a crosses a switch and leaves on SC b.  The sweep visits egress
      ports below NumPorts; last includes egress port NumPorts too. */
  ghost predicate Crossing(switches: seq<Switch>, last: bool, a: nat, b: nat) {
    exists i: nat, j: nat, e: nat :: CrossingAt(switches, last, i, j, e, a, b)
  }

  ghost predicate CrossingAt(switches: seq<Switch>, last: bool, i: nat, j: nat, e: nat, a: nat, b: nat) {
    && i < |switches| && j < |switches[i].ports| && switches[i].ports[j].num != 0
    && (e < switches[i].numPorts || (last && e == switches[i].numPorts)) && e in switches[i].ports[j].scsc
    && a < MAX_SCS && switches[i].ports[j].scsc[e][a] == b != INVALID_SC
  }

  ghost predicate IsChain(switches: seq<Switch>, last: bool, c: seq<nat>) {
    |c| > 0 && forall k :: 0 <= k < |c| - 1 ==> Crossing(switches, last, c[k], c[k + 1])
  }

  /** Some packet of a used SL comes to use sc after finitely many switches. */
  ghost predicate Reachable(nodes: seq<seq<Table>>, usedSLs: set<nat>, switches: seq<Switch>, last: bool, sc: nat) {
    exists c :: IsChain(switches, last, c) && IsSeed(nodes, usedSLs, |nodes|, c[0]) && c[|c| - 1] == sc
  }

  lemma SeedReachable(nodes: seq<seq<Table>>, usedSLs: set<nat>, switches: seq<Switch>, last: bool, sc: nat)
    requires IsSeed(nodes, usedSLs, |nodes|, sc)
    ensures Reachable(nodes, usedSLs, switches, last, sc)
  {
    assert IsChain(switches, last, [sc]);
  }

  lemma ReachableStep(nodes: seq<seq<Table>>, usedSLs: set<nat>, switches: seq<Switch>, last: bool, a: nat, b: nat)
    requires Reachable(nodes, usedSLs, switches, last, a) && Crossing(switches, last, a, b)
    ensures Reachable(nodes, usedSLs, switches, last, b)
  {
    var c :| IsChain(switches, last, c) && IsSeed(nodes, usedSLs, |nodes|, c[0]) && c[|c| - 1] == a;
    var d := c + [b];
    forall k | 0 <= k < |d| - 1
      ensures Crossing(switches, last, d[k], d[k + 1])
    {
      assert k < |c| - 1 ==> Crossing(switches, last, c[k], c[k + 1]);
    }
    assert d[|d| - 1] == b && d[0] == c[0];
  }

  /** A property of the seeds that crossings keep holds along every chain. */
  lemma {:induction false} ChainInside(nodes: seq<seq<Table>>, usedSLs: set<nat>, switches: seq<Switch>, last: bool, c: seq<nat>, P: nat -> bool)
    requires IsChain(switches, last, c) && IsSeed(nodes, usedSLs, |nodes|, c[0])
    requires forall sc :: IsSeed(nodes, usedSLs, |nodes|, sc) ==> P(sc)
    requires forall a, b :: P(a) && Crossing(switches, last, a, b) ==> P(b)
    ensures P(c[|c| - 1])
  {
    if |c| > 1 {
      var r := c[..|c| - 1];
      forall k | 0 <= k < |r| - 1
        ensures Crossing(switches, last, r[k], r[k + 1])
      {
        assert Crossing(switches, last, c[k], c[k + 1]);
      }
      ChainInside(nodes, usedSLs, switches, last, r, P);
      assert Crossing(switches, last, c[|c| - 2], c[|c| - 2 + 1]);
    }
  }

  lemma SeedIsSc(nodes: seq<seq<Table>>, usedSLs: set<nat>, sc: nat)
    requires IsSeed(nodes, usedSLs, |nodes|, sc)
    ensures sc < MAX_SCS
  {
    var i :| 0 <= i < |nodes| && FromNode(nodes[i], usedSLs, |nodes[i]|, sc);
    var j :| 0 <= j < |nodes[i]| && FromTable(nodes[i][j], usedSLs, MAX_SCS, sc);
  }

  lemma ReachableIsSc(nodes: seq<seq<Table>>, usedSLs: set<nat>, switches: seq<Switch>, last: bool, sc: nat)
    requires Reachable(nodes, usedSLs, switches, last, sc)
    ensures sc < MAX_SCS
  {
    var c :| IsChain(switches, last, c) && IsSeed(nodes, usedSLs, |nodes|, c[0]) && c[|c| - 1] == sc;
    if |c| == 1 {
      SeedIsSc(nodes, usedSLs, sc);
    } else {
      assert Crossing(switches, last, c[|c| - 2], c[|c| - 2 + 1]);
      var i: nat, j: nat, e: nat :| CrossingAt(switches, last, i, j, e, c[|c| - 2], sc);
    }
  }

  ghost function ReachableSet(nodes: seq<seq<Table>>, usedSLs: set<nat>, switches: seq<Switch>, last: bool): (R: set<nat>)
    ensures forall sc: nat :: sc in R <==> Reachable(nodes, usedSLs, switches, last, sc)
  {
    var R := set sc: nat | sc < MAX_SCS && Reachable(nodes, usedSLs, switches, last, sc);
    assert forall sc: nat :: Reachable(nodes, usedSLs, switches, last, sc) ==> sc < MAX_SCS by {
      forall sc: nat | Reachable(nodes, usedSLs, switches, last, sc)
        ensures sc < MAX_SCS
      {
        ReachableIsSc(nodes, usedSLs, switches, last, sc);
      }
    }
    R
  }

  lemma ClosedIffCrossings(S: set<nat>, switches: seq<Switch>)
    ensures Closed(S, switches) <==> forall a: nat, b: nat :: a in S && Crossing(switches, false, a, b) ==> b in S
  {
    if Closed(S, switches) {
      forall a: nat, b: nat | a in S && Crossing(switches, false, a, b)
        ensures b in S
      {
        var i: nat, j: nat, e: nat :| CrossingAt(switches, false, i, j, e, a, b);
        assert ClosedIn(S, switches[i]) && ClosedAt(S, switches[i], switches[i].ports[j]);
        assert Respects(S, switches[i].ports[j].scsc[e]);
      }
    }
    if forall a: nat, b: nat :: a in S && Crossing(switches, false, a, b) ==> b in S {
      forall i, j, e | 0 <= i < |switches| && 0 <= j < |switches[i].ports| && switches[i].ports[j].num != 0
                       && 0 <= e < switches[i].numPorts && e in switches[i].ports[j].scsc
        ensures Respects(S, switches[i].ports[j].scsc[e])
      {
        forall a | a in S && a < MAX_SCS && switches[i].ports[j].scsc[e][a] != INVALID_SC
          ensures switches[i].ports[j].scsc[e][a] in S
        {
          assert CrossingAt(switches, false, i, j, e, a, switches[i].ports[j].scsc[e][a]);
        }
      }
    }
  }

  /** The least closed set above the seeds is what chains of crossings reach. */
  lemma LeastIsReachable(nodes: seq<seq<Table>>, usedSLs: set<nat>, switches: seq<Switch>, S: set<nat>)
    requires Closed(S, switches) && forall sc :: IsSeed(nodes, usedSLs, |nodes|, sc) ==> sc in S
    requires forall C: set<nat> :: Closed(C, switches) && (forall sc :: IsSeed(nodes, usedSLs, |nodes|, sc) ==> sc in C) ==> S <= C
    ensures forall sc: nat :: sc in S <==> Reachable(nodes, usedSLs, switches, false, sc)
  {
    hide Closed;
    var R := ReachableSet(nodes, usedSLs, switches, false);
    ClosedIffCrossings(S, switches);
    ClosedIffCrossings(R, switches);
    forall a: nat, b: nat | a in R && Crossing(switches, false, a, b)
      ensures b in R
    {
      ReachableStep(nodes, usedSLs, switches, false, a, b);
    }
    forall sc: nat | IsSeed(nodes, usedSLs, |nodes|, sc)
      ensures sc in R
    {
      SeedReachable(nodes, usedSLs, switches, false, sc);
    }
    forall sc: nat | sc in R
      ensures sc in S
    {
      var c :| IsChain(switches, false, c) && IsSeed(nodes, usedSLs, |nodes|, c[0]) && c[|c| - 1] == sc;
      ChainInside(nodes, usedSLs, switches, false, c, x => x in S);
    }
  }

  // ---- the egress port the sweep leaves out ----

  /** Port j of switch i has a table towards the last egress port. */
  ghost predicate HasLast(switches: seq<Switch>, i: nat, j: nat) {
    i < |switches| && j < |switches[i].ports| && switches[i].ports[j].num != 0 && switches[i].numPorts in switches[i].ports[j].scsc
  }

  /** The tables towards the last egress port lead from a reached SC to SC 15 or to
      another reached SC only. */
  ghost predicate LastHarmless(nodes: seq<seq<Table>>, usedSLs: set<nat>, switches: seq<Switch>) {
    forall i: nat, j: nat, sc: nat :: HasLast(switches, i, j) && sc < MAX_SCS && Reachable(nodes, usedSLs, switches, false, sc) ==>
      var b := switches[i].ports[j].scsc[switches[i].numPorts][sc];
      b == INVALID_SC || Reachable(nodes, usedSLs, switches, false, b)
  }

  /** The sweep finds every SC that packets can come to use, over all egress ports,
      exactly if the tables it leaves out are harmless. */
  lemma FindsAllIff(nodes: seq<seq<Table>>, usedSLs: set<nat>, switches: seq<Switch>)
    ensures (forall sc: nat :: Reachable(nodes, usedSLs, switches, true, sc) <==> Reachable(nodes, usedSLs, switches, false, sc))
            <==> LastHarmless(nodes, usedSLs, switches)
  {
    var R := ReachableSet(nodes, usedSLs, switches, false);
    forall sc: nat | sc in R
      ensures Reachable(nodes, usedSLs, switches, true, sc)
    {
      MoreEgress(nodes, usedSLs, switches, sc);
    }
    if LastHarmless(nodes, usedSLs, switches) {
      forall sc: nat | Reachable(nodes, usedSLs, switches, true, sc)
        ensures sc in R
      {
        HarmlessStays(nodes, usedSLs, switches, sc);
      }
    }
    if forall sc: nat :: Reachable(nodes, usedSLs, switches, true, sc) <==> Reachable(nodes, usedSLs, switches, false, sc) {
      forall i: nat, j: nat, sc: nat | HasLast(switches, i, j) && sc < MAX_SCS && Reachable(nodes, usedSLs, switches, false, sc)
        ensures var b := switches[i].ports[j].scsc[switches[i].numPorts][sc];
                b == INVALID_SC || Reachable(nodes, usedSLs, switches, false, b)
      {
        var b := switches[i].ports[j].scsc[switches[i].numPorts][sc];
        if b != INVALID_SC {
          assert CrossingAt(switches, true, i, j, switches[i].numPorts, sc, b);
          ReachableStep(nodes, usedSLs, switches, true, sc, b);
        }
      }
    }
  }

  lemma MoreEgress(nodes: seq<seq<Table>>, usedSLs: set<nat>, switches: seq<Switch>, sc: nat)
    requires Reachable(nodes, usedSLs, switches, false, sc)
    ensures Reachable(nodes, usedSLs, switches, true, sc)
  {
    var c :| IsChain(switches, false, c) && IsSeed(nodes, usedSLs, |nodes|, c[0]) && c[|c| - 1] == sc;
    forall k | 0 <= k < |c| - 1
      ensures Crossing(switches, true, c[k], c[k + 1])
    {
      assert Crossing(switches, false, c[k], c[k + 1]);
      var i: nat, j: nat, e: nat :| CrossingAt(switches, false, i, j, e, c[k], c[k + 1]);
      assert CrossingAt(switches, true, i, j, e, c[k], c[k + 1]);
    }
    assert IsChain(switches, true, c);
  }

  lemma HarmlessStays(nodes: seq<seq<Table>>, usedSLs: set<nat>, switches: seq<Switch>, sc: nat)
    requires LastHarmless(nodes, usedSLs, switches) && Reachable(nodes, usedSLs, switches, true, sc)
    ensures Reachable(nodes, usedSLs, switches, false, sc)
  {
    var R := ReachableSet(nodes, usedSLs, switches, false);
    forall a: nat, b: nat | a in R && Crossing(switches, true, a, b)
      ensures b in R
    {
      var i: nat, j: nat, e: nat :| CrossingAt(switches, true, i, j, e, a, b);
      if e == switches[i].numPorts {
        assert HasLast(switches, i, j);
      } else {
        assert CrossingAt(switches, false, i, j, e, a, b);
        ReachableStep(nodes, usedSLs, switches, false, a, b);
      }
    }
    forall x: nat | IsSeed(nodes, usedSLs, |nodes|, x)
      ensures x in R
    {
      SeedReachable(nodes, usedSLs, switches, false, x);
    }
    var c :| IsChain(switches, true, c) && IsSeed(nodes, usedSLs, |nodes|, c[0]) && c[|c| - 1] == sc;
    ChainInside(nodes, usedSLs, switches, true, c, x => x in R);
  }

  /** Swaps SC 0 and SC 1. */
  function SwapTable(): Table {
    seq(MAX_SCS, i => if i == 0 then 1 else if i == 1 then 0 else i)
  }

  /** Maps every SL to SC 0. */
  function ZeroTable(): Table {
    seq(MAX_SCS, i => 0)
  }

  /** One virtual fabric on SL 0, one host that maps it to SC 0, and a one-port switch
      whose only table is for egress port 1: SC 0 is all that is found, although
      packets leave the switch on SC 1. */
  method LastEgressIgnored() returns (usedSLs: set<nat>, usedSCs: set<nat>)
    ensures usedSCs == {0}
    ensures Reachable([[ZeroTable()]], usedSLs, [Switch(1, [Ingress(1, map[1 := SwapTable()])])], true, 1)
  {
    var nodes, switches := [[ZeroTable()]], [Switch(1, [Ingress(1, map[1 := SwapTable()])])];
    usedSLs, usedSCs := GetSlScInfo([0], nodes, switches);
    assert 0 in usedSLs by {
      assert [0][0] == 0;
    }
    LastRun(usedSLs);
    assert forall sc: nat :: sc in usedSCs <==> sc == 0;
  }

  lemma LastRun(usedSLs: set<nat>)
    requires 0 in usedSLs
    ensures var nodes, switches := [[ZeroTable()]], [Switch(1, [Ingress(1, map[1 := SwapTable()])])];
            && (forall sc: nat :: Reachable(nodes, usedSLs, switches, false, sc) <==> sc == 0)
            && Reachable(nodes, usedSLs, switches, true, 1)
  {
    var nodes, switches := [[ZeroTable()]], [Switch(1, [Ingress(1, map[1 := SwapTable()])])];
    assert FromTable(nodes[0][0], usedSLs, MAX_SCS, 0) by {
      assert nodes[0][0][0] == 0;
    }
    assert FromNode(nodes[0], usedSLs, 1, 0);
    assert IsSeed(nodes, usedSLs, 1, 0);
    SeedReachable(nodes, usedSLs, switches, false, 0);
    SeedReachable(nodes, usedSLs, switches, true, 0);
    assert CrossingAt(switches, true, 0, 0, 1, 0, 1) by {
      assert switches[0].ports[0].scsc[1][0] == 1;
    }
    ReachableStep(nodes, usedSLs, switches, true, 0, 1);
    forall sc: nat | Reachable(nodes, usedSLs, switches, false, sc)
      ensures sc == 0
    {
      var c :| IsChain(switches, false, c) && IsSeed(nodes, usedSLs, |nodes|, c[0]) && c[|c| - 1] == sc;
      assert forall x: nat :: IsSeed(nodes, usedSLs, |nodes|, x) ==> x == 0;
      ChainInside(nodes, usedSLs, switches, false, c, x => x == 0);
    }
  }
}
