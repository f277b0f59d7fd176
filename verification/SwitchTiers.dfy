/** Breadth-first labelling of switches by their distance from the FIs.  The label
    lives in a 5-bit field. */
module SwitchTiers {
  import opened Fabric

  const LABELS: nat := 32

  /** peers gives, port by port, the node cabled to a node. */
  datatype Topology = Topology(fis: seq<NodeId>, switches: seq<NodeId>, peers: map<NodeId, seq<Option<NodeId>>>)

  ghost predicate ValidTopology(t: Topology) {
    && (forall n :: n in t.fis ==> n in t.peers && n !in t.switches)
    && (forall n :: n in t.switches ==> n in t.peers)
    && (forall n, m :: n in t.peers && Some(m) in t.peers[n] ==> m in t.peers)
  }

  // ---- distances ----

  ghost predicate Attached(t: Topology, s: NodeId) {
    exists n :: n in t.fis && n in t.peers && Some(s) in t.peers[n]
  }

  ghost predicate Joined(t: Topology, r: NodeId, s: NodeId) {
    r in t.peers && Some(s) in t.peers[r]
  }

  /** Switches only, from one next to an FI, each joined to the next. */
  ghost predicate IsClimb(t: Topology, p: seq<NodeId>) {
    && |p| > 0
    && (forall i :: 0 <= i < |p| ==> p[i] in t.switches)
    && Attached(t, p[0])
    && forall i :: 0 <= i < |p| - 1 ==> Joined(t, p[i], p[i + 1])
  }

  /** s is at most k switch-to-switch links away from a switch next to an FI. */
  ghost predicate Near(t: Topology, s: NodeId, k: nat) {
    exists p: seq<NodeId> :: IsClimb(t, p) && p[|p| - 1] == s && |p| <= k + 1
  }

  lemma NearStart(t: Topology, s: NodeId)
    ensures Near(t, s, 0) <==> s in t.switches && Attached(t, s)
  {
    if s in t.switches && Attached(t, s) {
      assert IsClimb(t, [s]);
    }
  }

  lemma NearMonotone(t: Topology, s: NodeId, j: nat, k: nat)
    requires j <= k
    ensures Near(t, s, j) ==> Near(t, s, k)
  {
  }

  /** A switch below s that gets it one level on. */
  ghost predicate Below(t: Topology, s: NodeId, k: nat) {
    exists r :: r in t.switches && Near(t, r, k) && Joined(t, r, s)
  }

  lemma NearStep(t: Topology, s: NodeId, k: nat)
    ensures Near(t, s, k + 1) <==> Near(t, s, k) || (s in t.switches && Below(t, s, k))
  {
    if Near(t, s, k) {
      NearMonotone(t, s, k, k + 1);
    }
    if s in t.switches && Below(t, s, k) {
      var r :| r in t.switches && Near(t, r, k) && Joined(t, r, s);
      var p :| IsClimb(t, p) && p[|p| - 1] == r && |p| <= k + 1;
      assert IsClimb(t, p + [s]);
    }
    if Near(t, s, k + 1) {
      var p :| IsClimb(t, p) && p[|p| - 1] == s && |p| <= k + 2;
      if |p| == k + 2 {
        var q := p[..|p| - 1];
        assert IsClimb(t, q) && Joined(t, p[|p| - 2], p[|p| - 1]);
        assert Near(t, q[|q| - 1], k);
      }
    }
  }

  ghost predicate Settles(t: Topology, s: NodeId, j: nat) {
    Near(t, s, j + 1) ==> Near(t, s, j)
  }

  /** Once a level adds no switch, none follows. */
  lemma {:induction false} NearFixpoint(t: Topology, s: NodeId, j: nat, k: nat)
    requires j <= k && forall x :: Settles(t, x, j)
    ensures Near(t, s, k) <==> Near(t, s, j)
    decreases k
  {
    if j < k {
      NearStep(t, s, k - 1);
      NearStep(t, s, j);
      assert Settles(t, s, j);
      forall x
        ensures Near(t, x, k - 1) <==> Near(t, x, j)
      {
        NearFixpoint(t, x, j, k - 1);
      }
      NearMonotone(t, s, j, k);
    }
  }

  // ---- labels ----

  /** Labels up to n + 1 are right: a switch is labelled at most k + 1 exactly when
      it is at most k links away. */
  ghost predicate Exact(t: Topology, a: map<NodeId, nat>, n: nat) {
    forall s, k: nat {:trigger Near(t, s, k)} :: s in t.switches && s in a && k <= n ==> (0 < a[s] <= k + 1 <==> Near(t, s, k))
  }

  /** m is cabled to one of the given switches that carries label tier - 1. */
  ghost predicate Reached(t: Topology, switches: seq<NodeId>, a: map<NodeId, nat>, tier: nat, m: NodeId) {
    exists r :: r in switches && r in a && a[r] == tier - 1 && Joined(t, r, m)
  }

  lemma ReachedStep(t: Topology, a: map<NodeId, nat>, tier: nat, i: nat, m: NodeId)
    requires i < |t.switches| && t.switches[i] in a
    ensures Reached(t, t.switches[..i + 1], a, tier, m) <==>
              Reached(t, t.switches[..i], a, tier, m) || (a[t.switches[i]] == tier - 1 && Joined(t, t.switches[i], m))
  {
    assert t.switches[..i + 1] == t.switches[..i] + [t.switches[i]];
  }

  /** The label n gets in a round if it is unlabelled and reached. */
  ghost function Labelled(a: map<NodeId, nat>, n: NodeId, reached: bool, tier: nat): nat
    requires n in a
  {
    if a[n] == 0 && reached then tier % LABELS else a[n]
  }

  class Labels {
    var analysis: map<NodeId, nat>

    constructor (t: Topology)
      ensures analysis.Keys == t.peers.Keys && forall n :: n in analysis ==> analysis[n] == 0
    {
      analysis := map n | n in t.peers :: 0;
    }

    ghost predicate Valid(t: Topology)
      reads this
    {
      ValidTopology(t) && analysis.Keys == t.peers.Keys && forall n :: n in analysis ==> analysis[n] < LABELS
    }

    /** Switches cabled to an FI get label 1. */
    method LabelAttached(t: Topology)
      requires Valid(t) && forall n :: n in analysis ==> analysis[n] == 0
      modifies this
      ensures Valid(t)
      ensures forall n :: n in analysis ==> analysis[n] == if n in t.switches && Attached(t, n) then 1 else 0
    {
      for i := 0 to |t.fis|
        invariant Valid(t)
        invariant forall n :: n in analysis ==> analysis[n] == if n in t.switches && AttachedTo(t, t.fis[..i], n) then 1 else 0
      {
        var fi := t.fis[i];
        for j := 0 to |t.peers[fi]|
          invariant Valid(t)
          invariant forall n :: n in analysis ==>
                      analysis[n] == if n in t.switches && (AttachedTo(t, t.fis[..i], n) || Some(n) in t.peers[fi][..j]) then 1 else 0
        {
          if t.peers[fi][j].Some? && t.peers[fi][j].value in t.switches {
            analysis := analysis[t.peers[fi][j].value := 1];
          }
        }
        assert t.peers[fi][..|t.peers[fi]|] == t.peers[fi];
        forall n: NodeId
          ensures AttachedTo(t, t.fis[..i + 1], n) <==> AttachedTo(t, t.fis[..i], n) || Some(n) in t.peers[fi]
        {
          AttachedStep(t, i, n);
        }
      }
      assert t.fis[..|t.fis|] == t.fis;
    }

    /** Labels the unlabelled nodes cabled to a switch; an FI gets a label too. */
    method LabelPeers(t: Topology, sw: NodeId, tier: nat) returns (found: bool)
      requires Valid(t) && sw in t.peers
      modifies this
      ensures Valid(t)
      ensures forall n :: n in analysis ==> analysis[n] == Labelled(old(analysis), n, Joined(t, sw, n), tier)
      ensures found <==> exists n :: n in analysis && old(analysis)[n] == 0 && Joined(t, sw, n)
    {
      found := false;
      var peers := t.peers[sw];
      for j := 0 to |peers|
        invariant Valid(t)
        invariant forall n :: n in analysis ==> analysis[n] == Labelled(old(analysis), n, Some(n) in peers[..j], tier)
        invariant found <==> exists n :: n in analysis && old(analysis)[n] == 0 && Some(n) in peers[..j]
      {
        if peers[j].Some? && analysis[peers[j].value] == 0 {
          analysis := analysis[peers[j].value := tier % LABELS];
          found := true;
        }
      }
      assert peers[..|peers|] == peers;
    }

    /** One round: labels everything reached from the switches labelled tier - 1. */
    method Round(t: Topology, tier: nat) returns (found: bool)
      requires Valid(t) && 2 <= tier
      modifies this
      ensures Valid(t) && Spread(t, t.switches, old(analysis), analysis, tier, found)
    {
      hide Reached, Joined;
      found := false;
      ghost var a := analysis;
      SpreadNone(t, a, tier);
      for i := 0 to |t.switches|
        invariant Valid(t) && Spread(t, t.switches[..i], a, analysis, tier, found)
      {
        ghost var b, before := analysis, found;
        var sw := t.switches[i];
        if analysis[sw] == tier - 1 {
          var more := LabelPeers(t, sw, tier);
          found := found || more;
        }
        SpreadStep(t, a, b, analysis, tier, i, before, found);
      }
      assert t.switches[..|t.switches|] == t.switches;
    }

    /** Labels every switch with 1 plus its distance from the FIs, as far as the
        field can hold it; switches further out, or not reachable, keep 0. */
    method DetermineSwitchTiers(t: Topology)
      requires Valid(t) && forall n :: n in analysis ==> analysis[n] == 0
      modifies this
      ensures Valid(t) && Exact(t, analysis, LABELS - 2)
    {
      LabelAttached(t);
      FirstTier(t, analysis);
      hide Spread, Exact;
      var tier, found := 2, true;
      while found
        invariant Valid(t) && 2 <= tier
        invariant found ==> tier <= LABELS + 1 && Progress(t, analysis, tier)
        invariant !found ==> Exact(t, analysis, LABELS - 2)
        decreases if found then LABELS + 2 - tier else 0
      {
        ghost var a := analysis;
        found := Round(t, tier);
        RoundProgress(t, a, analysis, tier, found);
        tier := tier + 1;
      }
    }
  }

  /** b are the labels a after a round over the given switches. */
  ghost predicate Spread(t: Topology, switches: seq<NodeId>, a: map<NodeId, nat>, b: map<NodeId, nat>, tier: nat, found: bool) {
    && b.Keys == a.Keys
    && (forall n :: n in a ==> b[n] == Labelled(a, n, Reached(t, switches, a, tier, n), tier))
    && (found <==> exists n :: n in a && a[n] == 0 && Reached(t, switches, a, tier, n))
  }

  lemma SpreadNone(t: Topology, a: map<NodeId, nat>, tier: nat)
    ensures Spread(t, [], a, a, tier, false)
  {
  }

  lemma SpreadStep(t: Topology, a: map<NodeId, nat>, b: map<NodeId, nat>, c: map<NodeId, nat>, tier: nat, i: nat, before: bool, after: bool)
    requires i < |t.switches| && t.switches[i] in a && 2 <= tier && c.Keys == a.Keys
    requires Spread(t, t.switches[..i], a, b, tier, before)
    requires if b[t.switches[i]] == tier - 1
             then && (forall n :: n in a ==> c[n] == Labelled(b, n, Joined(t, t.switches[i], n), tier))
                  && (after <==> before || exists n :: n in a && b[n] == 0 && Joined(t, t.switches[i], n))
             else c == b && after == before
    ensures Spread(t, t.switches[..i + 1], a, c, tier, after)
  {
    var sw := t.switches[i];
    assert b[sw] == tier - 1 <==> a[sw] == tier - 1;
    forall n: NodeId
      ensures Reached(t, t.switches[..i + 1], a, tier, n) <==>
                Reached(t, t.switches[..i], a, tier, n) || (a[sw] == tier - 1 && Joined(t, sw, n))
    {
      ReachedStep(t, a, tier, i, n);
    }
    hide Reached, Joined;
  }

  ghost predicate AttachedTo(t: Topology, fis: seq<NodeId>, s: NodeId) {
    exists n :: n in fis && n in t.peers && Some(s) in t.peers[n]
  }

  lemma AttachedStep(t: Topology, i: nat, s: NodeId)
    requires i < |t.fis| && t.fis[i] in t.peers
    ensures AttachedTo(t, t.fis[..i + 1], s) <==> AttachedTo(t, t.fis[..i], s) || Some(s) in t.peers[t.fis[i]]
  {
    assert t.fis[..i + 1] == t.fis[..i] + [t.fis[i]];
  }

  /** Before round tier, the labels below tier have been given out and are right. */
  ghost predicate Progress(t: Topology, a: map<NodeId, nat>, tier: nat)
    requires 2 <= tier
  {
    && Exact(t, a, if tier <= LABELS then tier - 2 else LABELS - 2)
    && (forall s :: s in t.switches && s in a ==> a[s] < tier && a[s] < LABELS)
    && (forall s :: s in t.switches ==> s in a)
  }

  lemma FirstTier(t: Topology, a: map<NodeId, nat>)
    requires ValidTopology(t) && a.Keys == t.peers.Keys
    requires forall n :: n in a ==> a[n] == if n in t.switches && Attached(t, n) then 1 else 0
    ensures Progress(t, a, 2)
  {
    forall s, k: nat | s in t.switches && s in a && k <= 0
      ensures 0 < a[s] <= k + 1 <==> Near(t, s, k)
    {
      NearStart(t, s);
    }
  }

  /** The switches a round reaches are those one link further out. */
  lemma ReachedIsNear(t: Topology, a: map<NodeId, nat>, tier: nat, s: NodeId)
    requires 2 <= tier <= LABELS && Progress(t, a, tier) && s in t.switches
    ensures a[s] > 0 <==> Near(t, s, tier - 2)
    ensures Near(t, s, tier - 1) <==> a[s] > 0 || Reached(t, t.switches, a, tier, s)
  {
    assert 0 < a[s] <= tier - 2 + 1 <==> Near(t, s, tier - 2);
    NearStep(t, s, tier - 2);
    if Reached(t, t.switches, a, tier, s) {
      var r :| r in t.switches && r in a && a[r] == tier - 1 && Joined(t, r, s);
      assert Near(t, r, tier - 2);
      assert Below(t, s, tier - 2);
    }
    if Below(t, s, tier - 2) {
      var r :| r in t.switches && Near(t, r, tier - 2) && Joined(t, r, s);
      assert 0 < a[r] <= tier - 1;
      if a[r] < tier - 1 {
        assert Near(t, r, tier - 3);
        NearStep(t, s, tier - 3);
        assert Below(t, s, tier - 3);
      }
    }
  }

  lemma RoundProgress(t: Topology, a: map<NodeId, nat>, b: map<NodeId, nat>, tier: nat, found: bool)
    requires 2 <= tier <= LABELS + 1 && Progress(t, a, tier) && Spread(t, t.switches, a, b, tier, found)
    ensures found ==> tier <= LABELS && Progress(t, b, tier + 1)
    ensures !found ==> Exact(t, b, LABELS - 2)
  {
    if tier == LABELS + 1 {
      assert forall m: NodeId :: !Reached(t, t.switches, a, tier, m);
      assert a == b;
    } else {
      if found {
        RoundGrows(t, a, b, tier, found);
      } else {
        RoundStops(t, a, b, tier);
      }
    }
  }

  lemma RoundGrows(t: Topology, a: map<NodeId, nat>, b: map<NodeId, nat>, tier: nat, found: bool)
    requires 2 <= tier <= LABELS && Progress(t, a, tier) && Spread(t, t.switches, a, b, tier, found)
    ensures Progress(t, b, tier + 1)
  {
    hide Near, Reached;
    forall s, k: nat | s in t.switches && s in b && k <= (if tier + 1 <= LABELS then tier - 1 else LABELS - 2)
      ensures 0 < b[s] <= k + 1 <==> Near(t, s, k)
    {
      ReachedIsNear(t, a, tier, s);
      if k <= tier - 2 {
        assert 0 < a[s] <= k + 1 <==> Near(t, s, k);
      }
    }
  }

  lemma RoundStops(t: Topology, a: map<NodeId, nat>, b: map<NodeId, nat>, tier: nat)
    requires 2 <= tier <= LABELS && Progress(t, a, tier) && Spread(t, t.switches, a, b, tier, false)
    ensures Exact(t, b, LABELS - 2)
  {
    hide Near, Reached;
    assert forall n :: n in a ==> b[n] == a[n];
    var j := tier - 2;
    forall x: NodeId
      ensures Settles(t, x, j)
    {
      if x in t.switches {
        ReachedIsNear(t, a, tier, x);
      } else {
        NearIsSwitch(t, x, tier - 1);
      }
    }
    forall s, k: nat | s in t.switches && s in b && k <= LABELS - 2
      ensures 0 < b[s] <= k + 1 <==> Near(t, s, k)
    {
      if k <= tier - 2 {
        assert 0 < a[s] <= k + 1 <==> Near(t, s, k);
      } else {
        NearFixpoint(t, s, tier - 2, k);
        ReachedIsNear(t, a, tier, s);
      }
    }
  }

  lemma NearIsSwitch(t: Topology, s: NodeId, k: nat)
    ensures Near(t, s, k) ==> s in t.switches
  {
  }

  // ---- what the labels mean ----

  ghost predicate Distance(t: Topology, s: NodeId, k: nat) {
    Near(t, s, k) && (k > 0 ==> !Near(t, s, k - 1))
  }

  /** A switch at distance k is labelled k + 1 if that fits the field, else 0. */
  lemma LabelOfDistance(t: Topology, a: map<NodeId, nat>, s: NodeId, k: nat)
    requires Exact(t, a, LABELS - 2) && s in t.switches && s in a && a[s] < LABELS && Distance(t, s, k)
    ensures a[s] == if k <= LABELS - 2 then k + 1 else 0
  {
    hide Near;
    if k <= LABELS - 2 {
      assert Near(t, s, k);
      if k > 0 {
        assert !Near(t, s, k - 1);
      }
    } else {
      NearMonotone(t, s, LABELS - 2, k - 1);
      assert !Near(t, s, LABELS - 2);
    }
  }

  /** Unreachable switches are labelled 0. */
  lemma LabelOfUnreachable(t: Topology, a: map<NodeId, nat>, s: NodeId)
    requires Exact(t, a, LABELS - 2) && s in t.switches && s in a && a[s] < LABELS && forall k: nat :: !Near(t, s, k)
    ensures a[s] == 0
  {
    assert !Near(t, s, LABELS - 2);
  }

  /** Label zero means unreachable exactly when no switch is more than 30 links out. */
  lemma ZeroMeansUnreachable(t: Topology, a: map<NodeId, nat>)
    requires Exact(t, a, LABELS - 2) && forall s :: s in t.switches ==> s in a && a[s] < LABELS
    ensures (forall s :: s in t.switches && a[s] == 0 ==> forall k: nat :: !Near(t, s, k))
            <==> !exists s :: s in t.switches && Distance(t, s, LABELS - 1)
  {
    hide Near;
    forall s | s in t.switches
      ensures a[s] == 0 <==> !Near(t, s, LABELS - 2)
    {
    }
    if s :| s in t.switches && Distance(t, s, LABELS - 1) {
      assert a[s] == 0 && Near(t, s, LABELS - 1);
    } else {
      var j: nat := LABELS - 2;
      forall x: NodeId
        ensures Settles(t, x, j)
      {
        NearIsSwitch(t, x, LABELS - 1);
        assert x in t.switches ==> !Distance(t, x, LABELS - 1);
      }
      forall s, k: nat | s in t.switches && a[s] == 0
        ensures !Near(t, s, k)
      {
        if k <= LABELS - 2 {
          NearMonotone(t, s, k, LABELS - 2);
        } else {
          NearFixpoint(t, s, LABELS - 2, k);
        }
      }
    }
  }

  /** A chain of 32 switches with one FI at its start. */
  function Chain(): Topology {
    Topology([LABELS], seq(LABELS, i => i),
             map n: nat | n <= LABELS :: ChainPeers(n))
  }

  /** Every node lists both its neighbours. */
  function ChainPeers(n: nat): seq<Option<NodeId>> {
    if n == LABELS then [Some(0)]
    else if n == 0 then [Some(LABELS), Some(1)]
    else if n < LABELS - 1 then [Some(n - 1), Some(n + 1)]
    else [Some(n - 1)]
  }

  /** Cables can be used both ways. */
  ghost predicate Symmetric(t: Topology) {
    forall n, m :: Joined(t, n, m) ==> Joined(t, m, n)
  }

  lemma ChainJoins(n: nat, m: nat)
    ensures Joined(Chain(), n, m) <==> n <= LABELS && Some(m) in ChainPeers(n)
    ensures Joined(Chain(), n, m) ==> m <= LABELS && Some(n) in ChainPeers(m)
  {
    if n <= LABELS && Some(m) in ChainPeers(n) {
      var peers := ChainPeers(n);
      assert peers[0] == Some(m) || (|peers| == 2 && peers[1] == Some(m));
      assert Chain().peers[n] == peers;
      var back := ChainPeers(m);
      assert back[0] == Some(n) || (|back| == 2 && back[1] == Some(n));
    }
  }

  lemma ChainIsFabric()
    ensures ValidTopology(Chain()) && Symmetric(Chain())
  {
    var t := Chain();
    assert forall i :: 0 <= i < LABELS ==> t.switches[i] == i;
    forall n, m | Joined(t, n, m)
      ensures Joined(t, m, n) && m in t.peers
    {
      ChainJoins(n, m);
      ChainJoins(m, n);
    }
    assert forall n, m :: n in t.peers && Some(m) in t.peers[n] ==> Joined(t, n, m);
  }

  lemma {:induction false} ChainClimb(p: seq<NodeId>, i: nat)
    requires IsClimb(Chain(), p) && i < |p|
    ensures p[i] <= i
  {
    var t := Chain();
    assert forall k :: 0 <= k < LABELS ==> t.switches[k] == k;
    assert p[i] in t.switches && p[i] < LABELS;
    if i == 0 {
      var n :| n in t.fis && n in t.peers && Some(p[0]) in t.peers[n];
      assert t.peers[n] == [Some(0)];
    } else {
      ChainClimb(p, i - 1);
      assert Joined(t, p[i - 1], p[i - 1 + 1]);
      ChainJoins(p[i - 1], p[i]);
    }
  }

  /** In that chain the last switch is 31 links out, one too many: its label is 0
      although it is reachable. */
  lemma DeepSwitchUnlabelled(a: map<NodeId, nat>)
    requires Exact(Chain(), a, LABELS - 2) && forall s :: s in Chain().switches ==> s in a && a[s] < LABELS
    ensures ValidTopology(Chain()) && Symmetric(Chain())
    ensures LABELS - 1 in a && a[LABELS - 1] == 0 && Distance(Chain(), LABELS - 1, LABELS - 1)
  {
    ChainIsFabric();
    var t := Chain();
    var p := seq(LABELS, i => i);
    ChainJoins(LABELS, 0);
    assert Attached(t, 0);
    forall i | 0 <= i < LABELS - 1
      ensures Joined(t, p[i], p[i + 1])
    {
      var peers := ChainPeers(i);
      assert peers[1] == Some(i + 1);
      ChainJoins(i, i + 1);
    }
    assert t.switches == p && forall i :: 0 <= i < LABELS ==> t.switches[i] == p[i] == i;
    assert IsClimb(t, p) && p[LABELS - 1] == LABELS - 1;
    if Near(t, LABELS - 1, LABELS - 2) {
      var q :| IsClimb(t, q) && q[|q| - 1] == LABELS - 1 && |q| <= LABELS - 1;
      ChainClimb(q, |q| - 1);
    }
    assert t.switches[LABELS - 1] == LABELS - 1;
    LabelOfDistance(t, a, LABELS - 1, LABELS - 1);
  }
}
