/** Building, pruning and splitting the dependency graph in place, and the
    deadlock verdict drawn from it. */
module CreditLoops {
  import opened Digraph
  import opened CreditGraph

  /** The dependencies of D that enter v. */
  ghost function Into<C(!new)>(D: set<(C, C)>, v: C): set<(C, C)> {
    set d | d in D && d.1 == v
  }

  /** The dependencies of D that leave v. */
  ghost function OutOf<C(!new)>(D: set<(C, C)>, v: C): set<(C, C)> {
    set d | d in D && d.0 == v
  }

  /** The loop over an arc list that buries one id and counts the hits. */
  method BuryLoop(list: seq<int>, id: int) returns (buried: seq<int>, hits: nat)
    requires id >= 0
    ensures buried == Bury(list, id) && hits == Occurs(list, id)
  {
    buried, hits := list, 0;
    for i := 0 to |list|
      invariant |buried| == |list| && hits == Occurs(list[..i], id)
      invariant forall j :: 0 <= j < |list| ==> buried[j] == if j < i && list[j] == id then TOMBSTONE else list[j]
    {
      assert list[..i + 1][..i] == list[..i];
      if list[i] == id {
        buried := buried[i := TOMBSTONE];
        hits := hits + 1;
      }
    }
    assert list[..|list|] == list;
  }

  /** A pruning step has nothing to do at the first n vertices. */
  ghost predicate Settled<C(!new)>(s: State<C>, n: nat)
    requires ValidArcs(s) && n <= |s.vertices|
  {
    forall w :: 0 <= w < n ==> (HasIn(Deps(s), s.vertices[w].conn) <==> HasOut(Deps(s), s.vertices[w].conn))
  }

  lemma SettledStep<C(!new)>(s: State<C>, v: nat)
    requires ValidArcs(s) && v < |s.vertices| && Settled(s, v)
    requires HasIn(Deps(s), s.vertices[v].conn) <==> HasOut(Deps(s), s.vertices[v].conn)
    ensures Settled(s, v + 1)
  {
  }

  lemma SettledIsBalanced<C(!new)>(s: State<C>)
    requires ValidState(s) && Settled(s, |s.vertices|)
    ensures Balanced(Deps(s))
  {
    forall c: C
      ensures HasIn(Deps(s), c) <==> HasOut(Deps(s), c)
    {
      if c in s.ids {
        assert s.vertices[s.ids[c]].conn == c;
      }
    }
  }

  /** The dependencies that a set of arcs of s stands for. */
  ghost function DepsOf<C>(s: State<C>, taken: set<Arc>): set<(C, C)>
    requires ValidArcs(s) && forall a :: a in taken ==> a in s.keys
  {
    set a | a in taken :: Dep(s, a)
  }

  lemma DepsOfAdd<C(!new)>(s: State<C>, taken: set<Arc>, a: Arc)
    requires ValidArcs(s) && a in s.keys && forall b :: b in taken ==> b in s.keys
    ensures DepsOf(s, taken + {a}) == DepsOf(s, taken) + {Dep(s, a)}
  {
  }

  /** The first i entries of the outbound list of v give the arcs taken and the
      vertices at their other ends. */
  ghost predicate TookOutbound<C>(s: State<C>, v: nat, i: nat, neighbors: seq<nat>, taken: set<Arc>)
    requires v < |s.vertices| && i <= |s.vertices[v].outbound|
  {
    && (forall a :: a in taken ==> a in s.keys && a.source == v)
    && (forall w :: w in neighbors <==> Arc(v, w) in taken)
    && (forall j :: 0 <= j < i && s.vertices[v].outbound[j] >= 0 ==>
          s.vertices[v].outbound[j] in s.arcs && s.arcs[s.vertices[v].outbound[j]] in taken)
  }

  lemma TookOutboundSkip<C(!new)>(s: State<C>, v: nat, i: nat, neighbors: seq<nat>, taken: set<Arc>)
    requires v < |s.vertices| && i < |s.vertices[v].outbound| && s.vertices[v].outbound[i] < 0 && TookOutbound(s, v, i, neighbors, taken)
    ensures TookOutbound(s, v, i + 1, neighbors, taken)
  {
  }

  lemma TookOutboundStep<C(!new)>(s: State<C>, v: nat, i: nat, neighbors: seq<nat>, taken: set<Arc>, a: Arc)
    requires v < |s.vertices| && i < |s.vertices[v].outbound| && TookOutbound(s, v, i, neighbors, taken)
    requires var id := s.vertices[v].outbound[i]; id in s.arcs && s.arcs[id] == a && a in s.keys && a.source == v
    ensures TookOutbound(s, v, i + 1, neighbors + [a.sink], taken + {a})
  {
    assert forall w :: Arc(v, w) == a <==> w == a.sink;
  }

  lemma AllOutboundTaken<C(!new)>(s: State<C>, v: nat, neighbors: seq<nat>, taken: set<Arc>)
    requires ValidState(s) && v < |s.vertices|
    requires TookOutbound(s, v, |s.vertices[v].outbound|, neighbors, taken)
    ensures forall w :: w in neighbors <==> Arc(v, w) in s.keys
    ensures DepsOf(s, taken) == OutOf(Deps(s), s.vertices[v].conn)
  {
    forall w | Arc(v, w) in s.keys
      ensures Arc(v, w) in taken
    {
      ArcIsListed(s, v, w);
    }
    forall d | d in OutOf(Deps(s), s.vertices[v].conn)
      ensures d in DepsOf(s, taken)
    {
      var a :| a in s.keys && d == Dep(s, a);
      assert a == Arc(v, a.sink);
    }
  }

  /** The first i entries of the inbound list of v give the arcs taken and the
      vertices at their other ends. */
  ghost predicate TookInbound<C>(s: State<C>, v: nat, i: nat, neighbors: seq<nat>, taken: set<Arc>)
    requires v < |s.vertices| && i <= |s.vertices[v].inbound|
  {
    && (forall a :: a in taken ==> a in s.keys && a.sink == v)
    && (forall w :: w in neighbors <==> Arc(w, v) in taken)
    && (forall j :: 0 <= j < i && s.vertices[v].inbound[j] >= 0 ==>
          s.vertices[v].inbound[j] in s.arcs && s.arcs[s.vertices[v].inbound[j]] in taken)
  }

  lemma TookInboundSkip<C(!new)>(s: State<C>, v: nat, i: nat, neighbors: seq<nat>, taken: set<Arc>)
    requires v < |s.vertices| && i < |s.vertices[v].inbound| && s.vertices[v].inbound[i] < 0 && TookInbound(s, v, i, neighbors, taken)
    ensures TookInbound(s, v, i + 1, neighbors, taken)
  {
  }

  lemma TookInboundStep<C(!new)>(s: State<C>, v: nat, i: nat, neighbors: seq<nat>, taken: set<Arc>, a: Arc)
    requires v < |s.vertices| && i < |s.vertices[v].inbound| && TookInbound(s, v, i, neighbors, taken)
    requires var id := s.vertices[v].inbound[i]; id in s.arcs && s.arcs[id] == a && a in s.keys && a.sink == v
    ensures TookInbound(s, v, i + 1, neighbors + [a.source], taken + {a})
  {
    assert forall w :: Arc(w, v) == a <==> w == a.source;
  }

  lemma AllInboundTaken<C(!new)>(s: State<C>, v: nat, neighbors: seq<nat>, taken: set<Arc>)
    requires ValidState(s) && v < |s.vertices|
    requires TookInbound(s, v, |s.vertices[v].inbound|, neighbors, taken)
    ensures forall w :: w in neighbors <==> Arc(w, v) in s.keys
    ensures DepsOf(s, taken) == Into(Deps(s), s.vertices[v].conn)
  {
    forall w | Arc(w, v) in s.keys
      ensures Arc(w, v) in taken
    {
      ArcIsListed(s, w, v);
    }
    forall d | d in Into(Deps(s), s.vertices[v].conn)
      ensures d in DepsOf(s, taken)
    {
      var a :| a in s.keys && d == Dep(s, a);
      assert a == Arc(a.source, v);
    }
  }

  class Graph<C(==, !new)> {
    var vertices: seq<Vertex<C>>
    var arcs: map<int, Arc>
    var keys: map<Arc, int>
    var ids: map<C, nat>
    var numArcs: int

    ghost function State(): State<C>
      reads this
    {
      CreditGraph.State(vertices, arcs, keys, ids, numArcs)
    }

    ghost predicate Valid()
      reads this
    {
      ValidState(State())
    }

    ghost function Deps(): set<(C, C)>
      requires Valid()
      reads this
    {
      CreditGraph.Deps(State())
    }

    constructor ()
      ensures Valid() && Growing(State()) && Deps() == {} && ids == map[] && numArcs == 0
    {
      vertices, arcs, keys, ids, numArcs := [], map[], map[], map[], 0;
    }

    method AddVertex(c: C) returns (id: nat)
      requires Valid() && Growing(State())
      modifies this
      ensures Valid() && Growing(State())
      ensures State() == if c in old(ids) then old(State()) else WithVertex(old(State()), c)
      ensures id < |vertices| && vertices[id].conn == c
      ensures Deps() == old(Deps()) && ids.Keys == old(ids.Keys) + {c} && numArcs == old(numArcs)
      ensures forall i :: 0 <= i < |old(vertices)| ==> i < |vertices| && vertices[i].conn == old(vertices[i].conn)
    {
      if c in ids {
        id := ids[c];
      } else {
        WithVertexKeeps(State(), c);
        id := |vertices|;
        vertices := vertices + [Vertex(c, 0, [], 0, [], 0)];
        ids := ids[c := id];
      }
    }

    /** Returns -1 for a self-loop or an unknown end, else the id of the arc. */
    method AddArc(source: nat, sink: nat) returns (id: int)
      requires Valid() && Growing(State())
      modifies this
      ensures Valid() && Growing(State())
      ensures id == -1 <==> source == sink || source >= |old(vertices)| || sink >= |old(vertices)|
      ensures id == -1 ==> State() == old(State())
      ensures id != -1 ==> Arc(source, sink) in keys && keys[Arc(source, sink)] == id
      ensures id != -1 ==> Deps() == old(Deps()) + {old((vertices[source].conn, vertices[sink].conn))}
      ensures id != -1 && Arc(source, sink) in old(keys) ==> State() == old(State())
      ensures id != -1 && Arc(source, sink) !in old(keys) ==> State() == WithArc(old(State()), source, sink)
      ensures ids == old(ids) && |vertices| == |old(vertices)|
      ensures forall i :: 0 <= i < |vertices| ==> vertices[i].conn == old(vertices[i].conn)
    {
      if source == sink || source >= |vertices| || sink >= |vertices| {
        id := -1;
      } else if Arc(source, sink) in keys {
        id := keys[Arc(source, sink)];
        DepsIff(State(), source, sink);
      } else {
        WithArcKeeps(State(), source, sink);
        id := |arcs|;
        arcs := arcs[id := Arc(source, sink)];
        keys := keys[Arc(source, sink) := id];
        vertices := vertices[source := LinkOut(vertices[source], id)];
        vertices := vertices[sink := LinkIn(vertices[sink], id)];
        numArcs := numArcs + 1;
      }
    }

    /** Adds the vertex of c, if new, and an arc to it. */
    method LinkTo(newId: nat, c: C)
      requires Valid() && Growing(State())
      requires newId < |vertices| && vertices[newId].conn != c
      modifies this
      ensures Valid() && Growing(State())
      ensures newId < |vertices| && vertices[newId].conn == old(vertices[newId].conn)
      ensures Deps() == old(Deps()) + {(vertices[newId].conn, c)}
      ensures ids.Keys == old(ids.Keys) + {c}
    {
      var newOther := AddVertex(c);
      var newArc := AddArc(newId, newOther);
      assert newArc != -1;
    }

    /** Adds the vertex of c, if new, and an arc from it. */
    method LinkFrom(newId: nat, c: C)
      requires Valid() && Growing(State())
      requires newId < |vertices| && vertices[newId].conn != c
      modifies this
      ensures Valid() && Growing(State())
      ensures newId < |vertices| && vertices[newId].conn == old(vertices[newId].conn)
      ensures Deps() == old(Deps()) + {(c, vertices[newId].conn)}
      ensures ids.Keys == old(ids.Keys) + {c}
    {
      var newOther := AddVertex(c);
      var newArc := AddArc(newOther, newId);
      assert newArc != -1;
    }

    /** found is false exactly where the program gives up and exits. */
    method DelArc(arcId: int) returns (found: bool)
      requires Valid()
      modifies this
      ensures Valid() && Thinned(old(State()), State())
      ensures found <==> arcId < 0 || arcId in old(arcs)
      ensures !found || arcId < 0 ==> State() == old(State())
      ensures found && arcId >= 0 ==> State() == WithoutArc(old(State()), arcId)
      ensures found && arcId >= 0 ==> Deps() == old(Deps()) - {old(Dep(State(), arcs[arcId]))}
      ensures found && arcId >= 0 ==> numArcs == old(numArcs) - 1
    {
      hide ValidVertex, ValidIds, Thinned, Fewer, Occurs, Bury;
      ThinnedRefl(State());
      if arcId < 0 {
        return true;
      }
      if arcId !in arcs {
        return false;
      }
      ghost var s := State();
      var a := arcs[arcId];
      assert ProperArc(s, a);
      arcs := arcs - {arcId};
      keys := keys - {a};
      var x := vertices[a.source];
      var list, hits := BuryLoop(x.outbound, arcId);
      vertices := vertices[a.source := x.(outbound := list, refCount := x.refCount - hits, outInuse := x.outInuse - hits)];
      x := vertices[a.sink];
      list, hits := BuryLoop(x.inbound, arcId);
      vertices := vertices[a.sink := x.(inbound := list, refCount := x.refCount - hits, inInuse := x.inInuse - hits)];
      numArcs := numArcs - 1;
      assert State() == WithoutArc(s, arcId);
      WithoutArcKeeps(s, arcId);
      return true;
    }

    /** Deletes the arc named by entry i of the inbound list of v, if it is live. */
    method DelInboundEntry(v: nat, i: nat) returns (hit: nat)
      requires Valid() && v < |vertices| && i < |vertices[v].inbound|
      modifies this
      ensures Valid() && Thinned(old(State()), State())
      ensures vertices[v].inbound[i] < 0
      ensures Deps() <= old(Deps()) && forall d :: d in old(Deps()) - Deps() ==> d.1 == vertices[v].conn
      ensures numArcs == old(numArcs) - hit
      ensures hit == 0 ==> State() == old(State())
    {
      hide ValidVertex, ValidIds, Occurs;
      hit := 0;
      if vertices[v].inbound[i] >= 0 {
        ListedArcExists(State(), v, i);
        var found := DelArc(vertices[v].inbound[i]);
        assert found;
        hit := 1;
      } else {
        assert Thinned(State(), State());
      }
    }

    /** Deletes every live entry of the inbound list of v, one arc at a time. */
    method DelInbound(v: nat) returns (deleted: nat)
      requires Valid() && v < |vertices|
      modifies this
      ensures Valid() && Thinned(old(State()), State())
      ensures Deps() == old(Deps()) - Into(old(Deps()), vertices[v].conn)
      ensures numArcs == old(numArcs) - deleted
      ensures deleted == 0 ==> State() == old(State())
    {
      hide ValidVertex, ValidIds, ValidArcs;
      deleted := 0;
      var i := 0;
      while i < |vertices[v].inbound|
        invariant Valid() && Thinned(old(State()), State())
        invariant i <= |vertices[v].inbound| && forall j :: 0 <= j < i ==> vertices[v].inbound[j] < 0
        invariant Deps() <= old(Deps()) && forall d :: d in old(Deps()) - Deps() ==> d.1 == vertices[v].conn
        invariant numArcs == old(numArcs) - deleted
        invariant deleted == 0 ==> State() == old(State())
        decreases |vertices[v].inbound| - i
      {
        ghost var s := State();
        var hit := DelInboundEntry(v, i);
        ThinnedTrans(old(State()), s, State());
        deleted := deleted + hit;
        i := i + 1;
      }
      BuriedLists(State(), v);
      assert forall d :: d in Deps() ==> (d.0, d.1) in Deps();
    }

    /** Deletes the arc named by entry i of the outbound list of v, if it is live. */
    method DelOutboundEntry(v: nat, i: nat) returns (hit: nat)
      requires Valid() && v < |vertices| && i < |vertices[v].outbound|
      modifies this
      ensures Valid() && Thinned(old(State()), State())
      ensures vertices[v].outbound[i] < 0
      ensures Deps() <= old(Deps()) && forall d :: d in old(Deps()) - Deps() ==> d.0 == vertices[v].conn
      ensures numArcs == old(numArcs) - hit
      ensures hit == 0 ==> State() == old(State())
    {
      hide ValidVertex, ValidIds, Occurs;
      hit := 0;
      if vertices[v].outbound[i] >= 0 {
        ListedArcExists(State(), v, i);
        var found := DelArc(vertices[v].outbound[i]);
        assert found;
        hit := 1;
      } else {
        assert Thinned(State(), State());
      }
    }

    /** Deletes every live entry of the outbound list of v, one arc at a time. */
    method DelOutbound(v: nat) returns (deleted: nat)
      requires Valid() && v < |vertices|
      modifies this
      ensures Valid() && Thinned(old(State()), State())
      ensures Deps() == old(Deps()) - OutOf(old(Deps()), vertices[v].conn)
      ensures numArcs == old(numArcs) - deleted
      ensures deleted == 0 ==> State() == old(State())
    {
      hide ValidVertex, ValidIds, ValidArcs;
      deleted := 0;
      var i := 0;
      while i < |vertices[v].outbound|
        invariant Valid() && Thinned(old(State()), State())
        invariant i <= |vertices[v].outbound| && forall j :: 0 <= j < i ==> vertices[v].outbound[j] < 0
        invariant Deps() <= old(Deps()) && forall d :: d in old(Deps()) - Deps() ==> d.0 == vertices[v].conn
        invariant numArcs == old(numArcs) - deleted
        invariant deleted == 0 ==> State() == old(State())
        decreases |vertices[v].outbound| - i
      {
        ghost var s := State();
        var hit := DelOutboundEntry(v, i);
        ThinnedTrans(old(State()), s, State());
        deleted := deleted + hit;
        i := i + 1;
      }
      BuriedLists(State(), v);
      assert forall d :: d in Deps() ==> (d.0, d.1) in Deps();
    }

    /** One vertex of a pruning round: a pure sink loses its inbound arcs, a pure
        source its outbound ones.  A is any relation whose balanced parts the
        graph still holds; it holds them afterwards. */
    method PruneVertex(v: nat, ghost A: set<(C, C)>) returns (progress: nat)
      requires Valid() && v < |vertices| && CoversBalanced(Deps(), A)
      modifies this
      ensures Valid() && Thinned(old(State()), State())
      ensures Deps() <= old(Deps()) && CoversBalanced(Deps(), A)
      ensures numArcs == old(numArcs) - progress
      ensures progress == 0 ==> State() == old(State())
      ensures progress == 0 ==> (HasIn(Deps(), vertices[v].conn) <==> HasOut(Deps(), vertices[v].conn))
    {
      progress := 0;
      assert Thinned(State(), State());
      CountersDecide(State(), v);
      if vertices[v].refCount != 0 {
        ghost var s, K := State(), Deps();
        if vertices[v].outInuse == 0 {
          progress := DelInbound(v);
          PruneCovers(K, Deps(), A, vertices[v].conn);
        }
        ghost var s', K' := State(), Deps();
        CountersDecide(s', v);
        if vertices[v].inInuse == 0 {
          var n := DelOutbound(v);
          progress := progress + n;
          PruneCovers(K', Deps(), A, vertices[v].conn);
          ThinnedTrans(s, s', State());
        }
      }
    }

    /** One sweep over all vertices. */
    method PruneRound(ghost A: set<(C, C)>) returns (progress: nat)
      requires Valid() && CoversBalanced(Deps(), A)
      modifies this
      ensures Valid() && Thinned(old(State()), State())
      ensures Deps() <= old(Deps()) && CoversBalanced(Deps(), A)
      ensures numArcs == old(numArcs) - progress
      ensures progress == 0 ==> Balanced(Deps())
    {
      progress := 0;
      var v := 0;
      assert Thinned(State(), State());
      while v < |vertices|
        invariant Valid() && Thinned(old(State()), State())
        invariant v <= |vertices| && Deps() <= old(Deps()) && CoversBalanced(Deps(), A)
        invariant numArcs == old(numArcs) - progress
        invariant progress == 0 ==> Settled(State(), v)
        decreases |vertices| - v
      {
        ghost var s := State();
        var n := PruneVertex(v, A);
        ThinnedTrans(old(State()), s, State());
        progress := progress + n;
        if progress == 0 {
          assert State() == s;
          SettledStep(s, v);
        }
        v := v + 1;
      }
      if progress == 0 {
        SettledIsBalanced(State());
      }
    }

    /** Sweeps until a round deletes nothing: what is left is the greatest part
        of the old graph in which every vertex has both an in-arc and an out-arc. */
    method Prune()
      requires Valid()
      modifies this
      ensures Valid() && Thinned(old(State()), State())
      ensures IsCore(Deps(), old(Deps()))
    {
      var progress := 1;
      assert Thinned(State(), State());
      while progress != 0
        invariant Valid() && Thinned(old(State()), State())
        invariant progress >= 0 && Deps() <= old(Deps()) && CoversBalanced(Deps(), old(Deps()))
        invariant progress == 0 ==> Balanced(Deps())
        decreases |arcs|, progress
      {
        ghost var s := State();
        progress := PruneRound(old(Deps()));
        ThinnedTrans(old(State()), s, State());
      }
    }
  }

  /** State of the loop that copies the outbound arcs of v of g, entries before i
      done, into ng, where v is newId and the dependencies D were there before. */
  ghost predicate CopyingOutbound<C(!new)>(g: Graph<C>, ng: Graph<C>, v: nat, newId: nat, i: nat,
                                             neighbors: seq<nat>, taken: set<Arc>, D: set<(C, C)>)
    reads g, ng
  {
    && g != ng && g.Valid() && ng.Valid() && Growing(ng.State())
    && v < |g.vertices| && i <= |g.vertices[v].outbound|
    && newId < |ng.vertices| && ng.vertices[newId].conn == g.vertices[v].conn
    && TookOutbound(g.State(), v, i, neighbors, taken)
    && ng.Deps() == D + DepsOf(g.State(), taken)
  }

  /** Copies the arc named by entry i of the outbound list of v into the new graph
      and notes the vertex at its other end. */
  method CopyOutboundEntry<C(==, !new)>(g: Graph<C>, ng: Graph<C>, v: nat, newId: nat, i: nat,
                                      neighbors: seq<nat>, ghost taken: set<Arc>, ghost D: set<(C, C)>)
    returns (neighbors': seq<nat>, ghost taken': set<Arc>)
    requires CopyingOutbound(g, ng, v, newId, i, neighbors, taken, D) && i < |g.vertices[v].outbound|
    modifies ng
    ensures CopyingOutbound(g, ng, v, newId, i + 1, neighbors', taken', D)
  {
    hide ValidVertex, TookOutbound, DepsOf;
    var id := g.vertices[v].outbound[i];
    neighbors', taken' := neighbors, taken;
    ListedArcExists(g.State(), v, i);
    if id < 0 {
      TookOutboundSkip(g.State(), v, i, neighbors, taken);
    }
    if id >= 0 && id in g.arcs {
      ghost var s := g.State();
      var a := g.arcs[id];
      neighbors', taken' := neighbors + [a.sink], taken + {a};
      TookOutboundStep(s, v, i, neighbors, taken, a);
      DepsOfAdd(s, taken, a);
      DepsIff(s, a.source, a.sink);
      ng.LinkTo(newId, g.vertices[a.sink].conn);
    }
  }

  method CopyOutbound<C(==, !new)>(g: Graph<C>, ng: Graph<C>, v: nat, newId: nat) returns (neighbors: seq<nat>)
    requires g != ng && g.Valid() && ng.Valid() && Growing(ng.State()) && v < |g.vertices|
    requires newId < |ng.vertices| && ng.vertices[newId].conn == g.vertices[v].conn
    modifies ng
    ensures ng.Valid() && Growing(ng.State())
    ensures newId < |ng.vertices| && ng.vertices[newId].conn == g.vertices[v].conn
    ensures ng.Deps() == old(ng.Deps()) + OutOf(g.Deps(), g.vertices[v].conn)
    ensures forall w :: w in neighbors <==> Arc(v, w) in g.keys
  {
    neighbors := [];
    ghost var D, taken := ng.Deps(), {};
    assert DepsOf(g.State(), taken) == {};
    var i := 0;
    while i < |g.vertices[v].outbound|
      invariant CopyingOutbound(g, ng, v, newId, i, neighbors, taken, D)
    {
      neighbors, taken := CopyOutboundEntry(g, ng, v, newId, i, neighbors, taken, D);
      i := i + 1;
    }
    AllOutboundTaken(g.State(), v, neighbors, taken);
  }

  /** State of the loop that copies the inbound arcs of v of g, entries before i
      done, into ng, where v is newId and the dependencies D were there before. */
  ghost predicate CopyingInbound<C(!new)>(g: Graph<C>, ng: Graph<C>, v: nat, newId: nat, i: nat,
                                             neighbors: seq<nat>, taken: set<Arc>, D: set<(C, C)>)
    reads g, ng
  {
    && g != ng && g.Valid() && ng.Valid() && Growing(ng.State())
    && v < |g.vertices| && i <= |g.vertices[v].inbound|
    && newId < |ng.vertices| && ng.vertices[newId].conn == g.vertices[v].conn
    && TookInbound(g.State(), v, i, neighbors, taken)
    && ng.Deps() == D + DepsOf(g.State(), taken)
  }

  /** Copies the arc named by entry i of the inbound list of v into the new graph
      and notes the vertex at its other end. */
  method CopyInboundEntry<C(==, !new)>(g: Graph<C>, ng: Graph<C>, v: nat, newId: nat, i: nat,
                                      neighbors: seq<nat>, ghost taken: set<Arc>, ghost D: set<(C, C)>)
    returns (neighbors': seq<nat>, ghost taken': set<Arc>)
    requires CopyingInbound(g, ng, v, newId, i, neighbors, taken, D) && i < |g.vertices[v].inbound|
    modifies ng
    ensures CopyingInbound(g, ng, v, newId, i + 1, neighbors', taken', D)
  {
    hide ValidVertex, TookInbound, DepsOf;
    var id := g.vertices[v].inbound[i];
    neighbors', taken' := neighbors, taken;
    ListedArcExists(g.State(), v, i);
    if id < 0 {
      TookInboundSkip(g.State(), v, i, neighbors, taken);
    }
    if id >= 0 && id in g.arcs {
      ghost var s := g.State();
      var a := g.arcs[id];
      neighbors', taken' := neighbors + [a.source], taken + {a};
      TookInboundStep(s, v, i, neighbors, taken, a);
      DepsOfAdd(s, taken, a);
      DepsIff(s, a.source, a.sink);
      ng.LinkFrom(newId, g.vertices[a.source].conn);
    }
  }

  method CopyInbound<C(==, !new)>(g: Graph<C>, ng: Graph<C>, v: nat, newId: nat) returns (neighbors: seq<nat>)
    requires g != ng && g.Valid() && ng.Valid() && Growing(ng.State()) && v < |g.vertices|
    requires newId < |ng.vertices| && ng.vertices[newId].conn == g.vertices[v].conn
    modifies ng
    ensures ng.Valid() && Growing(ng.State())
    ensures newId < |ng.vertices| && ng.vertices[newId].conn == g.vertices[v].conn
    ensures ng.Deps() == old(ng.Deps()) + Into(g.Deps(), g.vertices[v].conn)
    ensures forall w :: w in neighbors <==> Arc(w, v) in g.keys
  {
    neighbors := [];
    ghost var D, taken := ng.Deps(), {};
    assert DepsOf(g.State(), taken) == {};
    var i := 0;
    while i < |g.vertices[v].inbound|
      invariant CopyingInbound(g, ng, v, newId, i, neighbors, taken, D)
    {
      neighbors, taken := CopyInboundEntry(g, ng, v, newId, i, neighbors, taken, D);
      i := i + 1;
    }
    AllInboundTaken(g.State(), v, neighbors, taken);
  }

  /** The neighbours noted while copying are the neighbours in the relation. */
  lemma NeighborsAreAdjacent<C(!new)>(s: State<C>, v: nat, neighbors: seq<nat>)
    requires ValidState(s) && v < |s.vertices|
    requires forall w :: w in neighbors <==> Arc(v, w) in s.keys || Arc(w, v) in s.keys
    ensures forall i :: 0 <= i < |neighbors| ==> neighbors[i] < |s.vertices|
    ensures forall w :: w in neighbors ==> w < |s.vertices| && Adjacent(Deps(s), s.vertices[v].conn, s.vertices[w].conn)
    ensures forall c :: Adjacent(Deps(s), s.vertices[v].conn, c) ==> exists w :: w in neighbors && s.vertices[w].conn == c
  {
    forall w | w in neighbors
      ensures w < |s.vertices| && Adjacent(Deps(s), s.vertices[v].conn, s.vertices[w].conn)
    {
      assert w < |s.vertices|;
      DepsIff(s, v, w);
      DepsIff(s, w, v);
    }
    forall c | Adjacent(Deps(s), s.vertices[v].conn, c)
      ensures exists w :: w in neighbors && s.vertices[w].conn == c
    {
      DepsIff(s, v, s.ids[c]);
      DepsIff(s, s.ids[c], v);
      assert s.ids[c] in neighbors;
    }
    assert forall i :: 0 <= i < |neighbors| ==> neighbors[i] in neighbors;
  }

  /** Moves the outbound arcs of v from g to ng, where v is newId. */
  method MoveOutbound<C(==, !new)>(g: Graph<C>, ng: Graph<C>, v: nat, newId: nat) returns (neighbors: seq<nat>, deleted: nat)
    requires g != ng && g.Valid() && ng.Valid() && Growing(ng.State()) && v < |g.vertices|
    requires newId < |ng.vertices| && ng.vertices[newId].conn == g.vertices[v].conn
    modifies g, ng
    ensures g.Valid() && Thinned(old(g.State()), g.State())
    ensures ng.Valid() && Growing(ng.State())
    ensures newId < |ng.vertices| && ng.vertices[newId].conn == g.vertices[v].conn
    ensures g.Deps() == old(g.Deps()) - OutOf(old(g.Deps()), g.vertices[v].conn)
    ensures ng.Deps() == old(ng.Deps()) + OutOf(old(g.Deps()), g.vertices[v].conn)
    ensures g.numArcs == old(g.numArcs) - deleted
    ensures deleted == 0 ==> g.State() == old(g.State())
    ensures forall w :: w in neighbors <==> Arc(v, w) in old(g.keys)
  {
    neighbors := CopyOutbound(g, ng, v, newId);
    deleted := g.DelOutbound(v);
  }

  /** Moves the inbound arcs of v from g to ng, where v is newId. */
  method MoveInbound<C(==, !new)>(g: Graph<C>, ng: Graph<C>, v: nat, newId: nat) returns (neighbors: seq<nat>, deleted: nat)
    requires g != ng && g.Valid() && ng.Valid() && Growing(ng.State()) && v < |g.vertices|
    requires newId < |ng.vertices| && ng.vertices[newId].conn == g.vertices[v].conn
    modifies g, ng
    ensures g.Valid() && Thinned(old(g.State()), g.State())
    ensures ng.Valid() && Growing(ng.State())
    ensures newId < |ng.vertices| && ng.vertices[newId].conn == g.vertices[v].conn
    ensures g.Deps() == old(g.Deps()) - Into(old(g.Deps()), g.vertices[v].conn)
    ensures ng.Deps() == old(ng.Deps()) + Into(old(g.Deps()), g.vertices[v].conn)
    ensures g.numArcs == old(g.numArcs) - deleted
    ensures deleted == 0 ==> g.State() == old(g.State())
    ensures forall w :: w in neighbors <==> Arc(w, v) in old(g.keys)
  {
    neighbors := CopyInbound(g, ng, v, newId);
    deleted := g.DelInbound(v);
  }

  /** Moves every arc at v from g to ng and returns the vertices at their other ends. */
  method MoveArcs<C(==, !new)>(g: Graph<C>, ng: Graph<C>, v: nat) returns (neighbors: seq<nat>)
    requires g != ng && g.Valid() && ng.Valid() && Growing(ng.State())
    requires v < |g.vertices| && g.vertices[v].refCount != 0
    modifies g, ng
    ensures g.Valid() && Thinned(old(g.State()), g.State()) && ng.Valid() && Growing(ng.State())
    ensures |g.arcs| < old(|g.arcs|)
    ensures g.Deps() == AwayFrom(old(g.Deps()), g.vertices[v].conn)
    ensures ng.Deps() == old(ng.Deps()) + (old(g.Deps()) - g.Deps())
    ensures forall w :: w in neighbors <==> Arc(v, w) in old(g.keys) || Arc(w, v) in old(g.keys)
  {
    hide ValidVertex, ValidIds, OutOf, Into, AwayFrom, ProperArc, Fewer;
    ghost var s, N, c := g.State(), ng.Deps(), g.vertices[v].conn;
    var newId := ng.AddVertex(g.vertices[v].conn);
    var sinks, n := MoveOutbound(g, ng, v, newId);
    ghost var s1 := g.State();
    ghost var N1 := N + OutOf(Deps(s), c);
    assert ng.Deps() == N1;
    var sources, m := MoveInbound(g, ng, v, newId);
    ghost var s2 := g.State();
    assert ng.Deps() == N1 + Into(Deps(s1), c);
    ThinnedTrans(s, s1, s2);
    MovedAll(s, s1, s2, v);
    JoinSets(N, OutOf(Deps(s), c), Into(Deps(s1), c));
    assert n + m > 0;
    neighbors := sinks + sources;
  }

  lemma JoinSets<T>(a: set<T>, b: set<T>, c: set<T>)
    ensures a + b + c == a + (b + c)
  {
  }

  lemma MovedSets<C(!new)>(D: set<(C, C)>, D1: set<(C, C)>, D2: set<(C, C)>, c: C)
    requires D1 == D - OutOf(D, c) && D2 == D1 - Into(D1, c)
    ensures D2 == AwayFrom(D, c) && OutOf(D, c) + Into(D1, c) == D - D2 && Isolated(D2, c)
  {
  }

  lemma MovedAll<C(!new)>(s: State<C>, s1: State<C>, s2: State<C>, v: nat)
    requires ValidState(s) && ValidState(s1) && ValidState(s2) && Thinned(s, s1) && Thinned(s1, s2)
    requires v < |s.vertices| && s.vertices[v].refCount != 0
    requires Deps(s1) == Deps(s) - OutOf(Deps(s), s.vertices[v].conn)
    requires Deps(s2) == Deps(s1) - Into(Deps(s1), s.vertices[v].conn)
    ensures Deps(s2) == AwayFrom(Deps(s), s.vertices[v].conn) && s2 != s
    ensures OutOf(Deps(s), s.vertices[v].conn) + Into(Deps(s1), s.vertices[v].conn) == Deps(s) - Deps(s2)
    ensures forall w: nat :: Arc(w, v) in s1.keys <==> Arc(w, v) in s.keys
  {
    CountersDecide(s, v);
    hide ValidState, Thinned;
    MovedSets(Deps(s), Deps(s1), Deps(s2), s.vertices[v].conn);
    forall w: nat
      ensures Arc(w, v) in s1.keys <==> Arc(w, v) in s.keys
    {
      StillInbound(s, s1, w, v);
    }
  }

  lemma StillInbound<C(!new)>(s: State<C>, s1: State<C>, w: nat, v: nat)
    requires ValidState(s) && ValidState(s1) && Thinned(s, s1) && v < |s.vertices|
    requires Deps(s1) == Deps(s) - OutOf(Deps(s), s.vertices[v].conn)
    ensures Arc(w, v) in s1.keys <==> Arc(w, v) in s.keys
  {
    if w < |s.vertices| {
      DepsIff(s, w, v);
      DepsIff(s1, w, v);
    }
  }

  /** Moves v's weakly connected component out of g, into ng. */
  method SplitOutVertex<C(==, !new)>(g: Graph<C>, ng: Graph<C>, v: nat)
    requires g != ng && g.Valid() && ng.Valid() && Growing(ng.State()) && v < |g.vertices|
    modifies g, ng
    ensures g.Valid() && Thinned(old(g.State()), g.State()) && ng.Valid() && Growing(ng.State())
    ensures |g.arcs| <= old(|g.arcs|)
    ensures SplitsOff(old(g.Deps()), g.Deps(), g.vertices[v].conn)
    ensures ng.Deps() == old(ng.Deps()) + (old(g.Deps()) - g.Deps())
    decreases |g.arcs|
  {
    hide ValidState, CreditGraph.Deps, Growing, Fewer, SplitsOff, Shed, Isolated, Adjacent;
    ghost var s, D, N := g.State(), g.Deps(), ng.Deps();
    var c := g.vertices[v].conn;
    CountersDecide(s, v);
    if g.vertices[v].refCount == 0 {
      SplitsOffNothing(D, c);
      ThinnedRefl(s);
    } else {
      var neighbors := MoveArcs(g, ng, v);
      ghost var D1 := g.Deps();
      ShedStart(D, D1, c);
      NeighborsAreAdjacent(s, v, neighbors);
      for i := 0 to |neighbors|
        invariant g.Valid() && Thinned(s, g.State()) && ng.Valid() && Growing(ng.State())
        invariant |g.arcs| < |s.arcs|
        invariant Shed(D, D1, g.Deps(), c)
        invariant forall j :: 0 <= j < i ==> Isolated(g.Deps(), s.vertices[neighbors[j]].conn)
        invariant ng.Deps() == N + (D - g.Deps())
      {
        ghost var t, D2 := g.State(), g.Deps();
        SplitOutVertex(g, ng, neighbors[i]);
        ShedStep(D, D1, D2, g.Deps(), c, s.vertices[neighbors[i]].conn);
        ThinnedTrans(s, t, g.State());
      }
      ShedDone(D, D1, g.Deps(), c);
    }
  }

  /** The ids of a set of arcs of s. */
  ghost function IdsOf<C>(s: State<C>, taken: set<Arc>): set<int>
    requires ValidArcs(s) && forall a :: a in taken ==> a in s.keys
  {
    set a | a in taken :: s.keys[a]
  }

  lemma {:induction false} IdsCount<C(!new)>(s: State<C>, taken: set<Arc>)
    requires ValidArcs(s) && forall a :: a in taken ==> a in s.keys
    ensures |IdsOf(s, taken)| == |taken|
  {
    if taken != {} {
      var a :| a in taken;
      var rest := taken - {a};
      IdsCount(s, rest);
      assert IdsOf(s, taken) == IdsOf(s, rest) + {s.keys[a]};
      assert forall b :: b in rest ==> s.keys[b] != s.keys[a];
    }
  }

  lemma NotRepeated<C(!new)>(s: State<C>, rest: set<Arc>, a: Arc)
    requires ValidArcs(s) && ValidIds(s) && a in s.keys && a !in rest && forall b :: b in rest ==> b in s.keys
    ensures Dep(s, a) !in DepsOf(s, rest)
  {
  }

  lemma {:induction false} DepsCount<C(!new)>(s: State<C>, taken: set<Arc>)
    requires ValidArcs(s) && ValidIds(s) && forall a :: a in taken ==> a in s.keys
    ensures |DepsOf(s, taken)| == |taken|
  {
    if taken != {} {
      var a :| a in taken;
      var rest := taken - {a};
      DepsCount(s, rest);
      assert taken == rest + {a};
      DepsOfAdd(s, rest, a);
      NotRepeated(s, rest, a);
    }
  }

  /** The arc counter counts the dependencies, each once. */
  lemma NumArcsCountsDeps<C(!new)>(s: State<C>)
    requires ValidState(s)
    ensures s.numArcs == |Deps(s)|
  {
    IdsCount(s, s.keys.Keys);
    DepsCount(s, s.keys.Keys);
    assert DepsOf(s, s.keys.Keys) == Deps(s);
    assert forall id :: id in s.arcs ==> s.arcs[id] in s.keys.Keys && s.keys[s.arcs[id]] == id;
    assert IdsOf(s, s.keys.Keys) == s.arcs.Keys;
  }

  /** The first vertex with arcs, or |vertices| if there is none. */
  method FirstLive<C(==, !new)>(g: Graph<C>) returns (v: nat)
    requires g.Valid()
    ensures v <= |g.vertices|
    ensures forall u :: 0 <= u < v ==> Isolated(g.Deps(), g.vertices[u].conn)
    ensures v < |g.vertices| ==> g.vertices[v].refCount != 0 && !Isolated(g.Deps(), g.vertices[v].conn)
    ensures v == |g.vertices| <==> g.Deps() == {}
  {
    v := 0;
    while v < |g.vertices| && g.vertices[v].refCount == 0
      invariant v <= |g.vertices|
      invariant forall u :: 0 <= u < v ==> Isolated(g.Deps(), g.vertices[u].conn)
    {
      CountersDecide(g.State(), v);
      v := v + 1;
    }
    if v < |g.vertices| {
      CountersDecide(g.State(), v);
    } else {
      AllIsolated(g.State());
    }
  }

  lemma AllIsolated<C(!new)>(s: State<C>)
    requires ValidState(s) && forall u :: 0 <= u < |s.vertices| ==> Isolated(Deps(s), s.vertices[u].conn)
    ensures Deps(s) == {}
  {
  }

  /** Splits off the component of the first live vertex, or returns null when no
      arc is left. */
  method Split<C(==, !new)>(g: Graph<C>) returns (ng: Graph?<C>, ghost root: nat)
    requires g.Valid()
    modifies g
    ensures g.Valid() && Thinned(old(g.State()), g.State())
    ensures ng == null <==> old(g.Deps()) == {}
    ensures ng == null ==> g.State() == old(g.State())
    ensures ng != null ==>
              && fresh(ng) && ng.Valid()
              && root < |g.vertices|
              && (forall u :: 0 <= u < root ==> Isolated(old(g.Deps()), g.vertices[u].conn))
              && SplitsOff(old(g.Deps()), g.Deps(), g.vertices[root].conn)
              && ng.Deps() == Component(old(g.Deps()), g.vertices[root].conn) == old(g.Deps()) - g.Deps()
              && ng.Deps() != {}
              && ng.numArcs == old(g.numArcs) - g.numArcs
  {
    hide ValidState, CreditGraph.Deps, Fewer, Component;
    var v := FirstLive(g);
    root := v;
    ThinnedRefl(g.State());
    if v == |g.vertices| {
      return null, root;
    }
    ghost var s, D := g.State(), g.Deps();
    ng := new Graph();
    SplitOutVertex(g, ng, v);
    SplitIsComponent(D, g.Deps(), s.vertices[v].conn);
    assert ng.Deps() == D - g.Deps();
    NumArcsCountsDeps(s);
    NumArcsCountsDeps(g.State());
    NumArcsCountsDeps(ng.State());
    assert D == g.Deps() + ng.Deps();
    assert D != g.Deps();
  }

  /** One turn of the reporting loop. */
  method NextPiece<C(==, !new)>(g: Graph<C>, ghost K: set<(C, C)>, ghost pieces: seq<set<(C, C)>>)
    returns (ng: Graph?<C>, ghost pieces': seq<set<(C, C)>>)
    requires g.Valid() && Balanced(g.Deps()) && Pieces(K, pieces, g.Deps())
    modifies g
    ensures g.Valid() && Balanced(g.Deps()) && Pieces(K, pieces', g.Deps())
    ensures ng == null <==> old(g.Deps()) == {}
    ensures ng == null ==> g.Deps() == {} && pieces' == pieces
    ensures ng != null ==> fresh(ng) && ng.Valid() && pieces' == pieces + [ng.Deps()]
    ensures ng != null ==> |g.Deps()| < |old(g.Deps())|
  {
    hide ValidState, CreditGraph.Deps, Thinned, Balanced, SplitsOff, Component, Pieces, ConnectedLoop, Apart;
    ghost var D, root := g.Deps(), 0;
    ng, root := Split(g);
    pieces' := pieces;
    if ng != null {
      SplitGivesLoop(D, g.Deps(), g.vertices[root].conn);
      PiecesStep(K, pieces, D, g.Deps());
      pieces' := pieces + [ng.Deps()];
      assert D == g.Deps() + ng.Deps();
    }
  }

  /** Prune, then split until nothing is left: the fabric is reported deadlock free
      exactly when its dependency relation has no directed cycle, and otherwise
      the pieces are connected loops that make up the pruned relation. */
  method Verdict<C(==, !new)>(g: Graph<C>) returns (deadlockFree: bool, count: nat, ghost pieces: seq<set<(C, C)>>)
    requires g.Valid()
    modifies g
    ensures g.Valid() && g.Deps() == {}
    ensures deadlockFree <==> !HasCycle(old(g.Deps()))
    ensures count == |pieces| && (deadlockFree <==> count == 0)
    ensures exists K :: IsCore(K, old(g.Deps())) && Pieces(K, pieces, {})
    ensures LoopCount(old(g.Deps()), count)
  {
    hide ValidState, CreditGraph.Deps, Thinned, Balanced, HasCycle, Pieces;
    ghost var D := g.Deps();
    g.Prune();
    ghost var K := g.Deps();
    CoreEmptyIffAcyclic(K, D);
    NoPieces(K);
    count := 0;
    var ng;
    ng, pieces := NextPiece(g, K, []);
    deadlockFree := ng == null;
    while ng != null
      invariant g.Valid() && Balanced(g.Deps()) && Pieces(K, pieces, g.Deps())
      invariant ng == null ==> g.Deps() == {}
      invariant |pieces| == count + (if ng == null then 0 else 1)
      invariant deadlockFree ==> ng == null && count == 0
      invariant !deadlockFree ==> |pieces| > 0
      decreases |g.Deps()|, ng != null
    {
      ng, pieces := NextPiece(g, K, pieces);
      count := count + 1;
    }
  }
}
