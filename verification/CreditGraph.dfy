/** The channel-dependency graph: vertices are connections, arcs are kept in two
    maps and, per vertex, in append-only lists whose deleted entries become -1. */
module CreditGraph {
  import opened Digraph

  const TOMBSTONE: int := -1

  datatype Arc = Arc(source: nat, sink: nat)

  datatype Vertex<C> = Vertex(
    conn: C,
    refCount: int,
    outbound: seq<int>,
    outInuse: int,
    inbound: seq<int>,
    inInuse: int)

  /** A snapshot of every field of a graph. */
  datatype State<C> = State(
    vertices: seq<Vertex<C>>,
    arcs: map<int, Arc>,
    keys: map<Arc, int>,
    ids: map<C, nat>,
    numArcs: int)

  // ---- tombstoned lists ----

  /** How many entries of s hold id. */
  function Occurs(s: seq<int>, id: int): nat {
    if s == [] then 0 else Occurs(s[..|s| - 1], id) + (if s[|s| - 1] == id then 1 else 0)
  }

  /** How many entries of s are live. */
  function Live(s: seq<int>): nat {
    if s == [] then 0 else Live(s[..|s| - 1]) + (if s[|s| - 1] >= 0 then 1 else 0)
  }

  /** s with every entry id replaced by a tombstone. */
  function Bury(s: seq<int>, id: int): (t: seq<int>)
    ensures |t| == |s|
    ensures forall i :: 0 <= i < |s| ==> t[i] == if s[i] == id then TOMBSTONE else s[i]
  {
    seq(|s|, i requires 0 <= i < |s| => if s[i] == id then TOMBSTONE else s[i])
  }

  lemma {:induction false} OccursIn(s: seq<int>, id: int)
    ensures Occurs(s, id) > 0 <==> id in s
  {
    if s != [] {
      OccursIn(s[..|s| - 1], id);
      assert s == s[..|s| - 1] + [s[|s| - 1]];
    }
  }

  lemma {:induction false} LiveIn(s: seq<int>)
    ensures Live(s) > 0 <==> exists i :: 0 <= i < |s| && s[i] >= 0
  {
    if s != [] {
      LiveIn(s[..|s| - 1]);
    }
  }

  lemma {:induction false} BuryCounts(s: seq<int>, id: int, j: int)
    requires id >= 0 && j >= 0
    ensures Occurs(Bury(s, id), j) == if j == id then 0 else Occurs(s, j)
    ensures Live(Bury(s, id)) == Live(s) - Occurs(s, id)
  {
    if s != [] {
      var r := s[..|s| - 1];
      BuryCounts(r, id, j);
      assert Bury(s, id)[..|s| - 1] == Bury(r, id);
    }
  }

  lemma AppendCounts(s: seq<int>, id: int, j: int)
    requires id >= 0
    ensures Occurs(s + [id], j) == Occurs(s, j) + (if j == id then 1 else 0)
    ensures Live(s + [id]) == Live(s) + 1
  {
    assert (s + [id])[..|s|] == s;
  }

  // ---- the representation invariant ----

  ghost predicate ProperArc<C>(s: State<C>, a: Arc) {
    a.source < |s.vertices| && a.sink < |s.vertices| && a.source != a.sink
  }

  /** The id map and the source/sink map hold the same arcs. */
  ghost predicate ValidArcs<C>(s: State<C>) {
    && (forall id :: id in s.arcs ==> id >= 0 && ProperArc(s, s.arcs[id]))
    && (forall id :: id in s.arcs ==> s.arcs[id] in s.keys && s.keys[s.arcs[id]] == id)
    && (forall a :: a in s.keys ==> ProperArc(s, a))
    && (forall a :: a in s.keys ==> s.keys[a] in s.arcs && s.arcs[s.keys[a]] == a)
    && s.numArcs == |s.arcs|
  }

  /** The live entries of the outbound list of v are its arcs, once each. */
  ghost predicate OutExact<C>(s: State<C>, v: nat)
    requires v < |s.vertices|
  {
    && (forall id :: id >= 0 ==> Occurs(s.vertices[v].outbound, id) == if id in s.arcs && s.arcs[id].source == v then 1 else 0)
    && s.vertices[v].outInuse == Live(s.vertices[v].outbound)
  }

  ghost predicate InExact<C>(s: State<C>, v: nat)
    requires v < |s.vertices|
  {
    && (forall id :: id >= 0 ==> Occurs(s.vertices[v].inbound, id) == if id in s.arcs && s.arcs[id].sink == v then 1 else 0)
    && s.vertices[v].inInuse == Live(s.vertices[v].inbound)
  }

  ghost predicate ValidVertex<C>(s: State<C>, v: nat)
    requires v < |s.vertices|
  {
    && OutExact(s, v)
    && InExact(s, v)
    && s.vertices[v].refCount == s.vertices[v].outInuse + s.vertices[v].inInuse
  }

  ghost predicate ValidIds<C>(s: State<C>) {
    && (forall v :: 0 <= v < |s.vertices| ==> s.vertices[v].conn in s.ids && s.ids[s.vertices[v].conn] == v)
    && (forall c :: c in s.ids ==> s.ids[c] < |s.vertices| && s.vertices[s.ids[c]].conn == c)
  }

  ghost predicate ValidState<C>(s: State<C>) {
    && ValidArcs(s)
    && ValidIds(s)
    && forall v :: 0 <= v < |s.vertices| ==> ValidVertex(s, v)
  }

  /** Arc ids are handed out as the current number of arcs, so they are unique
      as long as nothing has been deleted yet. */
  ghost predicate Growing<C>(s: State<C>) {
    forall id :: id in s.arcs ==> id < |s.arcs|
  }

  /** The dependency relation over connections that a graph stands for. */
  ghost function Deps<C>(s: State<C>): set<(C, C)>
    requires ValidArcs(s)
  {
    set a | a in s.keys :: Dep(s, a)
  }

  ghost function Dep<C>(s: State<C>, a: Arc): (C, C)
    requires ProperArc(s, a)
  {
    (s.vertices[a.source].conn, s.vertices[a.sink].conn)
  }

  lemma DepsIff<C(!new)>(s: State<C>, u: nat, v: nat)
    requires ValidArcs(s) && ValidIds(s) && u < |s.vertices| && v < |s.vertices|
    ensures (s.vertices[u].conn, s.vertices[v].conn) in Deps(s) <==> Arc(u, v) in s.keys
  {
    if Arc(u, v) in s.keys {
      assert Dep(s, Arc(u, v)) in Deps(s);
    }
  }

  /** The in-use counters decide whether a vertex has arcs at all. */
  lemma CountersDecide<C(!new)>(s: State<C>, v: nat)
    requires ValidState(s) && v < |s.vertices|
    ensures s.vertices[v].outInuse == 0 <==> !HasOut(Deps(s), s.vertices[v].conn)
    ensures s.vertices[v].inInuse == 0 <==> !HasIn(Deps(s), s.vertices[v].conn)
    ensures s.vertices[v].refCount == 0 <==> Isolated(Deps(s), s.vertices[v].conn)
  {
    var x := s.vertices[v];
    assert ValidVertex(s, v);
    LiveIn(x.outbound);
    LiveIn(x.inbound);
    if i :| 0 <= i < |x.outbound| && x.outbound[i] >= 0 {
      OccursIn(x.outbound, x.outbound[i]);
      var a := s.arcs[x.outbound[i]];
      DepsIff(s, a.source, a.sink);
    }
    if w :| (x.conn, w) in Deps(s) {
      DepsIff(s, v, s.ids[w]);
      OccursIn(x.outbound, s.keys[Arc(v, s.ids[w])]);
    }
    if i :| 0 <= i < |x.inbound| && x.inbound[i] >= 0 {
      OccursIn(x.inbound, x.inbound[i]);
      var a := s.arcs[x.inbound[i]];
      DepsIff(s, a.source, a.sink);
    }
    if u :| (u, x.conn) in Deps(s) {
      DepsIff(s, s.ids[u], v);
      OccursIn(x.inbound, s.keys[Arc(s.ids[u], v)]);
    }
  }

  /** A live list entry names an existing arc at the right end: the program's
      exit for an unknown arc id is out of reach from the lists. */
  lemma ListedArcExists<C>(s: State<C>, v: nat, i: nat)
    requires ValidState(s) && v < |s.vertices|
    ensures i < |s.vertices[v].outbound| && s.vertices[v].outbound[i] >= 0 ==>
              s.vertices[v].outbound[i] in s.arcs && s.arcs[s.vertices[v].outbound[i]].source == v
    ensures i < |s.vertices[v].inbound| && s.vertices[v].inbound[i] >= 0 ==>
              s.vertices[v].inbound[i] in s.arcs && s.arcs[s.vertices[v].inbound[i]].sink == v
  {
    assert ValidVertex(s, v);
    if i < |s.vertices[v].outbound| {
      OccursIn(s.vertices[v].outbound, s.vertices[v].outbound[i]);
    }
    if i < |s.vertices[v].inbound| {
      OccursIn(s.vertices[v].inbound, s.vertices[v].inbound[i]);
    }
  }

  /** Every arc is found in the lists of both its ends. */
  lemma ArcIsListed<C>(s: State<C>, u: nat, v: nat)
    requires ValidState(s) && Arc(u, v) in s.keys
    ensures u < |s.vertices| && s.keys[Arc(u, v)] in s.vertices[u].outbound
    ensures v < |s.vertices| && s.keys[Arc(u, v)] in s.vertices[v].inbound
  {
    var id := s.keys[Arc(u, v)];
    assert ValidVertex(s, u) && ValidVertex(s, v);
    OccursIn(s.vertices[u].outbound, id);
    OccursIn(s.vertices[v].inbound, id);
  }

  /** Once every entry of a list is buried, the vertex has no arcs on that side. */
  lemma BuriedLists<C(!new)>(s: State<C>, v: nat)
    requires ValidState(s) && v < |s.vertices|
    ensures (forall i :: 0 <= i < |s.vertices[v].outbound| ==> s.vertices[v].outbound[i] < 0) ==> !HasOut(Deps(s), s.vertices[v].conn)
    ensures (forall i :: 0 <= i < |s.vertices[v].inbound| ==> s.vertices[v].inbound[i] < 0) ==> !HasIn(Deps(s), s.vertices[v].conn)
  {
    LiveIn(s.vertices[v].outbound);
    LiveIn(s.vertices[v].inbound);
    assert ValidVertex(s, v);
    CountersDecide(s, v);
  }

  // ---- the three updates, as functions of the snapshot ----

  function WithVertex<C>(s: State<C>, c: C): State<C> {
    s.(vertices := s.vertices + [Vertex(c, 0, [], 0, [], 0)], ids := s.ids[c := |s.vertices|])
  }

  function LinkOut<C>(x: Vertex<C>, id: int): Vertex<C> {
    x.(outbound := x.outbound + [id], outInuse := x.outInuse + 1, refCount := x.refCount + 1)
  }

  function LinkIn<C>(x: Vertex<C>, id: int): Vertex<C> {
    x.(inbound := x.inbound + [id], inInuse := x.inInuse + 1, refCount := x.refCount + 1)
  }

  function UnlinkOut<C>(x: Vertex<C>, id: int): Vertex<C> {
    var n := Occurs(x.outbound, id);
    x.(outbound := Bury(x.outbound, id), outInuse := x.outInuse - n, refCount := x.refCount - n)
  }

  function UnlinkIn<C>(x: Vertex<C>, id: int): Vertex<C> {
    var n := Occurs(x.inbound, id);
    x.(inbound := Bury(x.inbound, id), inInuse := x.inInuse - n, refCount := x.refCount - n)
  }

  function WithArc<C>(s: State<C>, u: nat, v: nat): State<C>
    requires u < |s.vertices| && v < |s.vertices|
  {
    var id := |s.arcs|;
    var out := s.vertices[u := LinkOut(s.vertices[u], id)];
    s.(arcs := s.arcs[id := Arc(u, v)],
       keys := s.keys[Arc(u, v) := id],
       vertices := out[v := LinkIn(out[v], id)],
       numArcs := s.numArcs + 1)
  }

  function WithoutArc<C>(s: State<C>, id: int): State<C>
    requires id in s.arcs && s.arcs[id].source < |s.vertices| && s.arcs[id].sink < |s.vertices|
  {
    var a := s.arcs[id];
    var out := s.vertices[a.source := UnlinkOut(s.vertices[a.source], id)];
    s.(arcs := s.arcs - {id},
       keys := s.keys - {a},
       vertices := out[a.sink := UnlinkIn(out[a.sink], id)],
       numArcs := s.numArcs - 1)
  }

  lemma WithVertexKeeps<C(!new)>(s: State<C>, c: C)
    requires ValidState(s) && c !in s.ids
    ensures ValidState(WithVertex(s, c))
    ensures Deps(WithVertex(s, c)) == Deps(s)
    ensures Growing(s) ==> Growing(WithVertex(s, c))
  {
    var t := WithVertex(s, c);
    forall v | 0 <= v < |t.vertices|
      ensures ValidVertex(t, v)
    {
      WithVertexVertex(s, c, v);
    }
    hide ValidVertex;
    assert forall a :: a in s.keys ==> ProperArc(s, a) && Dep(t, a) == Dep(s, a);
  }

  lemma WithVertexVertex<C>(s: State<C>, c: C, v: nat)
    requires ValidState(s) && v <= |s.vertices|
    ensures ValidVertex(WithVertex(s, c), v)
  {
    if v < |s.vertices| {
      assert ValidVertex(s, v);
    }
  }

  lemma WithArcOut<C>(s: State<C>, u: nat, v: nat, x: nat)
    requires u < |s.vertices| && v < |s.vertices| && u != v && |s.arcs| !in s.arcs
    requires x < |s.vertices| && OutExact(s, x)
    ensures OutExact(WithArc(s, u, v), x)
  {
    var id := |s.arcs|;
    var t := WithArc(s, u, v);
    var w := s.vertices[x].outbound;
    assert t.vertices[x].outbound == if x == u then w + [id] else w;
    forall j | j >= 0
      ensures Occurs(t.vertices[x].outbound, j) == if j in t.arcs && t.arcs[j].source == x then 1 else 0
    {
      AppendCounts(w, id, j);
    }
    AppendCounts(w, id, 0);
  }

  lemma WithArcIn<C>(s: State<C>, u: nat, v: nat, x: nat)
    requires u < |s.vertices| && v < |s.vertices| && u != v && |s.arcs| !in s.arcs
    requires x < |s.vertices| && InExact(s, x)
    ensures InExact(WithArc(s, u, v), x)
  {
    var id := |s.arcs|;
    var t := WithArc(s, u, v);
    var w := s.vertices[x].inbound;
    assert t.vertices[x].inbound == if x == v then w + [id] else w;
    forall j | j >= 0
      ensures Occurs(t.vertices[x].inbound, j) == if j in t.arcs && t.arcs[j].sink == x then 1 else 0
    {
      AppendCounts(w, id, j);
    }
    AppendCounts(w, id, 0);
  }

  lemma WithArcVertex<C>(s: State<C>, u: nat, v: nat, x: nat)
    requires u < |s.vertices| && v < |s.vertices| && u != v && |s.arcs| !in s.arcs
    requires x < |s.vertices| && ValidVertex(s, x)
    ensures ValidVertex(WithArc(s, u, v), x)
  {
    WithArcOut(s, u, v, x);
    WithArcIn(s, u, v, x);
    hide OutExact, InExact;
  }

  lemma WithArcMaps<C>(s: State<C>, u: nat, v: nat)
    requires ValidArcs(s) && Growing(s) && ValidIds(s)
    requires u < |s.vertices| && v < |s.vertices| && u != v && Arc(u, v) !in s.keys
    ensures |s.arcs| !in s.arcs
    ensures ValidArcs(WithArc(s, u, v)) && Growing(WithArc(s, u, v)) && ValidIds(WithArc(s, u, v))
  {
  }

  lemma WithArcKeeps<C(!new)>(s: State<C>, u: nat, v: nat)
    requires ValidState(s) && Growing(s)
    requires u < |s.vertices| && v < |s.vertices| && u != v && Arc(u, v) !in s.keys
    ensures ValidState(WithArc(s, u, v)) && Growing(WithArc(s, u, v))
    ensures Deps(WithArc(s, u, v)) == Deps(s) + {(s.vertices[u].conn, s.vertices[v].conn)}
  {
    WithArcMaps(s, u, v);
    forall x | 0 <= x < |s.vertices|
      ensures ValidVertex(WithArc(s, u, v), x)
    {
      WithArcVertex(s, u, v, x);
    }
    WithArcDeps(s, u, v);
  }

  /** Graphs with the same vertices give an arc the same meaning. */
  ghost predicate SameConns<C>(s: State<C>, t: State<C>) {
    |t.vertices| == |s.vertices| && forall x :: 0 <= x < |s.vertices| ==> t.vertices[x].conn == s.vertices[x].conn
  }

  lemma DepsGrow<C(!new)>(s: State<C>, t: State<C>, a: Arc)
    requires ValidArcs(s) && ValidArcs(t) && SameConns(s, t) && ProperArc(s, a)
    requires forall b :: b in t.keys <==> b in s.keys || b == a
    ensures Deps(t) == Deps(s) + {Dep(s, a)}
  {
    forall b | b in t.keys
      ensures ProperArc(s, b) && ProperArc(t, b) && Dep(t, b) == Dep(s, b)
    {
    }
    hide ValidArcs, SameConns, Dep, ProperArc;
  }

  lemma WithArcDeps<C(!new)>(s: State<C>, u: nat, v: nat)
    requires u < |s.vertices| && v < |s.vertices| && u != v
    requires ValidArcs(s) && ValidArcs(WithArc(s, u, v))
    ensures Deps(WithArc(s, u, v)) == Deps(s) + {(s.vertices[u].conn, s.vertices[v].conn)}
  {
    hide ValidArcs;
    DepsGrow(s, WithArc(s, u, v), Arc(u, v));
  }

  /** s and t have the same vertices, and t's lists differ from s's only by
      tombstones: an iteration over s's lists stays meaningful in t. */
  ghost predicate Thinned<C>(s: State<C>, t: State<C>) {
    && |t.vertices| == |s.vertices|
    && t.ids == s.ids
    && forall v :: 0 <= v < |s.vertices| ==>
         && t.vertices[v].conn == s.vertices[v].conn
         && Fewer(s.vertices[v].outbound, t.vertices[v].outbound)
         && Fewer(s.vertices[v].inbound, t.vertices[v].inbound)
  }

  ghost predicate Fewer(list: seq<int>, list': seq<int>) {
    |list'| == |list| && forall i :: 0 <= i < |list| ==> list'[i] == list[i] || list'[i] == TOMBSTONE
  }

  lemma ThinnedRefl<C>(s: State<C>)
    ensures Thinned(s, s)
  {
  }

  lemma ThinnedTrans<C>(s: State<C>, t: State<C>, r: State<C>)
    requires Thinned(s, t) && Thinned(t, r)
    ensures Thinned(s, r)
  {
    forall v | 0 <= v < |s.vertices|
      ensures Fewer(s.vertices[v].outbound, r.vertices[v].outbound)
      ensures Fewer(s.vertices[v].inbound, r.vertices[v].inbound)
    {
    }
  }

  lemma WithoutArcVertex<C>(s: State<C>, id: int, x: nat)
    requires id in s.arcs && id >= 0 && ProperArc(s, s.arcs[id])
    requires x < |s.vertices| && ValidVertex(s, x)
    ensures ValidVertex(WithoutArc(s, id), x)
  {
    var t := WithoutArc(s, id);
    forall j | j >= 0
      ensures Occurs(t.vertices[x].outbound, j) == if j in t.arcs && t.arcs[j].source == x then 1 else 0
      ensures Occurs(t.vertices[x].inbound, j) == if j in t.arcs && t.arcs[j].sink == x then 1 else 0
    {
      BuryCounts(s.vertices[x].outbound, id, j);
      BuryCounts(s.vertices[x].inbound, id, j);
    }
    BuryCounts(s.vertices[x].outbound, id, 0);
    BuryCounts(s.vertices[x].inbound, id, 0);
  }

  lemma WithoutArcMaps<C>(s: State<C>, id: int)
    requires ValidArcs(s) && ValidIds(s) && id in s.arcs
    ensures ValidArcs(WithoutArc(s, id))
  {
    hide Bury, Occurs;
    assert (s.arcs - {id}).Keys == s.arcs.Keys - {id};
    assert |WithoutArc(s, id).vertices| == |s.vertices|;
  }

  lemma WithoutArcThins<C>(s: State<C>, id: int)
    requires ValidArcs(s) && ValidIds(s) && id in s.arcs
    ensures ValidIds(WithoutArc(s, id)) && Thinned(s, WithoutArc(s, id))
  {
    hide Occurs;
    assert ProperArc(s, s.arcs[id]);
    hide ValidArcs;
  }

  lemma WithoutArcKeeps<C(!new)>(s: State<C>, id: int)
    requires ValidState(s) && id in s.arcs
    ensures ValidState(WithoutArc(s, id)) && Thinned(s, WithoutArc(s, id))
    ensures Deps(WithoutArc(s, id)) == Deps(s) - {Dep(s, s.arcs[id])}
  {
    WithoutArcMaps(s, id);
    WithoutArcThins(s, id);
    forall x | 0 <= x < |s.vertices|
      ensures ValidVertex(WithoutArc(s, id), x)
    {
      WithoutArcVertex(s, id, x);
    }
    WithoutArcDeps(s, id);
  }

  lemma WithoutArcDeps<C(!new)>(s: State<C>, id: int)
    requires ValidArcs(s) && ValidIds(s) && id in s.arcs && ValidArcs(WithoutArc(s, id)) && ValidIds(WithoutArc(s, id))
    ensures var a := s.arcs[id];
            Deps(WithoutArc(s, id)) == Deps(s) - {(s.vertices[a.source].conn, s.vertices[a.sink].conn)}
  {
    var t, a := WithoutArc(s, id), s.arcs[id];
    assert ProperArc(s, a) && a in s.keys;
    DepsIff(s, a.source, a.sink);
    DepsIff(t, a.source, a.sink);
    hide ValidArcs, Occurs, Bury;
    DepsGrow(t, s, a);
  }
}
