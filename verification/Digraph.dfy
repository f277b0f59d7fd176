/** Finite directed graphs given as a set of arcs: cycles, the balanced core, and
    weakly connected components.  This is the reference the credit-loop code is
    measured against; nothing here mentions how that code represents a graph. */
module Digraph {

  /** p follows arcs of A from its first to its last vertex. */
  ghost predicate IsPath<T>(A: set<(T, T)>, p: seq<T>) {
    |p| >= 1 && forall i :: 0 <= i < |p| - 1 ==> (p[i], p[i + 1]) in A
  }

  ghost predicate IsCycle<T>(A: set<(T, T)>, p: seq<T>) {
    |p| >= 2 && IsPath(A, p) && p[0] == p[|p| - 1]
  }

  ghost predicate HasCycle<T(!new)>(A: set<(T, T)>) {
    exists p: seq<T> :: IsCycle(A, p)
  }

  ghost predicate HasIn<T(!new)>(A: set<(T, T)>, v: T) {
    exists u :: (u, v) in A
  }

  ghost predicate HasOut<T(!new)>(A: set<(T, T)>, v: T) {
    exists w :: (v, w) in A
  }

  /** Every vertex that A touches has an in-arc and an out-arc in A. */
  ghost predicate Balanced<T(!new)>(A: set<(T, T)>) {
    forall v :: HasIn(A, v) <==> HasOut(A, v)
  }

  /** K contains every balanced part of A. */
  ghost predicate CoversBalanced<T(!new)>(K: set<(T, T)>, A: set<(T, T)>) {
    forall B: set<(T, T)> :: B <= A && Balanced(B) ==> B <= K
  }

  /** K is the greatest balanced part of A. */
  ghost predicate IsCore<T(!new)>(K: set<(T, T)>, A: set<(T, T)>) {
    K <= A && Balanced(K) && CoversBalanced(K, A)
  }

  lemma CoreIsUnique<T(!new)>(K: set<(T, T)>, K': set<(T, T)>, A: set<(T, T)>)
    requires IsCore(K, A) && IsCore(K', A)
    ensures K == K'
  {
    assert K <= K' && K' <= K;
  }

  ghost function Steps<T>(p: seq<T>): set<(T, T)> {
    set i {:trigger p[i]} | 0 <= i < |p| - 1 :: (p[i], p[i + 1])
  }

  /** Going once round a cycle enters every vertex it leaves. */
  lemma CycleBalanced<T(!new)>(p: seq<T>)
    requires |p| >= 2 && p[0] == p[|p| - 1]
    ensures Balanced(Steps(p))
  {
    var n := |p| - 1;
    var B := Steps(p);
    forall v
      ensures HasIn(B, v) <==> HasOut(B, v)
    {
      if HasIn(B, v) {
        var u :| (u, v) in B;
        var i :| 0 <= i < n && (u, v) == (p[i], p[i + 1]);
        var after := if i == n - 1 then 0 else i + 1;
        assert (p[after], p[after + 1]) in B;
      }
      if HasOut(B, v) {
        var w :| (v, w) in B;
        var i :| 0 <= i < n && (v, w) == (p[i], p[i + 1]);
        var before := if i == 0 then n - 1 else i - 1;
        assert (p[before], p[before + 1]) in B;
      }
    }
  }

  /** The arcs of a cycle are balanced, so they lie in the core. */
  lemma CycleInCore<T(!new)>(K: set<(T, T)>, A: set<(T, T)>, p: seq<T>)
    requires IsCore(K, A) && IsCycle(A, p)
    ensures IsCycle(K, p) && K != {}
  {
    CycleBalanced(p);
    assert Steps(p) <= A;
    assert forall i :: 0 <= i < |p| - 1 ==> (p[i], p[i + 1]) in Steps(p);
    assert (p[0], p[1]) in K;
  }

  ghost function Sources<T>(A: set<(T, T)>): set<T> {
    set a | a in A :: a.0
  }

  ghost function Elements<T>(p: seq<T>): set<T> {
    set x | x in p
  }

  /** A walk along out-arcs that has not yet repeated a vertex closes a cycle. */
  lemma {:induction false} WalkClosesCycle<T(!new)>(A: set<(T, T)>, p: seq<T>)
    requires Balanced(A) && IsPath(A, p) && HasOut(A, p[|p| - 1])
    ensures HasCycle(A)
    decreases Sources(A) - Elements(p[..|p| - 1])
  {
    var last := p[|p| - 1];
    if j :| 0 <= j < |p| - 1 && p[j] == last {
      assert IsCycle(A, p[j..]);
    } else {
      var w :| (last, w) in A;
      var q := p + [w];
      assert IsPath(A, q);
      assert q[..|q| - 1] == p && p == p[..|p| - 1] + [last];
      assert last in Elements(p) - Elements(p[..|p| - 1]) && Elements(p[..|p| - 1]) <= Elements(p);
      assert (last, w).0 in Sources(A);
      assert HasIn(A, w);
      WalkClosesCycle(A, q);
    }
  }

  lemma BalancedHasCycle<T(!new)>(A: set<(T, T)>)
    requires Balanced(A) && A != {}
    ensures HasCycle(A)
  {
    var a :| a in A;
    assert (a.0, a.1) in A;
    assert HasIn(A, a.1);
    WalkClosesCycle(A, [a.1]);
  }

  /** The core is empty exactly when the graph is acyclic. */
  lemma CoreEmptyIffAcyclic<T(!new)>(K: set<(T, T)>, A: set<(T, T)>)
    requires IsCore(K, A)
    ensures K == {} <==> !HasCycle(A)
  {
    if HasCycle(A) {
      var p :| IsCycle(A, p);
      CycleInCore(K, A, p);
    }
    if K != {} {
      BalancedHasCycle(K);
      var p :| IsCycle(K, p);
      assert IsCycle(A, p);
    }
  }

  /** Arcs into a vertex without out-arcs, or out of one without in-arcs, are in
      no balanced part: removing them keeps every balanced part covered. */
  lemma PruneCovers<T(!new)>(K: set<(T, T)>, K': set<(T, T)>, A: set<(T, T)>, v: T)
    requires CoversBalanced(K, A) && K' <= K
    requires
      || ((forall a :: a in K - K' ==> a.1 == v) && !HasOut(K, v))
      || ((forall a :: a in K - K' ==> a.0 == v) && !HasIn(K, v))
    ensures CoversBalanced(K', A)
  {
    forall B: set<(T, T)> | B <= A && Balanced(B)
      ensures B <= K'
    {
      forall a | a in B
        ensures a in K'
      {
        assert (a.0, a.1) in B && HasOut(B, a.0) && HasIn(B, a.1);
        assert B <= K;
        assert HasOut(B, a.1) && HasIn(B, a.0);
      }
    }
  }

  // ---- weak connectivity ----

  ghost predicate Adjacent<T(!new)>(A: set<(T, T)>, x: T, y: T) {
    (x, y) in A || (y, x) in A
  }

  ghost predicate IsWalk<T(!new)>(A: set<(T, T)>, p: seq<T>) {
    |p| >= 1 && forall i :: 0 <= i < |p| - 1 ==> Adjacent(A, p[i], p[i + 1])
  }

  /** x and y are joined by arcs of A, directions ignored. */
  ghost predicate Connected<T(!new)>(A: set<(T, T)>, x: T, y: T) {
    exists p: seq<T> :: IsWalk(A, p) && p[0] == x && p[|p| - 1] == y
  }

  ghost predicate Isolated<T(!new)>(A: set<(T, T)>, v: T) {
    !HasIn(A, v) && !HasOut(A, v)
  }

  /** The arcs of the weakly connected component of v. */
  ghost function Component<T(!new)>(A: set<(T, T)>, v: T): set<(T, T)> {
    set a | a in A && Connected(A, v, a.0)
  }

  lemma ConnectedRefl<T(!new)>(A: set<(T, T)>, x: T)
    ensures Connected(A, x, x)
  {
    assert IsWalk(A, [x]);
  }

  /** A first step x-y followed by a walk in a smaller graph. */
  lemma ConnectedStep<T(!new)>(A: set<(T, T)>, B: set<(T, T)>, x: T, y: T, z: T)
    requires B <= A && Adjacent(A, x, y) && Connected(B, y, z)
    ensures Connected(A, x, z)
  {
    var p :| IsWalk(B, p) && p[0] == y && p[|p| - 1] == z;
    var q := [x] + p;
    forall i | 0 <= i < |q| - 1
      ensures Adjacent(A, q[i], q[i + 1])
    {
      if i > 0 {
        assert Adjacent(B, p[i - 1], p[i]);
      }
    }
    assert IsWalk(A, q);
  }

  /** What one call that splits out v has to achieve: it keeps A', and the rest
      hangs together with v and shares no vertex with A'. */
  ghost predicate SplitsOff<T(!new)>(A: set<(T, T)>, A': set<(T, T)>, v: T) {
    && A' <= A
    && Isolated(A', v)
    && (forall a :: a in A - A' ==> Isolated(A', a.0) && Isolated(A', a.1))
    && (forall a :: a in A - A' ==> Connected(A, v, a.0) && Connected(A, v, a.1))
  }

  lemma SplitsOffNothing<T(!new)>(A: set<(T, T)>, v: T)
    requires Isolated(A, v)
    ensures SplitsOff(A, A, v)
  {
  }

  lemma {:induction false} WalkStaysOutside<T(!new)>(A: set<(T, T)>, A': set<(T, T)>, v: T, p: seq<T>, n: nat)
    requires SplitsOff(A, A', v) && IsWalk(A, p) && p[0] == v && n < |p|
    ensures Isolated(A', p[n])
  {
    if n > 0 {
      WalkStaysOutside(A, A', v, p, n - 1);
      assert Adjacent(A, p[n - 1], p[n]);
      var a := if (p[n - 1], p[n]) in A then (p[n - 1], p[n]) else (p[n], p[n - 1]);
      assert a in A - A';
    }
  }

  /** Splitting off v removes exactly the component of v. */
  lemma SplitIsComponent<T(!new)>(A: set<(T, T)>, A': set<(T, T)>, v: T)
    requires SplitsOff(A, A', v)
    ensures A - A' == Component(A, v)
  {
    forall a | a in A && Connected(A, v, a.0)
      ensures a !in A'
    {
      var p :| IsWalk(A, p) && p[0] == v && p[|p| - 1] == a.0;
      WalkStaysOutside(A, A', v, p, |p| - 1);
      assert a == (a.0, a.1);
    }
  }

  /** A component is connected by its own arcs. */
  lemma ComponentHangsTogether<T(!new)>(A: set<(T, T)>, v: T, x: T)
    requires Connected(A, v, x)
    ensures Connected(Component(A, v), v, x)
  {
    var p :| IsWalk(A, p) && p[0] == v && p[|p| - 1] == x;
    var M := Component(A, v);
    forall i | 0 <= i < |p|
      ensures Connected(A, v, p[i])
    {
      assert IsWalk(A, p[..i + 1]);
    }
    forall i | 0 <= i < |p| - 1
      ensures Adjacent(M, p[i], p[i + 1])
    {
      assert Adjacent(A, p[i], p[i + 1]);
    }
    assert IsWalk(M, p);
  }

  /** A and B have no vertex in common. */
  ghost predicate Apart<T(!new)>(A: set<(T, T)>, B: set<(T, T)>) {
    forall a, b :: a in A && b in B ==> a.0 != b.0 && a.0 != b.1 && a.1 != b.0 && a.1 != b.1
  }

  /** Every vertex of A is joined to v by arcs of A. */
  ghost predicate Spans<T(!new)>(A: set<(T, T)>, v: T) {
    forall a :: a in A ==> Connected(A, v, a.0) && Connected(A, v, a.1)
  }

  /** A cyclic relation in one piece. */
  ghost predicate ConnectedLoop<T(!new)>(A: set<(T, T)>) {
    HasCycle(A) && exists v :: Spans(A, v)
  }

  /** What splitting does to a balanced relation: the part split off is a
      connected loop without a vertex in common with the rest. */
  lemma SplitGivesLoop<T(!new)>(A: set<(T, T)>, A': set<(T, T)>, v: T)
    requires Balanced(A) && SplitsOff(A, A', v) && A' != A
    ensures A' <= A && Balanced(A') && ConnectedLoop(A - A') && Apart(A - A', A')
  {
    SplitKeepsBalance(A, A', v);
    SplitIsComponent(A, A', v);
    var M := A - A';
    BalancedHasCycle(M);
    forall a | a in M
      ensures Connected(M, v, a.0) && Connected(M, v, a.1)
    {
      ComponentHangsTogether(A, v, a.0);
      ComponentHangsTogether(A, v, a.1);
    }
    assert Spans(M, v);
    forall a, b | a in M && b in A'
      ensures a.0 != b.0 && a.0 != b.1 && a.1 != b.0 && a.1 != b.1
    {
      assert b == (b.0, b.1) && HasOut(A', b.0) && HasIn(A', b.1);
    }
  }

  ghost function Union<T>(parts: seq<set<T>>): set<T> {
    set i, x | 0 <= i < |parts| && x in parts[i] :: x
  }

  /** K falls into connected loops without common vertices, and a rest. */
  ghost predicate Pieces<T(!new)>(K: set<(T, T)>, pieces: seq<set<(T, T)>>, rest: set<(T, T)>) {
    && K == Union(pieces) + rest
    && (forall i :: 0 <= i < |pieces| ==> ConnectedLoop(pieces[i]) && Apart(pieces[i], rest))
    && (forall i, j :: 0 <= i < j < |pieces| ==> Apart(pieces[i], pieces[j]))
  }

  lemma NoPieces<T(!new)>(K: set<(T, T)>)
    ensures Pieces(K, [], K)
  {
  }

  lemma PiecesStep<T(!new)>(K: set<(T, T)>, pieces: seq<set<(T, T)>>, rest: set<(T, T)>, rest': set<(T, T)>)
    requires Pieces(K, pieces, rest) && rest' <= rest
    requires ConnectedLoop(rest - rest') && Apart(rest - rest', rest')
    ensures Pieces(K, pieces + [rest - rest'], rest')
  {
    hide ConnectedLoop;
    var more := pieces + [rest - rest'];
    forall x | x in Union(pieces) + rest
      ensures x in Union(more) + rest'
    {
      if x in Union(pieces) {
        var i :| 0 <= i < |pieces| && x in pieces[i];
        assert x in more[i];
      } else if x !in rest' {
        assert x in more[|pieces|];
      }
    }
  }

  // ---- the number of pieces ----

  /** The arcs that a vertex of one piece has are in that piece. */
  lemma OwnPiece<T(!new)>(K: set<(T, T)>, pieces: seq<set<(T, T)>>, j: nat, a: (T, T), v: T)
    requires Pieces(K, pieces, {}) && j < |pieces| && a in K && v in {a.0, a.1} && !Isolated(pieces[j], v)
    ensures a in pieces[j]
  {
    hide ConnectedLoop;
    var k :| 0 <= k < |pieces| && a in pieces[k];
    var e := ArcAt(pieces[j], v);
    assert k != j ==> Apart(pieces[if k < j then k else j], pieces[if k < j then j else k]);
  }

  ghost function ArcAt<T(!new)>(A: set<(T, T)>, v: T): (a: (T, T))
    requires !Isolated(A, v)
    ensures a in A && v in {a.0, a.1}
  {
    if HasIn(A, v) then var u :| (u, v) in A; (u, v) else var w :| (v, w) in A; (v, w)
  }

  lemma NotIsolated<T(!new)>(A: set<(T, T)>, a: (T, T))
    requires a in A
    ensures !Isolated(A, a.0) && !Isolated(A, a.1)
  {
    assert a == (a.0, a.1);
  }

  /** A walk that meets a piece stays in it, both ways. */
  lemma {:induction false} WalkInPiece<T(!new)>(K: set<(T, T)>, pieces: seq<set<(T, T)>>, j: nat, A: set<(T, T)>, p: seq<T>, n: nat)
    requires Pieces(K, pieces, {}) && j < |pieces| && A <= K && IsWalk(A, p) && n < |p|
    ensures Isolated(pieces[j], p[0]) <==> Isolated(pieces[j], p[n])
  {
    hide Pieces, Isolated;
    if n > 0 {
      WalkInPiece(K, pieces, j, A, p, n - 1);
      assert Adjacent(A, p[n - 1], p[n - 1 + 1]);
      var a := if (p[n - 1], p[n]) in A then (p[n - 1], p[n]) else (p[n], p[n - 1]);
      if !Isolated(pieces[j], p[n - 1]) {
        OwnPiece(K, pieces, j, a, p[n - 1]);
        NotIsolated(pieces[j], a);
      }
      if !Isolated(pieces[j], p[n]) {
        OwnPiece(K, pieces, j, a, p[n]);
        NotIsolated(pieces[j], a);
      }
    }
  }

  lemma ConnectedInPiece<T(!new)>(K: set<(T, T)>, pieces: seq<set<(T, T)>>, j: nat, A: set<(T, T)>, x: T, y: T)
    requires Pieces(K, pieces, {}) && j < |pieces| && A <= K && Connected(A, x, y)
    ensures Isolated(pieces[j], x) <==> Isolated(pieces[j], y)
  {
    hide Pieces, Isolated;
    var p :| IsWalk(A, p) && p[0] == x && p[|p| - 1] == y;
    WalkInPiece(K, pieces, j, A, p, |p| - 1);
  }

  /** What hangs together and meets a piece is part of it. */
  lemma InsidePiece<T(!new)>(K: set<(T, T)>, pieces: seq<set<(T, T)>>, j: nat, A: set<(T, T)>, e: (T, T))
    requires Pieces(K, pieces, {}) && j < |pieces| && A <= K && ConnectedLoop(A) && e in A && e in pieces[j]
    ensures A <= pieces[j]
  {
    var v :| Spans(A, v);
    hide Pieces, Isolated, HasCycle, Connected;
    NotIsolated(pieces[j], e);
    ConnectedInPiece(K, pieces, j, A, v, e.0);
    forall a | a in A
      ensures a in pieces[j]
    {
      ConnectedInPiece(K, pieces, j, A, v, a.0);
      OwnPiece(K, pieces, j, a, a.0);
    }
  }

  /** A piece of one partition is a piece of any other. */
  lemma PieceAgain<T(!new)>(K: set<(T, T)>, P: seq<set<(T, T)>>, Q: seq<set<(T, T)>>, i: nat)
    requires Pieces(K, P, {}) && Pieces(K, Q, {}) && i < |P|
    ensures P[i] != {} && P[i] in Q
  {
    var c :| IsCycle(P[i], c);
    assert (c[0], c[0 + 1]) in P[i];
    var e := (c[0], c[0 + 1]);
    assert e in Union(P);
    var j :| 0 <= j < |Q| && e in Q[j];
    assert P[i] <= Union(P) && Q[j] <= Union(Q);
    hide Pieces;
    InsidePiece(K, Q, j, P[i], e);
    InsidePiece(K, P, i, Q[j], e);
    assert P[i] == Q[j];
  }

  lemma {:induction false} DistinctSize<T>(s: seq<T>)
    requires forall i, j :: 0 <= i < j < |s| ==> s[i] != s[j]
    ensures |set x | x in s| == |s|
  {
    if s == [] {
      assert (set x | x in s) == {};
    } else {
      var before := s[..|s| - 1];
      DistinctSize(before);
      assert (set x | x in s) == (set x | x in before) + {s[|s| - 1]};
    }
  }

  lemma PiecesDistinct<T(!new)>(K: set<(T, T)>, P: seq<set<(T, T)>>)
    requires Pieces(K, P, {})
    ensures forall i, j :: 0 <= i < j < |P| ==> P[i] != P[j]
  {
    forall i, j | 0 <= i < j < |P|
      ensures P[i] != P[j]
    {
      PieceAgain(K, P, P, i);
      var e :| e in P[i];
      assert Apart(P[i], P[j]);
    }
  }

  /** A relation falls into connected loops in one way only. */
  lemma PiecesUnique<T(!new)>(K: set<(T, T)>, P: seq<set<(T, T)>>, Q: seq<set<(T, T)>>)
    requires Pieces(K, P, {}) && Pieces(K, Q, {})
    ensures (forall x :: x in P <==> x in Q) && |P| == |Q|
  {
    PiecesDistinct(K, P);
    PiecesDistinct(K, Q);
    DistinctSize(P);
    DistinctSize(Q);
    forall x
      ensures x in P <==> x in Q
    {
      if x in P {
        var i :| 0 <= i < |P| && P[i] == x;
        PieceAgain(K, P, Q, i);
      }
      if x in Q {
        var i :| 0 <= i < |Q| && Q[i] == x;
        PieceAgain(K, Q, P, i);
      }
    }
    assert (set x | x in P) == (set x | x in Q);
  }

  /** The core of A falls into n connected loops. */
  ghost predicate LoopCount<T(!new)>(A: set<(T, T)>, n: nat) {
    exists K, pieces :: IsCore(K, A) && Pieces(K, pieces, {}) && |pieces| == n
  }

  /** So a relation has one number of loops. */
  lemma LoopCountUnique<T(!new)>(A: set<(T, T)>, m: nat, n: nat)
    requires LoopCount(A, m) && LoopCount(A, n)
    ensures m == n
  {
    hide Pieces, IsCore;
    var K, P :| IsCore(K, A) && Pieces(K, P, {}) && |P| == m;
    var L, Q :| IsCore(L, A) && Pieces(L, Q, {}) && |Q| == n;
    CoreIsUnique(K, L, A);
    PiecesUnique(K, P, Q);
  }

  /** Both halves of a balanced graph stay balanced. */
  lemma SplitKeepsBalance<T(!new)>(A: set<(T, T)>, A': set<(T, T)>, v: T)
    requires Balanced(A) && SplitsOff(A, A', v)
    ensures Balanced(A') && Balanced(A - A')
  {
    var M := A - A';
    forall v
      ensures HasIn(A', v) <==> HasOut(A', v)
      ensures HasIn(M, v) <==> HasOut(M, v)
    {
      if HasIn(A, v) && HasOut(A, v) {
        var u :| (u, v) in A;
        var w :| (v, w) in A;
        assert (u, v) in A' <==> (v, w) in A' by {
          assert (u, v) in M ==> Isolated(A', v);
          assert (v, w) in M ==> Isolated(A', v);
        }
        assert forall x :: (x, v) in A' || (v, x) in A' ==> !Isolated(A', v);
        assert forall x :: (x, v) in M || (v, x) in M ==> Isolated(A', v);
      }
    }
  }

  /** The arcs of A that do not touch v. */
  ghost function AwayFrom<T>(A: set<(T, T)>, v: T): set<(T, T)> {
    set a | a in A && a.0 != v && a.1 != v
  }

  /** Progress of splitting out c: of A, the part A1 not touching c was left, and
      by now only A2 of that; everything taken hangs together with c. */
  ghost predicate Shed<T(!new)>(A: set<(T, T)>, A1: set<(T, T)>, A2: set<(T, T)>, c: T) {
    && A2 <= A1 <= A
    && Isolated(A1, c)
    && (forall a :: a in A1 - A2 ==> Isolated(A2, a.0) && Isolated(A2, a.1))
    && (forall a :: a in A - A2 ==> Connected(A, c, a.0) && Connected(A, c, a.1))
  }

  lemma ShedStart<T(!new)>(A: set<(T, T)>, A1: set<(T, T)>, c: T)
    requires A1 == AwayFrom(A, c)
    ensures Shed(A, A1, A1, c)
  {
    forall a | a in A - A1
      ensures Connected(A, c, a.0) && Connected(A, c, a.1)
    {
      assert a == (a.0, a.1);
      var y := if a.0 == c then a.1 else a.0;
      ConnectedRefl(A, c);
      ConnectedRefl(A, y);
      ConnectedStep(A, A, c, y, y);
    }
  }

  /** Splitting out a neighbour n of c next. */
  lemma ShedStep<T(!new)>(A: set<(T, T)>, A1: set<(T, T)>, A2: set<(T, T)>, A3: set<(T, T)>, c: T, n: T)
    requires Shed(A, A1, A2, c) && Adjacent(A, c, n) && SplitsOff(A2, A3, n)
    ensures Shed(A, A1, A3, c) && Isolated(A3, n) && A3 <= A2 <= A
    ensures forall x :: Isolated(A2, x) ==> Isolated(A3, x)
  {
    forall a | a in A - A3
      ensures Connected(A, c, a.0) && Connected(A, c, a.1)
    {
      if a in A2 {
        assert a in A2 - A3;
        ConnectedStep(A, A2, c, n, a.0);
        ConnectedStep(A, A2, c, n, a.1);
      } else {
        assert a in A - A2;
      }
    }
    assert forall a :: a in A1 - A3 ==> a in A1 - A2 || a in A2 - A3;
  }

  /** With every neighbour of c split out, c's component is gone. */
  lemma ShedDone<T(!new)>(A: set<(T, T)>, A1: set<(T, T)>, A2: set<(T, T)>, c: T)
    requires A1 == AwayFrom(A, c)
    requires Shed(A, A1, A2, c)
    requires forall n :: Adjacent(A, c, n) ==> Isolated(A2, n)
    ensures SplitsOff(A, A2, c)
  {
    forall a | a in A - A2
      ensures Isolated(A2, a.0) && Isolated(A2, a.1)
    {
      if a in A1 {
        assert a in A1 - A2;
      } else {
        assert a == (a.0, a.1) && (a.0 == c || a.1 == c);
        assert Adjacent(A, c, if a.0 == c then a.1 else a.0);
      }
    }
  }
}
