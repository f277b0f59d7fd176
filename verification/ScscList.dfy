/** SC2SC tables of a port, kept once each with a mask of the egress ports they
    serve, against a plain map from egress port to table. */
module ScscList {
  import opened Fabric

  /** A table and the mask of its egress ports. */
  datatype Entry<T> = Entry(outports: set<nat>, table: T)

  /** The table of the first entry whose mask has the port. */
  function Lookup<T>(list: seq<Entry<T>>, outport: nat): Option<T> {
    if list == [] then None
    else if outport in list[0].outports then Some(list[0].table)
    else Lookup(list[1..], outport)
  }

  /** Tables pairwise distinct, masks pairwise disjoint, no mask empty. */
  ghost predicate Normal<T>(list: seq<Entry<T>>) {
    && (forall i, j :: 0 <= i < j < |list| ==> list[i].table != list[j].table && list[i].outports !! list[j].outports)
    && (forall i :: 0 <= i < |list| ==> list[i].outports != {})
  }

  ghost predicate Serves<T(!new)>(list: seq<Entry<T>>, outport: nat, table: T) {
    exists i :: 0 <= i < |list| && outport in list[i].outports && list[i].table == table
  }

  /** With disjoint masks, lookup is membership. */
  lemma {:induction false} LookupServes<T(!new)>(list: seq<Entry<T>>, outport: nat, table: T)
    requires Normal(list)
    ensures Lookup(list, outport) == Some(table) <==> Serves(list, outport, table)
  {
    if list != [] {
      var rest := list[1..];
      LookupServes(rest, outport, table);
      assert forall i :: 0 < i < |list| ==> list[i] == rest[i - 1];
      if Serves(rest, outport, table) {
        var i :| 0 <= i < |rest| && outport in rest[i].outports && rest[i].table == table;
        assert list[i + 1] == rest[i];
      }
    }
  }

  /** One entry as the scan leaves it. */
  function Scanned<T(==)>(e: Entry<T>, outport: nat, table: T): Entry<T> {
    if e.table == table then e.(outports := e.outports + {outport}) else e.(outports := e.outports - {outport})
  }

  /** Ports above the node's port count are not counted. */
  ghost predicate CountsAsEmpty(mask: set<nat>, numPorts: nat) {
    forall p :: p in mask ==> p > numPorts
  }

  /** The entry that loses outport and then looks empty. */
  ghost predicate Emptied<T>(e: Entry<T>, outport: nat, table: T, numPorts: nat) {
    e.table != table && outport in e.outports && CountsAsEmpty(e.outports - {outport}, numPorts)
  }

  /** An entry is taken for empty while it still serves ports above the count. */
  ghost predicate Misjudged<T>(list: seq<Entry<T>>, outport: nat, table: T, numPorts: nat) {
    exists i :: 0 <= i < |list| && Emptied(list[i], outport, table, numPorts) && list[i].outports != {outport}
  }

  ghost predicate HasTable<T(!new)>(list: seq<Entry<T>>, table: T) {
    exists i :: 0 <= i < |list| && list[i].table == table
  }

  /** What port p is mapped to after adding table for outport: the ports that shared
      a misjudged entry with outport follow it to a new table, or are left without
      one if the table is already listed. */
  ghost function Updated<T(!new)>(list: seq<Entry<T>>, outport: nat, table: T, numPorts: nat, p: nat): Option<T> {
    if p == outport then Some(table)
    else if Misjudged(list, outport, table, numPorts) && Lookup(list, p) == Lookup(list, outport) then
      (if HasTable(list, table) then None else Some(table))
    else Lookup(list, p)
  }

  class ScscMaps<T(==, !new)> {
    const numPorts: nat
    var list: seq<Entry<T>>

    constructor (numPorts: nat)
      ensures this.numPorts == numPorts && list == [] && Normal(list)
    {
      this.numPorts, list := numPorts, [];
    }

    /** Whether none of the ports 0 to numPorts is set. */
    method NoneSet(mask: set<nat>) returns (none: bool)
      ensures none <==> CountsAsEmpty(mask, numPorts)
    {
      none := true;
      for i := 0 to numPorts + 1
        invariant none <==> forall p :: p in mask && p < i ==> false
      {
        if i in mask {
          none := false;
        }
      }
    }

    method Find(outport: nat) returns (table: Option<T>)
      ensures table == Lookup(list, outport)
    {
      var i := 0;
      assert list[0..] == list;
      while i < |list|
        invariant i <= |list| && Lookup(list, outport) == Lookup(list[i..], outport)
      {
        if outport in list[i].outports {
          return Some(list[i].table);
        }
        assert list[i..][1..] == list[i + 1..];
        i := i + 1;
      }
      return None;
    }

    /** Scans the list once: the matching table gains the port, any other loses it. */
    method Scan(outport: nat, table: T) returns (found: bool, empty: int)
      modifies this
      ensures |list| == |old(list)| && forall i :: 0 <= i < |list| ==> list[i] == Scanned(old(list)[i], outport, table)
      ensures found <==> exists i :: 0 <= i < |list| && list[i].table == table
      ensures -1 <= empty < |list|
      ensures empty >= 0 ==> Emptied(old(list)[empty], outport, table, numPorts)
      ensures empty == -1 ==> forall i :: 0 <= i < |list| ==> !Emptied(old(list)[i], outport, table, numPorts)
    {
      found, empty := false, -1;
      for i := 0 to |list|
        invariant |list| == |old(list)|
        invariant forall j :: 0 <= j < |list| ==> list[j] == if j < i then Scanned(old(list)[j], outport, table) else old(list)[j]
        invariant found <==> exists j :: 0 <= j < i && list[j].table == table
        invariant -1 <= empty < i
        invariant empty >= 0 ==> Emptied(old(list)[empty], outport, table, numPorts)
        invariant empty == -1 ==> forall j :: 0 <= j < i ==> !Emptied(old(list)[j], outport, table, numPorts)
      {
        var e := list[i];
        if e.table == table {
          list := list[i := e.(outports := e.outports + {outport})];
          found := true;
        } else {
          list := list[i := e.(outports := e.outports - {outport})];
          if outport in e.outports {
            var none := NoneSet(e.outports - {outport});
            if none {
              empty := i;
            }
          }
        }
      }
    }

    /** Maps outport to table.  The list stays in normal form, and all other ports
        keep their tables unless they share a misjudged entry. */
    method Add(outport: nat, table: T)
      requires Normal(list)
      modifies this
      ensures Normal(list)
      ensures forall p: nat :: Lookup(list, p) == Updated(old(list), outport, table, numPorts, p)
    {
      var found, empty := Scan(outport, table);
      ghost var scanned := list;
      if found {
        if empty >= 0 {
          list := list[..empty] + list[empty + 1..];
        }
      } else if empty >= 0 {
        list := list[empty := Entry(list[empty].outports + {outport}, table)];
      } else {
        list := list + [Entry({outport}, table)];
      }
      AddMeaning(old(list), scanned, list, outport, table, numPorts, found, empty);
    }
  }

  /** What the scan found and how the list was repaired afterwards. */
  ghost predicate Repaired<T>(a: seq<Entry<T>>, s: seq<Entry<T>>, r: seq<Entry<T>>,
                              outport: nat, table: T, numPorts: nat, found: bool, empty: int) {
    && |s| == |a| && -1 <= empty < |a|
    && (forall i :: 0 <= i < |a| ==> s[i] == Scanned(a[i], outport, table))
    && (found <==> exists i :: 0 <= i < |a| && s[i].table == table)
    && (empty >= 0 ==> Emptied(a[empty], outport, table, numPorts))
    && (empty == -1 ==> forall i :: 0 <= i < |a| ==> !Emptied(a[i], outport, table, numPorts))
    && r == if found then (if empty >= 0 then s[..empty] + s[empty + 1..] else s)
            else if empty >= 0 then s[empty := Entry(s[empty].outports + {outport}, table)]
            else s + [Entry({outport}, table)]
  }

  /** Repaired lists are normal. */
  lemma RepairNormal<T(!new)>(a: seq<Entry<T>>, s: seq<Entry<T>>, r: seq<Entry<T>>,
                              outport: nat, table: T, numPorts: nat, found: bool, empty: int)
    requires Normal(a) && Repaired(a, s, r, outport, table, numPorts, found, empty)
    ensures Normal(r)
  {
    forall i | 0 <= i < |a|
      ensures i != empty ==> s[i].outports != {}
    {
      if a[i].table != table && outport in a[i].outports && i != empty {
        if empty < 0 {
          assert !Emptied(a[i], outport, table, numPorts);
          var p :| p in a[i].outports - {outport} && p <= numPorts;
          assert p in s[i].outports;
        }
      }
    }
    forall i, j | 0 <= i < j < |a|
      ensures s[i].table != s[j].table && s[i].outports !! s[j].outports
    {
    }
  }

  /** They serve what they did, apart from outport and the rest of the entry that was
      taken for empty. */
  lemma RepairServes<T(!new)>(a: seq<Entry<T>>, s: seq<Entry<T>>, r: seq<Entry<T>>,
                              outport: nat, table: T, numPorts: nat, found: bool, empty: int, p: nat, t: T)
    requires Normal(a) && Repaired(a, s, r, outport, table, numPorts, found, empty)
    ensures Serves(r, p, t) <==>
              if p == outport then t == table
              else if empty >= 0 && p in a[empty].outports then !found && t == table
              else Serves(a, p, t)
  {
    if i :| 0 <= i < |a| && s[i].table == table {
      if empty >= 0 {
        assert i != empty;
        assert r[if i < empty then i else i - 1] == s[i];
      } else {
        assert r[i] == s[i];
      }
    } else {
      assert empty < 0 ==> r[|s|] == Entry({outport}, table);
      assert empty >= 0 ==> r[empty] == Entry(a[empty].outports, table);
    }
    if i :| 0 <= i < |a| && p in a[i].outports && a[i].table == t && p != outport && i != empty {
      assert p in s[i].outports;
      if found && empty >= 0 {
        assert r[if i < empty then i else i - 1] == s[i];
      } else {
        assert r[i] == s[i];
      }
    }
    if k :| 0 <= k < |r| && p in r[k].outports && r[k].table == t {
      if found && empty >= 0 {
        assert r[k] == s[if k < empty then k else k + 1];
      }
    }
  }

  /** The rest of the entry taken for empty are the ports that shared it. */
  lemma SharersAre<T(!new)>(a: seq<Entry<T>>, s: seq<Entry<T>>, r: seq<Entry<T>>,
                            outport: nat, table: T, numPorts: nat, found: bool, empty: int, p: nat)
    requires Normal(a) && Repaired(a, s, r, outport, table, numPorts, found, empty) && p != outport
    ensures empty >= 0 && p in a[empty].outports <==> Misjudged(a, outport, table, numPorts) && Lookup(a, p) == Lookup(a, outport)
    ensures found <==> HasTable(a, table)
  {
    if e :| 0 <= e < |a| && Emptied(a[e], outport, table, numPorts) {
      assert e == empty;
      LookupServes(a, p, a[e].table);
      LookupServes(a, outport, a[e].table);
      assert Serves(a, outport, a[e].table);
      assert p in a[e].outports ==> Serves(a, p, a[e].table);
    }
    assert forall i :: 0 <= i < |a| ==> s[i].table == a[i].table;
  }

  lemma AddMeaning<T(!new)>(a: seq<Entry<T>>, s: seq<Entry<T>>, r: seq<Entry<T>>,
                            outport: nat, table: T, numPorts: nat, found: bool, empty: int)
    requires Normal(a) && Repaired(a, s, r, outport, table, numPorts, found, empty)
    ensures Normal(r) && forall p: nat :: Lookup(r, p) == Updated(a, outport, table, numPorts, p)
  {
    RepairNormal(a, s, r, outport, table, numPorts, found, empty);
    forall p: nat
      ensures Lookup(r, p) == Updated(a, outport, table, numPorts, p)
    {
      hide Normal, Misjudged, Serves, Lookup, HasTable;
      if p != outport {
        SharersAre(a, s, r, outport, table, numPorts, found, empty, p);
      }
      hide Repaired;
      var want := Updated(a, outport, table, numPorts, p);
      forall t: T
        ensures Lookup(r, p) == Some(t) <==> want == Some(t)
      {
        LookupServes(r, p, t);
        LookupServes(a, p, t);
        RepairServes(a, s, r, outport, table, numPorts, found, empty, p, t);
      }
      assert want.Some? ==> Lookup(r, p) == Some(want.value);
    }
  }

  // ---- against a plain map ----

  /** The list means the map. */
  ghost predicate Means<T(!new)>(list: seq<Entry<T>>, m: map<nat, T>) {
    forall p: nat :: Lookup(list, p) == if p in m then Some(m[p]) else None
  }

  /** In terms of the map: outport is to leave a table that only ports above the
      count share with it. */
  ghost predicate Strands<T(!new)>(m: map<nat, T>, outport: nat, table: T, numPorts: nat) {
    && outport in m && m[outport] != table
    && (exists p :: p in m && p != outport && m[p] == m[outport])
    && forall p :: p in m && p != outport && m[p] == m[outport] ==> p > numPorts
  }

  lemma MisjudgedIsStrands<T(!new)>(list: seq<Entry<T>>, m: map<nat, T>, outport: nat, table: T, numPorts: nat)
    requires Normal(list) && Means(list, m)
    ensures Misjudged(list, outport, table, numPorts) <==> Strands(m, outport, table, numPorts)
    ensures HasTable(list, table) <==> table in m.Values
  {
    forall p: nat, t: T
      ensures (p in m && m[p] == t) <==> Serves(list, p, t)
    {
      LookupServes(list, p, t);
    }
    hide Lookup, Means;
    if Strands(m, outport, table, numPorts) {
      StrandsMisjudges(list, m, outport, table, numPorts);
    }
    if Misjudged(list, outport, table, numPorts) {
      MisjudgedStrands(list, m, outport, table, numPorts);
    }
    TablesAre(list, m, table);
  }

  lemma MisjudgedStrands<T(!new)>(list: seq<Entry<T>>, m: map<nat, T>, outport: nat, table: T, numPorts: nat)
    requires Normal(list) && (forall p: nat, t: T :: (p in m && m[p] == t) <==> Serves(list, p, t))
    requires Misjudged(list, outport, table, numPorts)
    ensures Strands(m, outport, table, numPorts)
  {
    var e :| 0 <= e < |list| && Emptied(list[e], outport, table, numPorts) && list[e].outports != {outport};
    assert Serves(list, outport, list[e].table);
    assert list[e].outports - {outport} != {};
    var q :| q in list[e].outports - {outport};
    assert Serves(list, q, list[e].table);
    forall p | p in m && p != outport && m[p] == m[outport]
      ensures p > numPorts
    {
      assert Serves(list, p, list[e].table);
      assert p in list[e].outports - {outport};
    }
  }

  lemma StrandsMisjudges<T(!new)>(list: seq<Entry<T>>, m: map<nat, T>, outport: nat, table: T, numPorts: nat)
    requires Normal(list) && (forall p: nat, t: T :: (p in m && m[p] == t) <==> Serves(list, p, t))
    requires Strands(m, outport, table, numPorts)
    ensures Misjudged(list, outport, table, numPorts)
  {
    assert Serves(list, outport, m[outport]);
    var e :| 0 <= e < |list| && outport in list[e].outports && list[e].table == m[outport];
    forall p | p in list[e].outports - {outport}
      ensures p > numPorts
    {
      assert Serves(list, p, list[e].table);
    }
    var q :| q in m && q != outport && m[q] == m[outport];
    assert Serves(list, q, m[q]);
    assert q in list[e].outports;
    assert Emptied(list[e], outport, table, numPorts);
  }

  lemma TablesAre<T(!new)>(list: seq<Entry<T>>, m: map<nat, T>, table: T)
    requires Normal(list) && (forall p: nat, t: T :: (p in m && m[p] == t) <==> Serves(list, p, t))
    ensures HasTable(list, table) <==> table in m.Values
  {
    if i :| 0 <= i < |list| && list[i].table == table {
      var p :| p in list[i].outports;
      assert Serves(list, p, table);
    }
    if p :| p in m && m[p] == table {
      assert Serves(list, p, table);
    }
  }

  /** An addition acts on the map as it should exactly unless it strands a port. */
  lemma AddMeansIff<T(!new)>(list: seq<Entry<T>>, list': seq<Entry<T>>, m: map<nat, T>, outport: nat, table: T, numPorts: nat)
    requires Normal(list) && Means(list, m)
    requires forall p: nat :: Lookup(list', p) == Updated(list, outport, table, numPorts, p)
    ensures Means(list', m[outport := table]) <==> !Strands(m, outport, table, numPorts)
  {
    hide Lookup, Misjudged, HasTable, Normal;
    MisjudgedIsStrands(list, m, outport, table, numPorts);
    if Strands(m, outport, table, numPorts) {
      var p :| p in m && p != outport && m[p] == m[outport];
      assert Lookup(list', p) == Updated(list, outport, table, numPorts, p) != Some(m[p]);
      assert m[outport := table][p] == m[p];
    }
  }

  /** The plain map that a run of additions stands for. */
  function Plain<T>(adds: seq<(nat, T)>): map<nat, T> {
    if adds == [] then map[] else Plain(adds[..|adds| - 1])[adds[|adds| - 1].0 := adds[|adds| - 1].1]
  }

  lemma PlainStep<T>(adds: seq<(nat, T)>, k: nat)
    requires k < |adds|
    ensures Plain(adds[..k + 1]) == Plain(adds[..k])[adds[k].0 := adds[k].1]
  {
    assert adds[..k + 1][..k] == adds[..k];
  }

  /** Addition k strands a port. */
  ghost predicate StrandsAt<T(!new)>(numPorts: nat, adds: seq<(nat, T)>, k: nat)
    requires k < |adds|
  {
    Strands(Plain(adds[..k]), adds[k].0, adds[k].1, numPorts)
  }

  /** Any run of additions.  lists are the lists after each step: they mean the map
      from each port to its last table at every step exactly if no addition strands
      a port, which needs egress ports above the node's port count. */
  method AddAll<T(==, !new)>(numPorts: nat, adds: seq<(nat, T)>) returns (maps: ScscMaps<T>, ghost lists: seq<seq<Entry<T>>>)
    ensures fresh(maps) && |lists| == |adds| + 1 && maps.list == lists[|adds|]
    ensures lists[0] == [] && forall k: nat :: k < |adds| ==> StepOk(numPorts, adds, lists, k)
    ensures forall k :: 0 <= k < |lists| ==> Normal(lists[k])
    ensures (forall k :: 0 <= k < |lists| ==> Means(lists[k], Plain(adds[..k]))) <==>
              forall k: nat :: k < |adds| ==> !StrandsAt(numPorts, adds, k)
    ensures (forall i :: 0 <= i < |adds| ==> adds[i].0 <= numPorts) ==> Means(maps.list, Plain(adds))
  {
    hide Means, Normal, StrandsAt;
    maps := new ScscMaps(numPorts);
    lists := [maps.list];
    EmptyMeans<T>();
    for k := 0 to |adds|
      invariant fresh(maps) && maps.numPorts == numPorts && |lists| == k + 1 && maps.list == lists[k] && lists[0] == []
      invariant forall j :: 0 <= j <= k ==> Normal(lists[j])
      invariant forall j: nat :: j < k ==> StepOk(numPorts, adds, lists, j)
    {
      maps.Add(adds[k].0, adds[k].1);
      StepsStay(numPorts, adds, lists, maps.list, k);
      lists := lists + [maps.list];
      assert StepOk(numPorts, adds, lists, k);
    }
    RunExact(numPorts, adds, lists);
    assert adds[..|adds|] == adds;
    if forall i :: 0 <= i < |adds| ==> adds[i].0 <= numPorts {
      InRangeSafe(numPorts, adds);
    }
  }

  /** List j + 1 comes from list j by addition j. */
  ghost predicate StepOk<T(!new)>(numPorts: nat, adds: seq<(nat, T)>, lists: seq<seq<Entry<T>>>, j: nat) {
    j < |adds| && j + 1 < |lists| && forall p: nat :: Lookup(lists[j + 1], p) == Updated(lists[j], adds[j].0, adds[j].1, numPorts, p)
  }

  lemma StepsStay<T(!new)>(numPorts: nat, adds: seq<(nat, T)>, lists: seq<seq<Entry<T>>>, list: seq<Entry<T>>, k: nat)
    requires forall j: nat :: j < k ==> StepOk(numPorts, adds, lists, j)
    ensures forall j: nat :: j < k ==> StepOk(numPorts, adds, lists + [list], j)
  {
    hide Lookup, Updated;
    forall j: nat | j < k
      ensures StepOk(numPorts, adds, lists + [list], j)
    {
      assert StepOk(numPorts, adds, lists, j);
    }
  }

  lemma EmptyMeans<T(!new)>()
    ensures Normal<T>([]) && Means<T>([], map[])
  {
  }

  lemma {:induction false} RunMeans<T(!new)>(numPorts: nat, adds: seq<(nat, T)>, lists: seq<seq<Entry<T>>>, k: nat)
    requires |lists| == |adds| + 1 && lists[0] == [] && k <= |adds|
    requires (forall j :: 0 <= j < |lists| ==> Normal(lists[j])) && forall j: nat :: j < |adds| ==> StepOk(numPorts, adds, lists, j)
    requires forall j: nat :: j < |adds| ==> !StrandsAt(numPorts, adds, j)
    ensures Means(lists[k], Plain(adds[..k]))
  {
    hide Means, Normal, Strands, Updated, Lookup;
    if k == 0 {
      EmptyMeans<T>();
    } else {
      RunMeans(numPorts, adds, lists, k - 1);
      assert StepOk(numPorts, adds, lists, k - 1) && !StrandsAt(numPorts, adds, k - 1);
      PlainStep(adds, k - 1);
      AddMeansIff(lists[k - 1], lists[k], Plain(adds[..k - 1]), adds[k - 1].0, adds[k - 1].1, numPorts);
    }
  }

  lemma RunExact<T(!new)>(numPorts: nat, adds: seq<(nat, T)>, lists: seq<seq<Entry<T>>>)
    requires |lists| == |adds| + 1 && lists[0] == []
    requires (forall j :: 0 <= j < |lists| ==> Normal(lists[j])) && forall j: nat :: j < |adds| ==> StepOk(numPorts, adds, lists, j)
    ensures (forall k :: 0 <= k < |lists| ==> Means(lists[k], Plain(adds[..k]))) <==>
              forall k: nat :: k < |adds| ==> !StrandsAt(numPorts, adds, k)
  {
    hide Means, Normal, Strands, Updated, Lookup;
    if forall k: nat :: k < |adds| ==> !StrandsAt(numPorts, adds, k) {
      forall k | 0 <= k < |lists|
        ensures Means(lists[k], Plain(adds[..k]))
      {
        RunMeans(numPorts, adds, lists, k);
      }
    }
    if forall k :: 0 <= k < |lists| ==> Means(lists[k], Plain(adds[..k])) {
      forall k: nat | k < |adds|
        ensures !StrandsAt(numPorts, adds, k)
      {
        assert StepOk(numPorts, adds, lists, k);
        PlainStep(adds, k);
        AddMeansIff(lists[k], lists[k + 1], Plain(adds[..k]), adds[k].0, adds[k].1, numPorts);
      }
    }
  }

  lemma {:induction false} PlainInRange<T>(adds: seq<(nat, T)>, numPorts: nat)
    requires forall i :: 0 <= i < |adds| ==> adds[i].0 <= numPorts
    ensures forall p :: p in Plain(adds) ==> p <= numPorts
  {
    if adds != [] {
      PlainInRange(adds[..|adds| - 1], numPorts);
    }
  }

  lemma InRangeSafe<T(!new)>(numPorts: nat, adds: seq<(nat, T)>)
    requires forall i :: 0 <= i < |adds| ==> adds[i].0 <= numPorts
    ensures forall k: nat :: k < |adds| ==> !StrandsAt(numPorts, adds, k)
  {
    forall k: nat | k < |adds|
      ensures !StrandsAt(numPorts, adds, k)
    {
      PlainInRange(adds[..k], numPorts);
    }
  }

  /** Two egress ports above the count share a table; when the first gets another
      table, the second is mapped to that one too. */
  method AboveCountLost<T(==, !new)>(numPorts: nat, other: T, table: T) returns (found: Option<T>)
    requires other != table
    ensures found == Some(table)
    ensures var m := Plain([(numPorts + 1, other), (numPorts + 2, other), (numPorts + 1, table)]);
            numPorts + 2 in m && m[numPorts + 2] == other
  {
    hide Means, Normal, Lookup;
    var a, b := numPorts + 1, numPorts + 2;
    var maps := new ScscMaps(numPorts);
    EmptyMeans<T>();
    ghost var l0 := maps.list;
    maps.Add(a, other);
    ghost var l1 := maps.list;
    AddMeansIff(l0, l1, map[], a, other, numPorts);
    maps.Add(b, other);
    ghost var l2, m1: map<nat, T> := maps.list, map[a := other];
    AddMeansIff(l1, l2, m1, b, other, numPorts);
    maps.Add(a, table);
    ghost var m2 := m1[b := other];
    assert m2[a] == m2[b] == other;
    MisjudgedIsStrands(l2, m2, a, table, numPorts);
    SharedLookup(l2, m2, a, b);
    found := maps.Find(b);
    PlainOfThree(a, b, other, table);
  }

  lemma SharedLookup<T(!new)>(list: seq<Entry<T>>, m: map<nat, T>, a: nat, b: nat)
    requires Means(list, m) && a in m && b in m && m[a] == m[b]
    ensures Lookup(list, a) == Lookup(list, b)
  {
  }

  lemma PlainOfThree<T>(a: nat, b: nat, other: T, table: T)
    requires a != b
    ensures b in Plain([(a, other), (b, other), (a, table)]) && Plain([(a, other), (b, other), (a, table)])[b] == other
  {
    var adds := [(a, other), (b, other), (a, table)];
    PlainStep(adds, 1);
    PlainStep(adds, 2);
    assert adds[..3] == adds;
  }
}
