/** The two forms of the LID index, an array with one slot per LID and a tree of
    ports searched by LID range, run side by side. */
module LidIndex {
  import opened Bits
  import opened Fabric

  const UCAST_END: nat := 0xbfff
  const MAX_LMC: nat := 7

  datatype PortState = Nop | Down | Init | Armed | Active

  /** What the index needs to know of a port; it stays fixed while registered. */
  datatype Entry = Entry(hasGuid: bool, isSwitchPort0: bool, lid: Lid, lmc: nat)

  type Database = map<PortId, Entry>

  datatype Status = FSuccess | FError | FDuplicate

  datatype Op = AddOp(port: PortId, state: PortState, force: bool) | RemoveOp(port: PortId, state: PortState)

  ghost predicate InRange(db: Database, p: PortId, lid: Lid) {
    p in db && db[p].lid <= lid <= LastLid(db[p].lid, db[p].lmc)
  }

  /** The ports that can get into the index. */
  predicate CanRegister(e: Entry) {
    e.hasGuid && e.lid <= UCAST_END
  }

  /** Base LIDs have their low LMC bits clear. */
  ghost predicate Aligned(db: Database) {
    forall p :: p in db && CanRegister(db[p]) ==> db[p].lmc <= MAX_LMC && db[p].lid % Pow2(db[p].lmc) == 0
  }

  /** Ranges are disjoint or the same. */
  ghost predicate Compatible(db: Database) {
    forall p, q, lid: Lid :: InRange(db, p, lid) && InRange(db, q, lid) && CanRegister(db[p]) && CanRegister(db[q]) ==>
      db[p].lid == db[q].lid && db[p].lmc == db[q].lmc
  }

  ghost predicate ValidDatabase(db: Database) {
    Aligned(db) && Compatible(db)
  }

  // ---- the array form ----

  /** slots with v at the LIDs first to last, none beyond the unicast range. */
  function Filled(slots: seq<Option<PortId>>, first: nat, last: nat, v: Option<PortId>): (filled: seq<Option<PortId>>)
    ensures |filled| == |slots|
    ensures forall i :: 0 <= i < |slots| ==> filled[i] == if first <= i <= last then v else slots[i]
  {
    seq(|slots|, i requires 0 <= i < |slots| => if first <= i <= last then v else slots[i])
  }

  function FindInArray(slots: seq<Option<PortId>>, lid: Lid): Option<PortId>
    requires |slots| == UCAST_END + 1
  {
    if lid > UCAST_END then None else slots[lid]
  }

  /** The ports AllLidsAdd takes in. */
  predicate Registers(e: Entry, state: PortState) {
    e.hasGuid && (state == Active || state == Armed || (e.isSwitchPort0 && state == Nop))
  }

  function ArrayAdd(slots: seq<Option<PortId>>, db: Database, p: PortId, state: PortState, force: bool): (r: (seq<Option<PortId>>, Status))
    requires |slots| == UCAST_END + 1 && p in db
    ensures |r.0| == |slots|
  {
    if !Registers(db[p], state) then (slots, FSuccess)
    else if db[p].lid > UCAST_END then (slots, FError)
    else
      var taken := slots[db[p].lid].Some? && slots[db[p].lid] != Some(p);
      if taken && !force then (slots, FDuplicate)
      else (Filled(slots, db[p].lid, LastLid(db[p].lid, db[p].lmc), Some(p)), if taken then FDuplicate else FSuccess)
  }

  function ArrayRemove(slots: seq<Option<PortId>>, db: Database, p: PortId, state: PortState): (r: seq<Option<PortId>>)
    requires |slots| == UCAST_END + 1 && p in db
    ensures |r| == |slots|
  {
    if !db[p].hasGuid then slots
    else if state != Armed && state != Active && FindInArray(slots, db[p].lid) != Some(p) then slots
    else Filled(slots, db[p].lid, LastLid(db[p].lid, db[p].lmc), None)
  }

  class ArrayForm {
    const slots: array<Option<PortId>>

    constructor ()
      ensures slots.Length == UCAST_END + 1 && fresh(slots) && forall i :: 0 <= i < slots.Length ==> slots[i] == None
    {
      slots := new Option<PortId>[UCAST_END + 1](_ => None);
    }

    method FillRange(first: nat, last: nat, v: Option<PortId>)
      requires slots.Length == UCAST_END + 1
      modifies slots
      ensures slots[..] == Filled(old(slots[..]), first, last, v)
    {
      var lid := first;
      while lid <= last && lid <= UCAST_END
        invariant first <= lid && (lid <= last + 1 || lid == first)
        invariant forall i :: 0 <= i < slots.Length ==> slots[i] == if first <= i < lid then v else old(slots[i])
        decreases UCAST_END + 1 - lid
      {
        slots[lid] := v;
        lid := lid + 1;
      }
    }

    method Add(db: Database, p: PortId, state: PortState, force: bool) returns (status: Status)
      requires slots.Length == UCAST_END + 1 && p in db
      modifies slots
      ensures (slots[..], status) == ArrayAdd(old(slots[..]), db, p, state, force)
    {
      if !Registers(db[p], state) {
        return FSuccess;
      }
      if db[p].lid > UCAST_END {
        return FError;
      }
      status := FSuccess;
      if slots[db[p].lid].Some? && slots[db[p].lid] != Some(p) {
        status := FDuplicate;
        if !force {
          return;
        }
      }
      FillRange(db[p].lid, LastLid(db[p].lid, db[p].lmc), Some(p));
    }

    method Remove(db: Database, p: PortId, state: PortState)
      requires slots.Length == UCAST_END + 1 && p in db
      modifies slots
      ensures slots[..] == ArrayRemove(old(slots[..]), db, p, state)
    {
      if db[p].hasGuid {
        if state != Armed && state != Active {
          var found := FindInArray(slots[..], db[p].lid);
          if found != Some(p) {
            return;
          }
        }
        FillRange(db[p].lid, LastLid(db[p].lid, db[p].lmc), None);
      }
    }
  }

  // ---- the tree form ----

  datatype Tree = Leaf | Fork(left: Tree, key: Lid, port: PortId, right: Tree)

  ghost function Entries(t: Tree): map<Lid, PortId> {
    match t
    case Leaf => map[]
    case Fork(l, k, p, r) => (Entries(l) + Entries(r))[k := p]
  }

  ghost predicate Ordered(t: Tree) {
    t.Fork? ==>
      && Ordered(t.left) && Ordered(t.right)
      && (forall k :: k in Entries(t.left) ==> k < t.key)
      && (forall k :: k in Entries(t.right) ==> k > t.key)
  }

  /** Descends by comparing the LID with the range of the port at each node. */
  function Search(t: Tree, db: Database, lid: Lid): Option<PortId> {
    match t
    case Leaf => None
    case Fork(l, k, p, r) =>
      if p !in db then None
      else if LastLid(db[p].lid, db[p].lmc) < lid then Search(r, db, lid)
      else if db[p].lid > lid then Search(l, db, lid)
      else Some(p)
  }

  /** index is keyed by the base LIDs of its ports. */
  ghost predicate Keyed(index: map<Lid, PortId>, db: Database) {
    forall k :: k in index ==> index[k] in db && db[index[k]].lid == k && CanRegister(db[index[k]])
  }

  /** The registered port, if any, whose range holds the LID. */
  ghost predicate Owns(index: map<Lid, PortId>, db: Database, lid: Lid, p: PortId) {
    exists k :: k in index && index[k] == p && InRange(db, p, lid)
  }

  lemma AlignedLast(lid: Lid, lmc: nat)
    requires lid % Pow2(lmc) == 0
    ensures LastLid(lid, lmc) == lid + Pow2(lmc) - 1
  {
    var size := Pow2(lmc);
    var n := lid / size;
    assert lid == n * size;
    OrIsSum(n, lmc, size - 1);
  }

  lemma OwnBase(db: Database, p: PortId)
    requires Aligned(db) && p in db && CanRegister(db[p])
    ensures InRange(db, p, db[p].lid)
  {
    AlignedLast(db[p].lid, db[p].lmc);
  }

  /** Ports ordered by base LID have their ranges in that order too. */
  lemma RangesOrdered(db: Database, p: PortId, q: PortId, lid: Lid)
    requires ValidDatabase(db) && p in db && InRange(db, q, lid) && CanRegister(db[p]) && CanRegister(db[q])
    ensures db[q].lid < db[p].lid ==> lid < db[p].lid
    ensures db[q].lid > db[p].lid ==> lid > LastLid(db[p].lid, db[p].lmc)
  {
    OwnBase(db, p);
    OwnBase(db, q);
    assert InRange(db, q, db[p].lid) ==> db[q].lid == db[p].lid;
    assert InRange(db, p, lid) ==> db[q].lid == db[p].lid;
  }

  /** Whatever its shape, an ordered tree finds exactly the owner of a LID. */
  lemma {:induction false} SearchFindsOwner(t: Tree, db: Database, lid: Lid)
    requires Ordered(t) && Keyed(Entries(t), db) && ValidDatabase(db)
    ensures forall p: PortId :: Search(t, db, lid) == Some(p) <==> Owns(Entries(t), db, lid, p)
  {
    hide ValidDatabase, InRange;
    if t.Fork? {
      var all, l, r := Entries(t), Entries(t.left), Entries(t.right);
      assert forall k :: k in l ==> k in all && all[k] == l[k];
      assert forall k :: k in r ==> k in all && all[k] == r[k];
      assert t.key in all && all[t.key] == t.port;
      SearchFindsOwner(t.left, db, lid);
      SearchFindsOwner(t.right, db, lid);
      forall p: PortId
        ensures Search(t, db, lid) == Some(p) <==> Owns(all, db, lid, p)
      {
        SearchStep(t, db, lid, p);
      }
    }
  }

  lemma SearchStep(t: Tree, db: Database, lid: Lid, p: PortId)
    requires t.Fork? && Ordered(t) && Keyed(Entries(t), db) && ValidDatabase(db)
    requires Search(t.left, db, lid) == Some(p) <==> Owns(Entries(t.left), db, lid, p)
    requires Search(t.right, db, lid) == Some(p) <==> Owns(Entries(t.right), db, lid, p)
    ensures Search(t, db, lid) == Some(p) <==> Owns(Entries(t), db, lid, p)
  {
    hide Aligned, Compatible;
    var all := Entries(t);
    assert all[t.key] == t.port && t.port in db && db[t.port].lid == t.key;
    if Owns(all, db, lid, p) {
      var k :| k in all && all[k] == p && InRange(db, p, lid);
      RangesOrdered(db, t.port, p, lid);
      OwnBase(db, t.port);
      if k < t.key {
        assert k in Entries(t.left) && Entries(t.left)[k] == p;
      } else if k > t.key {
        assert k in Entries(t.right) && Entries(t.right)[k] == p;
      }
    }
    if Search(t, db, lid) == Some(p) {
      if LastLid(db[t.port].lid, db[t.port].lmc) < lid {
        var k :| k in Entries(t.right) && Entries(t.right)[k] == p && InRange(db, p, lid);
        assert k in all && all[k] == p;
      } else if db[t.port].lid > lid {
        var k :| k in Entries(t.left) && Entries(t.left)[k] == p && InRange(db, p, lid);
        assert k in all && all[k] == p;
      } else {
        assert all[t.key] == p && InRange(db, p, lid);
      }
    }
  }

  // ---- runs over both forms ----

  /** The tree form: insertion under a taken key keeps the old entry unless forced. */
  function TreeAdd(index: map<Lid, PortId>, db: Database, p: PortId, state: PortState, force: bool): (map<Lid, PortId>, Status)
    requires p in db
  {
    if !Registers(db[p], state) then (index, FSuccess)
    else if db[p].lid > UCAST_END then (index, FError)
    else if db[p].lid in index && index[db[p].lid] != p then
      (if force then index[db[p].lid := p] else index, FDuplicate)
    else (index[db[p].lid := p], FSuccess)
  }

  ghost function TreeRemove(index: map<Lid, PortId>, db: Database, p: PortId, state: PortState): map<Lid, PortId>
    requires p in db
  {
    if !db[p].hasGuid then index
    else if state != Armed && state != Active && !Owns(index, db, db[p].lid, p) then index
    else index - {db[p].lid}
  }

  /** An armed or active port is only removed while it is registered. */
  ghost predicate Sound(index: map<Lid, PortId>, db: Database, op: Op) {
    && op.port in db
    && (op.RemoveOp? && db[op.port].hasGuid && (op.state == Armed || op.state == Active) ==>
          db[op.port].lid in index && index[db[op.port].lid] == op.port)
  }

  /** Both forms hold the same ports. */
  ghost predicate Agree(slots: seq<Option<PortId>>, index: map<Lid, PortId>, db: Database) {
    && |slots| == UCAST_END + 1
    && Keyed(index, db)
    && forall lid: Lid, p: PortId :: lid <= UCAST_END ==> (slots[lid] == Some(p) <==> Owns(index, db, lid, p))
  }

  ghost function StepArray(slots: seq<Option<PortId>>, db: Database, op: Op): (r: seq<Option<PortId>>)
    requires |slots| == UCAST_END + 1 && op.port in db
    ensures |r| == |slots|
  {
    match op
    case AddOp(p, state, force) => ArrayAdd(slots, db, p, state, force).0
    case RemoveOp(p, state) => ArrayRemove(slots, db, p, state)
  }

  ghost function StepTree(index: map<Lid, PortId>, db: Database, op: Op): map<Lid, PortId>
    requires op.port in db
  {
    match op
    case AddOp(p, state, force) => TreeAdd(index, db, p, state, force).0
    case RemoveOp(p, state) => TreeRemove(index, db, p, state)
  }

  /** Aligned unicast ranges do not reach past the unicast LIDs. */
  lemma StaysUnicast(lid: Lid, lmc: nat)
    requires lid <= UCAST_END && lmc <= MAX_LMC && lid % Pow2(lmc) == 0
    ensures LastLid(lid, lmc) <= UCAST_END
  {
    AlignedLast(lid, lmc);
    var size := Pow2(lmc);
    SmallPower(lmc);
    hide Pow2;
    if size == 1 || size == 2 || size == 4 || size == 8 {
    } else if size == 16 || size == 32 {
    } else {
      assert size == 64 || size == 128;
    }
  }

  lemma SmallPower(lmc: nat)
    requires lmc <= MAX_LMC
    ensures Pow2(lmc) in {1, 2, 4, 8, 16, 32, 64, 128}
  {
    assert Pow2(0) == 1 && Pow2(1) == 2 && Pow2(2) == 4 && Pow2(3) == 8;
    assert Pow2(4) == 16 && Pow2(5) == 32 && Pow2(6) == 64 && Pow2(7) == 128;
  }

  /** Putting q in, over whatever is registered under its base LID, or taking it
      out changes ownership of exactly the range of q. */
  lemma OwnsUpdate(index: map<Lid, PortId>, db: Database, lid: Lid, p: PortId, q: PortId)
    requires ValidDatabase(db) && Keyed(index, db) && q in db && CanRegister(db[q])
    ensures Owns(index[db[q].lid := q], db, lid, p) <==> if InRange(db, q, lid) then p == q else Owns(index, db, lid, p)
    ensures db[q].lid in index && index[db[q].lid] == q ==>
              (Owns(index - {db[q].lid}, db, lid, p) <==> !InRange(db, q, lid) && Owns(index, db, lid, p))
  {
    var base := db[q].lid;
    var more, less := index[base := q], index - {base};
    SameRange(index, db, lid, q);
    hide ValidDatabase;
    if k :| k in index && index[k] == p && InRange(db, p, lid) {
      assert k != base ==> k in more && more[k] == p && k in less && less[k] == p;
    }
    if InRange(db, q, lid) {
      assert more[base] == q;
    }
  }

  /** A port registered under the base LID of q has the range of q, and no other
      registered port has a LID in it. */
  lemma SameRange(index: map<Lid, PortId>, db: Database, lid: Lid, q: PortId)
    requires ValidDatabase(db) && Keyed(index, db) && q in db && CanRegister(db[q])
    ensures db[q].lid in index ==> (InRange(db, index[db[q].lid], lid) <==> InRange(db, q, lid))
    ensures InRange(db, q, lid) ==> forall k :: k in index && InRange(db, index[k], lid) ==> k == db[q].lid
  {
    OwnBase(db, q);
    if db[q].lid in index {
      OwnBase(db, index[db[q].lid]);
    }
  }

  /** The slot of the base LID tells whether another port is registered there. */
  lemma SlotTells(slots: seq<Option<PortId>>, index: map<Lid, PortId>, db: Database, p: PortId)
    requires ValidDatabase(db) && Agree(slots, index, db) && p in db && CanRegister(db[p])
    ensures slots[db[p].lid] == if db[p].lid in index then Some(index[db[p].lid]) else None
  {
    var base := db[p].lid;
    OwnBase(db, p);
    SameRange(index, db, base, p);
    hide ValidDatabase;
    if base in index {
      assert Owns(index, db, base, index[base]);
    }
    if slots[base].Some? {
      assert Owns(index, db, base, slots[base].value);
    }
  }

  /** Every operation keeps the two forms in agreement. */
  lemma StepAgrees(slots: seq<Option<PortId>>, index: map<Lid, PortId>, db: Database, op: Op)
    requires ValidDatabase(db) && Agree(slots, index, db) && Sound(index, db, op)
    ensures Agree(StepArray(slots, db, op), StepTree(index, db, op), db)
    ensures op.AddOp? ==> ArrayAdd(slots, db, op.port, op.state, op.force).1 == TreeAdd(index, db, op.port, op.state, op.force).1
  {
    var p := op.port;
    if CanRegister(db[p]) {
      var base: Lid := db[p].lid;
      OwnBase(db, p);
      SlotTells(slots, index, db, p);
      assert Owns(index, db, base, p) <==> slots[base] == Some(p);
      hide ValidDatabase;
      forall lid: Lid, q: PortId | lid <= UCAST_END
        ensures StepArray(slots, db, op)[lid] == Some(q) <==> Owns(StepTree(index, db, op), db, lid, q)
      {
        OwnsUpdate(index, db, lid, q, p);
      }
    }
  }

  /** A run of operations, each sound where it happens. */
  ghost predicate SoundRun(index: map<Lid, PortId>, db: Database, ops: seq<Op>)
    decreases |ops|
  {
    ops == [] || (Sound(index, db, ops[0]) && SoundRun(StepTree(index, db, ops[0]), db, ops[1..]))
  }

  ghost function RunArray(slots: seq<Option<PortId>>, db: Database, ops: seq<Op>): (r: seq<Option<PortId>>)
    requires |slots| == UCAST_END + 1 && forall i :: 0 <= i < |ops| ==> ops[i].port in db
    ensures |r| == |slots|
    decreases |ops|
  {
    if ops == [] then slots else RunArray(StepArray(slots, db, ops[0]), db, ops[1..])
  }

  ghost function RunTree(index: map<Lid, PortId>, db: Database, ops: seq<Op>): map<Lid, PortId>
    requires forall i :: 0 <= i < |ops| ==> ops[i].port in db
    decreases |ops|
  {
    if ops == [] then index else RunTree(StepTree(index, db, ops[0]), db, ops[1..])
  }

  /** After any run, and for a tree of any shape, both forms find the same port:
      the registered one whose range holds the LID. */
  lemma {:induction false} FormsAgree(slots: seq<Option<PortId>>, index: map<Lid, PortId>, db: Database, ops: seq<Op>, t: Tree, lid: Lid)
    requires ValidDatabase(db) && Agree(slots, index, db) && SoundRun(index, db, ops)
    requires forall i :: 0 <= i < |ops| ==> ops[i].port in db
    requires Ordered(t) && Entries(t) == RunTree(index, db, ops)
    ensures |RunArray(slots, db, ops)| == UCAST_END + 1
    ensures FindInArray(RunArray(slots, db, ops), lid) == Search(t, db, lid)
    ensures forall p: PortId :: Search(t, db, lid) == Some(p) <==> Owns(Entries(t), db, lid, p)
    decreases |ops|
  {
    if ops == [] {
      SearchFindsOwner(t, db, lid);
      BothFind(slots, index, db, t, lid);
    } else {
      StepAgrees(slots, index, db, ops[0]);
      FormsAgree(StepArray(slots, db, ops[0]), StepTree(index, db, ops[0]), db, ops[1..], t, lid);
    }
  }

  lemma BothFind(slots: seq<Option<PortId>>, index: map<Lid, PortId>, db: Database, t: Tree, lid: Lid)
    requires ValidDatabase(db) && Agree(slots, index, db)
    requires forall p: PortId :: Search(t, db, lid) == Some(p) <==> Owns(index, db, lid, p)
    ensures FindInArray(slots, lid) == Search(t, db, lid)
  {
    var found := Search(t, db, lid);
    if found.Some? {
      var p := found.value;
      var k :| k in index && index[k] == p && InRange(db, p, lid);
      StaysUnicast(k, db[p].lmc);
    } else if lid <= UCAST_END && slots[lid].Some? {
      assert Owns(index, db, lid, slots[lid].value);
    }
  }

  // ---- which ports are registered ----

  /** An addition that counts: of a port with a GUID and unicast base LID k that is armed
      or active, or is port 0 of a switch in state Nop. */
  ghost predicate Counts(db: Database, op: Op, k: Lid)
    requires op.port in db
  {
    && op.AddOp? && db[op.port].hasGuid && db[op.port].lid == k <= 0xbfff
    && match op.state
       case Armed => true
       case Active => true
       case Nop => db[op.port].isSwitchPort0
       case Down => false
       case Init => false
  }

  /** Such an addition of p takes LID k if it is forced or no other port is there. */
  ghost predicate Takes(db: Database, index: map<Lid, PortId>, op: Op, k: Lid, p: PortId)
    requires op.port in db
  {
    op.port == p && Counts(db, op, k) && (op.force || k !in index || index[k] == p)
  }

  /** A removal of p, or a forced addition of another port at its LID. */
  ghost predicate Ousts(db: Database, op: Op, k: Lid, p: PortId)
    requires op.port in db
  {
    (op.RemoveOp? && op.port == p) || (op.port != p && Counts(db, op, k) && op.force)
  }

  lemma StepRegisters(index: map<Lid, PortId>, db: Database, op: Op, k: Lid, p: PortId)
    requires Aligned(db) && Keyed(index, db) && Sound(index, db, op)
    ensures Keyed(StepTree(index, db, op), db)
    ensures var next := StepTree(index, db, op);
            k in next && next[k] == p <==> Takes(db, index, op, k, p) || (k in index && index[k] == p && !Ousts(db, op, k, p))
  {
    if CanRegister(db[op.port]) {
      OwnBase(db, op.port);
    }
    hide Aligned;
  }

  ghost predicate AllKnown(db: Database, ops: seq<Op>) {
    forall i :: 0 <= i < |ops| ==> ops[i].port in db
  }

  lemma {:induction false} RunLast(index: map<Lid, PortId>, db: Database, ops: seq<Op>, op: Op)
    requires AllKnown(db, ops + [op])
    ensures AllKnown(db, ops) && op.port in db
    ensures RunTree(index, db, ops + [op]) == StepTree(RunTree(index, db, ops), db, op)
    ensures SoundRun(index, db, ops + [op]) <==> SoundRun(index, db, ops) && Sound(RunTree(index, db, ops), db, op)
    decreases |ops|
  {
    assert (ops + [op])[|ops|] == op;
    assert forall i :: 0 <= i < |ops| ==> (ops + [op])[i] == ops[i];
    hide StepTree, Sound;
    if ops == [] {
      assert (ops + [op])[1..] == [];
    } else {
      assert (ops + [op])[1..] == ops[1..] + [op];
      RunLast(StepTree(index, db, ops[0]), db, ops[1..], op);
    }
  }

  /** Operation i of the run took LID k for p, and none since ousted p. */
  ghost predicate HoldsSince(db: Database, ops: seq<Op>, i: nat, k: Lid, p: PortId)
    requires AllKnown(db, ops) && i < |ops|
  {
    Takes(db, RunTree(map[], db, ops[..i]), ops[i], k, p) && forall j :: i < j < |ops| ==> !Ousts(db, ops[j], k, p)
  }

  ghost predicate Registered(db: Database, ops: seq<Op>, k: Lid, p: PortId)
    requires AllKnown(db, ops)
  {
    exists i: nat :: i < |ops| && HoldsSince(db, ops, i, k, p)
  }

  /** After a run from the empty index, the ports registered are those that took their
      LID and were not ousted since. */
  lemma {:induction false} RegisteredIff(db: Database, ops: seq<Op>, k: Lid, p: PortId)
    requires Aligned(db) && AllKnown(db, ops) && SoundRun(map[], db, ops)
    ensures var index := RunTree(map[], db, ops);
            Keyed(index, db) && (k in index && index[k] == p <==> Registered(db, ops, k, p))
  {
    hide SoundRun, RunTree, Takes, Ousts, Keyed, Aligned, Sound;
    if ops == [] {
      RunNone(db);
    } else {
      var before, op := ops[..|ops| - 1], ops[|ops| - 1];
      assert ops == before + [op];
      RunLast(map[], db, before, op);
      RegisteredIff(db, before, k, p);
      StepRegisters(RunTree(map[], db, before), db, op, k, p);
      RegisteredLast(db, before, op, k, p);
    }
  }

  lemma RunNone(db: Database)
    ensures RunTree(map[], db, []) == map[] && Keyed(map[], db)
  {
  }

  lemma RegisteredLast(db: Database, ops: seq<Op>, op: Op, k: Lid, p: PortId)
    requires AllKnown(db, ops + [op]) && AllKnown(db, ops) && op.port in db
    ensures Registered(db, ops + [op], k, p) <==>
              Takes(db, RunTree(map[], db, ops), op, k, p) || (Registered(db, ops, k, p) && !Ousts(db, op, k, p))
  {
    hide RunTree, Takes, Ousts;
    var all := ops + [op];
    assert all[..|ops|] == ops && all[|ops|] == op;
    forall i: nat | i < |ops|
      ensures HoldsSince(db, all, i, k, p) <==> HoldsSince(db, ops, i, k, p) && !Ousts(db, op, k, p)
    {
      assert all[..i] == ops[..i];
      assert forall j :: 0 <= j < |ops| ==> all[j] == ops[j];
    }
    assert HoldsSince(db, all, |ops|, k, p) <==> Takes(db, RunTree(map[], db, ops), op, k, p);
  }

  // ---- which databases are safe ----

  ghost function Empty(): (slots: seq<Option<PortId>>)
    ensures |slots| == UCAST_END + 1 && forall i :: 0 <= i < |slots| ==> slots[i] == None
  {
    seq(UCAST_END + 1, _ => None)
  }

  /** A run from the empty index, and a tree that holds what the tree form has then. */
  ghost predicate Legal(db: Database, ops: seq<Op>, t: Tree) {
    && (forall i :: 0 <= i < |ops| ==> ops[i].port in db)
    && SoundRun(map[], db, ops) && Ordered(t) && Entries(t) == RunTree(map[], db, ops)
  }

  ghost predicate SameFind(db: Database, ops: seq<Op>, t: Tree, lid: Lid)
    requires forall i :: 0 <= i < |ops| ==> ops[i].port in db
  {
    FindInArray(RunArray(Empty(), db, ops), lid) == Search(t, db, lid)
  }

  /** The forms give the same answers on all runs exactly if the ranges of the ports
      that can register are pairwise disjoint or the same. */
  lemma AgreeIffCompatible(db: Database)
    requires Aligned(db)
    ensures (forall ops: seq<Op>, t: Tree, lid: Lid :: Legal(db, ops, t) ==> SameFind(db, ops, t, lid)) <==> Compatible(db)
  {
    hide SameFind, SoundRun, RunTree, Ordered, Aligned, Compatible;
    if Compatible(db) {
      forall ops: seq<Op>, t: Tree, lid: Lid | Legal(db, ops, t)
        ensures SameFind(db, ops, t, lid)
      {
        CompatibleAgrees(db, ops, t, lid);
      }
    } else {
      var ops, t, lid := Separated(db);
    }
  }

  lemma CompatibleAgrees(db: Database, ops: seq<Op>, t: Tree, lid: Lid)
    requires ValidDatabase(db) && Legal(db, ops, t)
    ensures SameFind(db, ops, t, lid)
  {
    assert Agree(Empty(), map[], db);
    FormsAgree(Empty(), map[], db, ops, t, lid);
  }

  /** Otherwise some run separates them. */
  lemma Separated(db: Database) returns (ops: seq<Op>, t: Tree, lid: Lid)
    requires Aligned(db) && !Compatible(db)
    ensures Legal(db, ops, t) && !SameFind(db, ops, t, lid)
  {
    var p, q, x: Lid :| InRange(db, p, x) && InRange(db, q, x) && CanRegister(db[p]) && CanRegister(db[q])
                        && !(db[p].lid == db[q].lid && db[p].lmc == db[q].lmc);
    hide SameFind, SoundRun, RunTree, Ordered, Aligned;
    if db[p].lid < db[q].lid {
      ops, t, lid := NestedSeparates(db, p, q);
    } else if db[q].lid < db[p].lid {
      ops, t, lid := NestedSeparates(db, q, p);
    } else if db[p].lmc < db[q].lmc {
      ops, t, lid := SameBaseSeparates(db, p, q);
    } else {
      ops, t, lid := SameBaseSeparates(db, q, p);
    }
  }

  lemma OneEntry(k: Lid, p: PortId)
    ensures Ordered(Fork(Leaf, k, p, Leaf)) && Entries(Fork(Leaf, k, p, Leaf)) == map[k := p]
  {
    assert Entries(Leaf) == map[];
  }

  /** The base LID of q lies in the range of p: adding both and removing q clears it
      in the array, while the tree still finds p there. */
  lemma NestedSeparates(db: Database, p: PortId, q: PortId) returns (ops: seq<Op>, t: Tree, lid: Lid)
    requires p in db && q in db && CanRegister(db[p]) && CanRegister(db[q]) && Aligned(db)
    requires db[p].lid < db[q].lid && InRange(db, p, db[q].lid)
    ensures Legal(db, ops, t) && !SameFind(db, ops, t, lid)
  {
    OwnBase(db, q);
    OneEntry(db[p].lid, p);
    ops := [AddOp(p, Active, false), AddOp(q, Active, false), RemoveOp(q, Active)];
    t, lid := Fork(Leaf, db[p].lid, p, Leaf), db[q].lid;
    assert ops[1..] == [ops[1], ops[2]] && ops[1..][1..] == [ops[2]] && ops[1..][1..][1..] == [];
    var i1 := StepTree(map[], db, ops[0]);
    var i2 := StepTree(i1, db, ops[1]);
    assert i1 == map[db[p].lid := p] && i2 == i1[db[q].lid := q];
    assert StepTree(i2, db, ops[2]) == map[db[p].lid := p];
    RunThree(Empty(), map[], db, ops);
    hide Filled, RunArray, RunTree, SoundRun;
    var a2 := StepArray(StepArray(Empty(), db, ops[0]), db, ops[1]);
    assert StepArray(a2, db, ops[2])[lid] == None;
  }

  lemma RunTwo(slots: seq<Option<PortId>>, index: map<Lid, PortId>, db: Database, ops: seq<Op>)
    requires |slots| == UCAST_END + 1 && |ops| == 2 && forall i :: 0 <= i < |ops| ==> ops[i].port in db
    ensures RunArray(slots, db, ops) == StepArray(StepArray(slots, db, ops[0]), db, ops[1])
    ensures Sound(index, db, ops[0]) ==>
              var i1 := StepTree(index, db, ops[0]);
              && RunTree(index, db, ops) == StepTree(i1, db, ops[1])
              && (SoundRun(index, db, ops) <==> Sound(i1, db, ops[1]))
  {
    hide StepArray, StepTree;
    var one := ops[1..];
    assert one[0] == ops[1] && one[1..] == [];
    var s1, i1 := StepArray(slots, db, ops[0]), StepTree(index, db, ops[0]);
    assert RunArray(s1, db, one) == RunArray(StepArray(s1, db, one[0]), db, one[1..]);
    assert RunTree(i1, db, one) == RunTree(StepTree(i1, db, one[0]), db, one[1..]);
    assert SoundRun(i1, db, one) <==> Sound(i1, db, one[0]) && SoundRun(StepTree(i1, db, one[0]), db, one[1..]);
  }

  lemma RunThree(slots: seq<Option<PortId>>, index: map<Lid, PortId>, db: Database, ops: seq<Op>)
    requires |slots| == UCAST_END + 1 && |ops| == 3 && forall i :: 0 <= i < |ops| ==> ops[i].port in db
    ensures RunArray(slots, db, ops) == StepArray(StepArray(StepArray(slots, db, ops[0]), db, ops[1]), db, ops[2])
    ensures Sound(index, db, ops[0]) && Sound(StepTree(index, db, ops[0]), db, ops[1]) ==>
              var i2 := StepTree(StepTree(index, db, ops[0]), db, ops[1]);
              && RunTree(index, db, ops) == StepTree(i2, db, ops[2])
              && (SoundRun(index, db, ops) <==> Sound(i2, db, ops[2]))
  {
    hide StepArray, StepTree;
    RunTwo(StepArray(slots, db, ops[0]), StepTree(index, db, ops[0]), db, ops[1..]);
  }

  lemma {:induction false} PowerGrows(a: nat, b: nat)
    requires a < b
    ensures Pow2(a) < Pow2(b)
  {
    if a < b - 1 {
      PowerGrows(a, b - 1);
    }
  }

  /** Two ports with one base LID, q with more LIDs: forcing p in over q leaves the
      last LIDs of q in the array, while the tree has forgotten q. */
  lemma SameBaseSeparates(db: Database, p: PortId, q: PortId) returns (ops: seq<Op>, t: Tree, lid: Lid)
    requires p in db && q in db && CanRegister(db[p]) && CanRegister(db[q]) && Aligned(db)
    requires db[p].lid == db[q].lid && db[p].lmc < db[q].lmc
    ensures Legal(db, ops, t) && !SameFind(db, ops, t, lid)
  {
    hide Filled, RunArray, RunTree, SoundRun, Pow2, LastLid, ArrayRemove, TreeRemove;
    OneEntry(db[p].lid, p);
    OwnBase(db, q);
    AlignedLast(db[p].lid, db[p].lmc);
    AlignedLast(db[q].lid, db[q].lmc);
    PowerGrows(db[p].lmc, db[q].lmc);
    StaysUnicast(db[q].lid, db[q].lmc);
    ops := [AddOp(q, Active, false), AddOp(p, Active, true)];
    t, lid := Fork(Leaf, db[p].lid, p, Leaf), LastLid(db[q].lid, db[q].lmc);
    var i1 := StepTree(map[], db, ops[0]);
    assert i1 == map[db[q].lid := q];
    assert StepTree(i1, db, ops[1]) == map[db[p].lid := p];
    RunTwo(Empty(), map[], db, ops);
    var a1 := StepArray(Empty(), db, ops[0]);
    assert a1[lid] == Some(q);
    assert StepArray(a1, db, ops[1])[lid] == Some(q);
    assert LastLid(db[p].lid, db[p].lmc) < lid;
    assert Search(Leaf, db, lid) == None && Search(t, db, lid) == None;
  }
}
