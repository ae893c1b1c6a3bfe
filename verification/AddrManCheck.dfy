/**
 What the self-check of the address manager accepts, and how that relates to the invariant
 of AddrManSpec: the check does not look at the id counter or for stale addresses.
 */
module AddrManCheck {
  import opened AddrManSpec

  /** Reading mapAddr gives 0 for an address it does not have. */
  function Lookup(addr: map<NetAddr, int>, a: NetAddr): int {
    if a in addr then addr[a] else 0
  }

  /** Lookups may enter an address, but no lookup changes its result by that. */
  ghost predicate SameLookups(addr: map<NetAddr, int>, addr': map<NetAddr, int>) {
    addr.Keys <= addr'.Keys && forall a :: Lookup(addr', a) == Lookup(addr, a)
  }

  predicate EntryPasses(s: State, id: int)
    requires id in s.info
  {
    var i := s.info[id];
    && (if i.inTried then i.refCount == 0 else 1 <= i.refCount <= NEW_BUCKETS_PER_ADDRESS)
    && Lookup(s.addr, i.service.addr) == id
    && 0 <= i.randomPos < |s.random| && s.random[i.randomPos] == id
    && StampsOk(i)
  }

  /** A slot of the new table passes only with an entry that is not tried. */
  ghost predicate NewHeld(h: Hasher, s: State, x: Slot)
    requires x in s.newTable
  {
    NewSlotOk(h, s, x) && !s.info[s.newTable[x]].inTried
  }

  /** An entry is in every slot it should be in. */
  ghost predicate Placed(h: Hasher, s: State, id: int)
    requires id in s.info
  {
    var i, x := s.info[id], h.TriedSlot(s.info[id].service);
    if i.inTried then x in s.triedTable && s.triedTable[x] == id
    else |Slots(s.newTable, id)| == i.refCount
  }

  ghost predicate EntriesPass(s: State) {
    forall id {:trigger EntryPasses(s, id)} :: id in s.info ==> EntryPasses(s, id)
  }

  ghost predicate TablesPass(h: Hasher, s: State) {
    && (forall x {:trigger TriedSlotOk(h, s, x)} :: x in s.triedTable ==> TriedSlotOk(h, s, x))
    && (forall x {:trigger NewHeld(h, s, x)} :: x in s.newTable ==> NewHeld(h, s, x))
    && (forall id {:trigger Placed(h, s, id)} :: id in s.info ==> Placed(h, s, id))
  }

  predicate CountsPass(s: State) { |TriedIds(s)| == s.nTried && |NewIds(s, {})| == s.nNew }

  ghost predicate Passes(h: Hasher, s: State) {
    |s.random| == s.nTried + s.nNew && EntriesPass(s) && CountsPass(s) && TablesPass(h, s)
  }

  /** What the check leaves out: the range of the ids, stale addresses, and a missing address of id 0. */
  ghost predicate BeyondCheck(s: State) {
    && s.idCount >= 0
    && (forall id :: id in s.info ==> 0 <= id < s.idCount)
    && (forall a {:trigger AddrOk(s, a)} :: a in s.addr ==> AddrOk(s, a))
    && (0 in s.info ==> s.info[0].service.addr in s.addr)
  }

  /** The references of the entries that are not tried. */
  function Refs(s: State): map<int, int> { map id | id in NewIds(s, {}) :: s.info[id].refCount }

  ghost predicate AddrsKnown(s: State) { forall id :: id in s.info ==> s.info[id].service.addr in s.addr }

  /** The entries outside todo have passed and are gathered by kind. */
  ghost predicate Gathered(s: State, todo: set<int>, tried: set<int>, refs: map<int, int>) {
    && (forall id {:trigger EntryPasses(s, id)} :: id in s.info && id !in todo ==> EntryPasses(s, id))
    && tried == TriedIds(s) - todo
    && refs == Refs(s) - todo
  }

  lemma GatheredNext(s: State, todo: set<int>, tried: set<int>, refs: map<int, int>, n: int)
    requires Gathered(s, todo, tried, refs) && n in todo && n in s.info && EntryPasses(s, n)
    ensures s.info[n].inTried ==> Gathered(s, todo - {n}, tried + {n}, refs)
    ensures !s.info[n].inTried ==> Gathered(s, todo - {n}, tried, refs[n := s.info[n].refCount])
  {
  }

  lemma GatheredNone(s: State)
    ensures Gathered(s, s.info.Keys, {}, map[])
  {
    assert Refs(s).Keys == NewIds(s, {});
    assert forall id :: id !in Refs(s) - s.info.Keys;
  }

  lemma GatheredAll(s: State, tried: set<int>, refs: map<int, int>)
    requires Gathered(s, {}, tried, refs)
    ensures EntriesPass(s) && tried == TriedIds(s) && refs == Refs(s)
  {
  }

  lemma LookupsPass(s: State, s': State, id: int)
    requires s' == s.(addr := s'.addr) && SameLookups(s.addr, s'.addr) && id in s.info
    ensures EntryPasses(s', id) <==> EntryPasses(s, id)
  {
  }

  // ----- The check against the invariant -----

  lemma Parted(s: State)
    ensures |TriedIds(s)| + |NewIds(s, {})| == |s.info.Keys|
  {
    assert TriedIds(s) + NewIds(s, {}) == s.info.Keys;
    assert TriedIds(s) !! NewIds(s, {});
  }

  /** Different ids at different positions fill the order when there are as many. */
  lemma {:induction false} Fill(order: seq<int>, ids: set<int>)
    requires |order| == |ids|
    requires forall id :: id in ids ==> id in order
    ensures forall p :: 0 <= p < |order| ==> order[p] in ids
    ensures forall p, q :: 0 <= p < q < |order| ==> order[p] != order[q]
    decreases |order|
  {
    if order == [] {
    } else {
      var last, rest := order[|order| - 1], order[..|order| - 1];
      assert order == rest + [last];
      if last in ids && last !in rest {
        Fill(rest, ids - {last});
      } else {
        TooFew(rest, ids);
      }
    }
  }

  lemma {:induction false} TooFew(order: seq<int>, ids: set<int>)
    requires forall id :: id in ids ==> id in order
    ensures |ids| <= |order|
    decreases |order|
  {
    if order == [] {
      assert forall id :: id !in ids;
    } else {
      var last, rest := order[|order| - 1], order[..|order| - 1];
      assert order == rest + [last];
      TooFew(rest, ids - {last});
    }
  }

  lemma PassesIndexed(s: State)
    requires |s.random| == s.nTried + s.nNew && EntriesPass(s) && CountsPass(s) && BeyondCheck(s)
    ensures Indexed(s)
  {
    Parted(s);
    forall id | id in s.info ensures IdOk(s, id) && id in s.random { assert EntryPasses(s, id); }
    Fill(s.random, s.info.Keys);
    forall p | 0 <= p < |s.random| ensures PosOk(s, p) { assert EntryPasses(s, s.random[p]); }
  }

  lemma TriedNowhereNew(h: Hasher, s: State, id: int)
    requires id in s.info && s.info[id].inTried
    requires forall x {:trigger NewHeld(h, s, x)} :: x in s.newTable ==> NewHeld(h, s, x)
    ensures Slots(s.newTable, id) == {}
  {
    forall x | x in s.newTable ensures s.newTable[x] != id { assert NewHeld(h, s, x); }
  }

  lemma PassesListed(h: Hasher, s: State)
    requires EntriesPass(s) && CountsPass(s) && TablesPass(h, s)
    ensures Listed(h, s, {}, 0)
  {
    forall x | x in s.newTable ensures NewSlotOk(h, s, x) { assert NewHeld(h, s, x); }
    forall id | id in s.info ensures EntryOk(h, s, {}, id) {
      assert EntryPasses(s, id) && Placed(h, s, id);
      if s.info[id].inTried { TriedNowhereNew(h, s, id); }
    }
  }

  lemma ListedPasses(h: Hasher, s: State)
    requires Listed(h, s, {}, 0)
    ensures CountsPass(s) && TablesPass(h, s)
  {
    forall x | x in s.newTable ensures NewHeld(h, s, x) {
      assert NewSlotOk(h, s, x) && EntryOk(h, s, {}, s.newTable[x]);
      assert x in Slots(s.newTable, s.newTable[x]);
    }
    forall id | id in s.info ensures Placed(h, s, id) { assert EntryOk(h, s, {}, id); }
  }

  /** The invariant is what the check accepts together with the few things it does not look at. */
  lemma CheckExact(h: Hasher, s: State)
    ensures Consistent(h, s) <==> Passes(h, s) && BeyondCheck(s)
  {
    if Consistent(h, s) {
      Parted(s);
      ListedPasses(h, s);
      forall id | id in s.info ensures EntryPasses(s, id) && 0 <= id < s.idCount && s.info[id].service.addr in s.addr {
        assert IdOk(s, id) && EntryOk(h, s, {}, id);
      }
    }
    if Passes(h, s) && BeyondCheck(s) {
      PassesIndexed(s);
      PassesListed(h, s);
    }
  }

  lemma ConsistentKnown(h: Hasher, s: State)
    ensures Consistent(h, s) ==> AddrsKnown(s)
  {
    if Consistent(h, s) {
      forall id | id in s.info ensures s.info[id].service.addr in s.addr { assert IdOk(s, id); }
    }
  }

  /** A stale address goes unnoticed. */
  lemma StaleUnnoticed(h: Hasher, a: NetAddr, id: int)
    ensures var s := EMPTY.(addr := map[a := id]); Passes(h, s) && !Consistent(h, s)
  {
    var s := EMPTY.(addr := map[a := id]);
    assert TriedIds(s) == {} && NewIds(s, {}) == {};
    assert !AddrOk(s, a);
  }

  // ----- The walk over a table -----

  ghost predicate Earlier(x: Slot, bucket: nat, pos: nat) { x.bucket < bucket || (x.bucket == bucket && x.pos < pos) }

  /** The occupied slots that come before a position. */
  ghost function Before(table: map<Slot, int>, bucket: nat, pos: nat): map<Slot, int> {
    map x | x in table && Earlier(x, bucket, pos) :: table[x]
  }

  lemma BeforeNext(table: map<Slot, int>, x: Slot)
    ensures x !in Before(table, x.bucket, x.pos)
    ensures Before(table, x.bucket, x.pos + 1) ==
      if x in table then Before(table, x.bucket, x.pos)[x := table[x]] else Before(table, x.bucket, x.pos)
  {
  }

  lemma BeforeRow(table: map<Slot, int>, bucket: nat, size: nat)
    requires forall x :: x in table ==> x.pos < size
    ensures Before(table, bucket, size) == Before(table, bucket + 1, 0)
  {
  }

  lemma BeforeAll(table: map<Slot, int>, buckets: nat)
    requires forall x :: x in table ==> x.bucket < buckets
    ensures Before(table, buckets, 0) == table
  {
  }

  ghost predicate Part(seen: map<Slot, int>, table: map<Slot, int>) {
    forall x :: x in seen ==> x in table && table[x] == seen[x]
  }

  /** After some slots of the tried table: those not met yet are left. */
  ghost predicate TriedMet(h: Hasher, s: State, seen: map<Slot, int>, left: set<int>) {
    && Part(seen, s.triedTable)
    && (forall x {:trigger TriedSlotOk(h, s, x)} :: x in seen ==> TriedSlotOk(h, s, x))
    && left == TriedIds(s) - seen.Values
  }

  lemma TriedNext(h: Hasher, s: State, seen: map<Slot, int>, left: set<int>, x: Slot, id: int)
    requires TriedMet(h, s, seen, left) && x in s.triedTable && s.triedTable[x] == id && x !in seen
    ensures id in left ==> id in s.info
    ensures id in left && h.TriedSlot(s.info[id].service) == x ==> TriedMet(h, s, seen[x := id], left - {id})
    ensures !(id in left && h.TriedSlot(s.info[id].service) == x) ==> !TablesPass(h, s)
  {
    var met := seen[x := id];
    if id in left && h.TriedSlot(s.info[id].service) == x {
      assert met.Values == seen.Values + {id} by {
        forall v | v in seen.Values ensures v in met.Values {
          var y :| y in seen && seen[y] == v;
          assert met[y] == v;
        }
        assert met[x] == id;
      }
      assert TriedSlotOk(h, s, x);
    } else {
      if id in seen.Values {
        var y :| y in seen && seen[y] == id;
        assert TriedSlotOk(h, s, y);
      }
      assert !TriedSlotOk(h, s, x);
    }
  }

  /** After some slots of the new table: the references not met yet are left. */
  ghost predicate NewMet(h: Hasher, s: State, seen: map<Slot, int>, left: map<int, int>) {
    && Part(seen, s.newTable)
    && (forall x {:trigger NewHeld(h, s, x)} :: x in seen ==> NewHeld(h, s, x))
    && (forall id {:trigger RefsLeft(s, seen, left, id)} :: id in NewIds(s, {}) ==> RefsLeft(s, seen, left, id))
    && left.Keys <= NewIds(s, {})
  }

  ghost predicate RefsLeft(s: State, seen: map<Slot, int>, left: map<int, int>, id: int)
    requires id in s.info
  {
    var n := s.info[id].refCount - |Slots(seen, id)|;
    n >= 0 && if n == 0 then id !in left else id in left && left[id] == n
  }

  /** One reference less, and no entry for none. */
  function LessOne(left: map<int, int>, id: int): map<int, int>
    requires id in left
  {
    if left[id] == 1 then left - {id} else left[id := left[id] - 1]
  }

  lemma NoneMet(h: Hasher, s: State)
    requires EntriesPass(s)
    ensures NewMet(h, s, Before(s.newTable, 0, 0), Refs(s))
  {
    forall id | id in NewIds(s, {}) ensures RefsLeft(s, Before(s.newTable, 0, 0), Refs(s), id) {
      assert EntryPasses(s, id);
      assert Slots(Before(s.newTable, 0, 0), id) == {};
    }
  }

  lemma NewNext(h: Hasher, s: State, seen: map<Slot, int>, left: map<int, int>, x: Slot, id: int)
    requires NewMet(h, s, seen, left) && x in s.newTable && s.newTable[x] == id && x !in seen && x.bucket < NEW_BUCKETS
    ensures id in left ==> id in s.info
    ensures id in left && h.Position(true, x.bucket, s.info[id].service) == x.pos ==>
      NewMet(h, s, seen[x := id], LessOne(left, id))
    ensures !(id in left && h.Position(true, x.bucket, s.info[id].service) == x.pos) ==> !TablesPass(h, s)
  {
    if id in left && h.Position(true, x.bucket, s.info[id].service) == x.pos {
      assert NewHeld(h, s, x);
      forall j | j in NewIds(s, {}) ensures RefsLeft(s, seen[x := id], LessOne(left, id), j) {
        assert RefsLeft(s, seen, left, j);
        SlotsAdd(seen, x, id, j);
      }
    } else if TablesPass(h, s) {
      assert NewHeld(h, s, x) && Placed(h, s, id) && RefsLeft(s, seen, left, id);
      SlotsAdd(seen, x, id, id);
      SlotsGrow(seen[x := id], s.newTable, id);
    }
  }

  lemma SlotsGrow(part: map<Slot, int>, table: map<Slot, int>, id: int)
    requires Part(part, table)
    ensures |Slots(part, id)| <= |Slots(table, id)|
  {
    Smaller(Slots(part, id), Slots(table, id));
  }

  /** Nothing is left on either side exactly when every entry is in its slots. */
  lemma NothingLeft(h: Hasher, s: State, tried: set<int>, untried: map<int, int>)
    requires TriedMet(h, s, s.triedTable, tried) && NewMet(h, s, s.newTable, untried)
    ensures tried == {} && untried == map[] <==> TablesPass(h, s)
  {
    forall id | id in s.info ensures Placed(h, s, id) <==> id !in tried && id !in untried {
      if s.info[id].inTried {
        assert id !in NewIds(s, {});
        if id !in tried {
          var x :| x in s.triedTable && s.triedTable[x] == id;
          assert TriedSlotOk(h, s, x);
        }
      } else {
        assert id in NewIds(s, {}) && RefsLeft(s, s.newTable, untried, id);
      }
    }
    if TablesPass(h, s) {
      forall id ensures id !in tried && id !in untried {
        if id in s.info { assert Placed(h, s, id); }
      }
    }
  }
}
