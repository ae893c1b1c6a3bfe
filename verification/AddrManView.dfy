/**
 What the address manager is for, without ids, reference counts and orders: what is known of
 each address, and which address is in which slot. Every operation of the linked tables does
 to this view what a few plain sentences say.
 */
module AddrManView {
  import opened AddrManSpec
  import opened Basics
  import opened Powers

  /** What is known of an address. */
  datatype Seen = Seen(
    service: Service,
    services: set<nat>,
    time: int,
    source: NetAddr,
    lastTry: int,
    lastSuccess: int,
    attempts: int)

  datatype View = View(seen: map<NetAddr, Seen>, newSlots: map<Slot, NetAddr>, triedSlots: map<Slot, NetAddr>)

  /** Not tried within the last minute, and: from the future, a month old, or failing. */
  predicate Terrible(i: Seen, now: int) {
    && (i.lastTry == 0 || i.lastTry < now - 60)
    && (|| i.time == 0 || i.time > now + 600 || i.time < now - 2592000
        || (i.lastSuccess == 0 && i.attempts >= 3)
        || (i.lastSuccess < now - 604800 && i.attempts >= 10))
  }

  function SlotsOf(slots: map<Slot, NetAddr>, a: NetAddr): set<Slot> {
    set x | x in slots && slots[x] == a
  }

  function Refs(v: View, a: NetAddr): nat { |SlotsOf(v.newSlots, a)| }

  // ----- The operations on the view -----

  /** Whoever holds a new slot loses it, and is forgotten if that was its only one. */
  function Cleared(v: View, x: Slot): View {
    if x !in v.newSlots then v
    else
      var left := if Refs(v, v.newSlots[x]) == 1 then v.seen - {v.newSlots[x]} else v.seen;
      v.(newSlots := v.newSlots - {x}, seen := left)
  }

  /** An address takes the slot its source selects, if that is free, badly held, or the address has none yet. */
  function Placed(h: Hasher, v: View, a: NetAddr, source: NetAddr, now: int): View
    requires a in v.seen
  {
    var x := h.NewSlot(v.seen[a].service, source);
    if x !in v.newSlots then v.(newSlots := v.newSlots[x := a])
    else if v.newSlots[x] == a then v
    else
      var bad := v.newSlots[x] in v.seen && Terrible(v.seen[v.newSlots[x]], now);
      if bad || (Refs(v, v.newSlots[x]) > 1 && Refs(v, a) == 0) then
        var v1 := Cleared(v, x);
        v1.(newSlots := v1.newSlots[x := a])
      else if Refs(v, a) == 0 then v.(seen := v.seen - {a})
      else v
  }

  /** The time of a known address moves on if the news is at least an hour, or for an offline one a day, newer. */
  function NewTime(time: int, a: Address, penalty: int, now: int): int {
    if a.time != 0 && (time == 0 || a.time - time > penalty + if now - a.time < 86400 then 3600 else 86400)
    then Max(0, a.time - penalty) else time
  }

  function Added(h: Hasher, v: View, a: Address, source: NetAddr, penalty: int, now: int, roll: nat): (View, bool) {
    var k := a.service.addr;
    if !h.routable(k) then (v, false)
    else if k !in v.seen then
      var first := Seen(a.service, a.services, Max(0, a.time - penalty), source, 0, 0, 0);
      (Placed(h, v.(seen := v.seen[k := first]), k, source, now), true)
    else
      var was := v.seen[k];
      var i := was.(time := NewTime(was.time, a, penalty, now), services := was.services + a.services);
      var v1 := v.(seen := v.seen[k := i]);
      var newer := a.time != 0 && (i.time == 0 || a.time > i.time);
      if newer && SlotsOf(v.triedSlots, k) == {} && Refs(v, k) < 8 && roll % Pow2(Refs(v, k)) == 0
      then (Placed(h, v1, k, source, now), false) else (v1, false)
  }

  predicate Is(v: View, a: Service) { a.addr in v.seen && v.seen[a.addr].service == a }

  /** The address leaves its new slots and takes its tried slot; whoever was there goes back to a new slot. */
  function Moved(h: Hasher, v: View, a: Service): View {
    var v1 := v.(newSlots := v.newSlots - SlotsOf(v.newSlots, a.addr));
    var x := h.TriedSlot(a);
    if x in v1.triedSlots && v1.triedSlots[x] in v1.seen then
      var other := v1.triedSlots[x];
      var y := h.NewSlot(v1.seen[other].service, v1.seen[other].source);
      var v2 := Cleared(v1, y);
      v2.(newSlots := v2.newSlots[y := other], triedSlots := v2.triedSlots[x := a.addr])
    else v1.(triedSlots := v1.triedSlots[x := a.addr])
  }

  function Succeeded(h: Hasher, v: View, a: Service, time: int): View {
    if !Is(v, a) then v
    else
      var v1 := v.(seen := v.seen[a.addr := v.seen[a.addr].(lastSuccess := time, lastTry := time, attempts := 0)]);
      if SlotsOf(v.triedSlots, a.addr) != {} then v1 else Moved(h, v1, a)
  }

  function Attempted(v: View, a: Service, time: int): View {
    if !Is(v, a) then v
    else v.(seen := v.seen[a.addr := v.seen[a.addr].(lastTry := time, attempts := v.seen[a.addr].attempts + 1)])
  }

  function Met(v: View, a: Service, time: int): View {
    if Is(v, a) && time > v.seen[a.addr].time + 1200 then v.(seen := v.seen[a.addr := v.seen[a.addr].(time := time)])
    else v
  }

  // ----- What the tables show -----

  function SeenOf(i: AddrInfo): Seen {
    Seen(i.service, i.services, i.time, i.source, i.lastTry, i.lastSuccess, i.attempts)
  }

  function Known(s: State): map<NetAddr, Seen> {
    map a | a in s.addr && s.addr[a] in s.info :: SeenOf(s.info[s.addr[a]])
  }

  function Named(s: State, table: map<Slot, int>): map<Slot, NetAddr> {
    map x | x in table && table[x] in s.info :: s.info[table[x]].service.addr
  }

  function Show(s: State): View { View(Known(s), Named(s, s.newTable), Named(s, s.triedTable)) }

  /** Tables hold known ids only. */
  ghost predicate Held(s: State, table: map<Slot, int>) { forall x :: x in table ==> table[x] in s.info }

  ghost predicate Sound(s: State) { Indexed(s) && Held(s, s.newTable) && Held(s, s.triedTable) }

  lemma InvSound(h: Hasher, s: State, limbo: set<int>, extra: int)
    requires Inv(h, s, limbo, extra)
    ensures Sound(s)
  {
    forall x | x in s.newTable ensures s.newTable[x] in s.info { assert NewSlotOk(h, s, x); }
    forall x | x in s.triedTable ensures s.triedTable[x] in s.info { assert TriedSlotOk(h, s, x); }
  }

  lemma TerribleIs(i: AddrInfo, now: int)
    ensures i.IsTerrible(now) <==> Terrible(SeenOf(i), now)
  {
  }

  /** Addresses stand for ids. */
  lemma OneId(s: State, i: int, j: int)
    requires Indexed(s) && i in s.info && j in s.info && s.info[i].service.addr == s.info[j].service.addr
    ensures i == j
  {
    assert IdOk(s, i) && IdOk(s, j);
  }

  lemma SlotsNamed(s: State, table: map<Slot, int>, id: int)
    requires Indexed(s) && Held(s, table) && id in s.info
    ensures SlotsOf(Named(s, table), s.info[id].service.addr) == Slots(table, id)
  {
    forall x | x in table ensures table[x] == id <==> s.info[table[x]].service.addr == s.info[id].service.addr {
      if s.info[table[x]].service.addr == s.info[id].service.addr { OneId(s, table[x], id); }
    }
  }

  /** An entry is listed in the tried slots exactly when it is marked so. */
  lemma TriedNamed(h: Hasher, s: State, limbo: set<int>, extra: int, id: int)
    requires Inv(h, s, limbo, extra) && id in s.info
    ensures SlotsOf(Named(s, s.triedTable), s.info[id].service.addr) != {} <==> s.info[id].inTried
  {
    InvSound(h, s, limbo, extra);
    SlotsNamed(s, s.triedTable, id);
    assert EntryOk(h, s, limbo, id);
    if s.info[id].inTried {
      assert h.TriedSlot(s.info[id].service) in Slots(s.triedTable, id);
    } else {
      forall x | x in s.triedTable ensures s.triedTable[x] != id { assert TriedSlotOk(h, s, x); }
      assert Slots(s.triedTable, id) == {};
    }
  }

  lemma RefsNamed(h: Hasher, s: State, limbo: set<int>, extra: int, id: int)
    requires Inv(h, s, limbo, extra) && id in s.info
    ensures Refs(Show(s), s.info[id].service.addr) == s.info[id].refCount
  {
    InvSound(h, s, limbo, extra);
    SlotsNamed(s, s.newTable, id);
    assert EntryOk(h, s, limbo, id);
  }

  // ----- Each building block on the view -----

  /** What is known does not depend on ids, orders and counts. */
  ghost predicate SameSeen(s: State, s': State, id: int) {
    id in s.info && id in s'.info && SeenOf(s'.info[id]) == SeenOf(s.info[id])
  }

  ghost predicate AllSame(s: State, s': State, gone: set<int>) {
    forall id {:trigger SameSeen(s, s', id)} :: id in s.info && id !in gone ==> SameSeen(s, s', id)
  }

  lemma KnownSame(s: State, s': State)
    requires Indexed(s) && s'.addr == s.addr && AllSame(s, s', {})
    ensures Known(s') == Known(s)
  {
    forall a | a in s.addr ensures SameSeen(s, s', s.addr[a]) { assert AddrOk(s, a); }
  }

  lemma KnownLess(s: State, s': State, id: int, k: NetAddr)
    requires Indexed(s) && id in s.info && k == s.info[id].service.addr && s'.addr == s.addr - {k}
    requires AllSame(s, s', {id})
    ensures Known(s') == Known(s) - {k}
  {
    forall a | a in s'.addr ensures s.addr[a] in s.info && SameSeen(s, s', s.addr[a]) {
      assert AddrOk(s, a);
      assert s.addr[a] != id;
    }
  }

  lemma NamedSame(s: State, s': State, table: map<Slot, int>, gone: set<int>)
    requires Held(s, table) && AllSame(s, s', gone) && forall x :: x in table ==> table[x] !in gone
    ensures Named(s', table) == Named(s, table)
  {
    forall x | x in table ensures SameSeen(s, s', table[x]) {}
  }

  lemma NamedAdd(s: State, table: map<Slot, int>, x: Slot, id: int)
    requires id in s.info
    ensures Named(s, table[x := id]) == Named(s, table)[x := s.info[id].service.addr]
  {
    var a, b := Named(s, table[x := id]), Named(s, table)[x := s.info[id].service.addr];
    assert a.Keys == b.Keys;
  }

  lemma KnownMore(s: State, s': State, k: NetAddr, id: int)
    requires Indexed(s) && k !in s.addr && s'.addr == s.addr[k := id] && id in s'.info && AllSame(s, s', {})
    ensures Known(s') == Known(s)[k := SeenOf(s'.info[id])]
  {
    forall b | b in s.addr ensures b in Known(s) && b in Known(s') && Known(s')[b] == Known(s)[b] {
      assert AddrOk(s, b);
      assert SameSeen(s, s', s.addr[b]);
    }
    KnownKeys(s);
    KnownKeys(s');
  }

  lemma KnownKeys(s: State)
    ensures forall b :: b in Known(s) <==> b in s.addr && s.addr[b] in s.info
  {
  }

  lemma ShowUpdate(s: State, id: int, i: AddrInfo)
    requires Sound(s) && id in s.info && i.service == s.info[id].service
    ensures var s' := s.(info := s.info[id := i]);
      Show(s') == Show(s).(seen := Show(s).seen[i.service.addr := SeenOf(i)])
  {
    var s' := s.(info := s.info[id := i]);
    assert IdOk(s, id);
    forall a | a in s.addr && a != i.service.addr ensures s.addr[a] != id && s.addr[a] in s.info {
      assert AddrOk(s, a);
    }
    assert Known(s') == Known(s)[i.service.addr := SeenOf(i)];
    assert Named(s', s'.newTable) == Named(s, s.newTable) && Named(s', s'.triedTable) == Named(s, s.triedTable);
  }

  /** An entry that no table holds goes. */
  lemma ShowDelete(h: Hasher, s: State, id: int, limbo: set<int>, extra: int)
    requires Inv(h, s, limbo, extra) && id in limbo
    ensures id in s.info && s.random != [] && CanSwap(s, s.info[id].randomPos, |s.random| - 1)
    ensures Show(Delete(s, id)) == Show(s).(seen := Show(s).seen - {s.info[id].service.addr})
  {
    InvSound(h, s, limbo, extra);
    DeleteKeeps(h, s, id, limbo, extra, limbo - {id}, extra - 1);
    var s' := Delete(s, id);
    forall j | j in s.info && j != id ensures SameSeen(s, s', j) { assert Alike(s, s', j); }
    DeleteAddr(s, id);
    KnownLess(s, s', id, s.info[id].service.addr);
    LimboUnlisted(h, s, id, limbo, extra);
    NamedSame(s, s', s.newTable, {id});
    NamedSame(s, s', s.triedTable, {id});
  }

  lemma DeleteAddr(s: State, id: int)
    requires Indexed(s) && id in s.info && s.random != [] && CanSwap(s, s.info[id].randomPos, |s.random| - 1)
    ensures Delete(s, id).addr == s.addr - {s.info[id].service.addr}
    ensures Delete(s, id).newTable == s.newTable && Delete(s, id).triedTable == s.triedTable
  {
    SwapKeepsInfo(s, s.info[id].randomPos, |s.random| - 1);
    assert Alike(s, SwapRandom(s, s.info[id].randomPos, |s.random| - 1), id);
  }

  lemma LimboUnlisted(h: Hasher, s: State, id: int, limbo: set<int>, extra: int)
    requires Inv(h, s, limbo, extra) && id in limbo
    ensures forall x :: x in s.newTable ==> s.newTable[x] !in {id}
    ensures forall x :: x in s.triedTable ==> s.triedTable[x] !in {id}
  {
    assert EntryOk(h, s, limbo, id);
    SlotsNone(s.newTable, id);
    forall x | x in s.triedTable ensures s.triedTable[x] != id { assert TriedSlotOk(h, s, x); }
  }

  lemma ShowUnref(s: State, x: Slot)
    requires Sound(s) && x in s.newTable
    ensures Show(Unref(s, x)) == Show(s).(newSlots := Show(s).newSlots - {x})
  {
    var s' := Unref(s, x);
    KnownSame(s, s');
    NamedSame(s, s', s.newTable, {});
    NamedSame(s, s', s.triedTable, {});
    assert Named(s', s'.newTable) == Named(s', s.newTable) - {x};
  }

  lemma ShowClearNew(h: Hasher, s: State, x: Slot, limbo: set<int>, extra: int)
    requires Inv(h, s, limbo, extra)
    ensures x in s.newTable ==> s.newTable[x] in s.info
    ensures Show(ClearNew(s, x)) == Cleared(Show(s), x)
  {
    InvSound(h, s, limbo, extra);
    if x in s.newTable {
      UnrefListed(h, s, x, limbo, extra);
      UnrefIndexed(s, x);
      var s1, id := Unref(s, x), s.newTable[x];
      RefsNamed(h, s, limbo, extra, id);
      ShowUnref(s, x);
      if s1.info[id].refCount == 0 { ShowDelete(h, s1, id, limbo + {id}, extra + 1); }
    }
  }

  lemma ShowRef(s: State, id: int, x: Slot)
    requires Sound(s) && id in s.info
    ensures Show(Ref(s, id, x)) == Show(s).(newSlots := Show(s).newSlots[x := s.info[id].service.addr])
  {
    var s' := Ref(s, id, x);
    KnownSame(s, s');
    NamedSame(s, s', s.newTable, {});
    NamedSame(s, s', s.triedTable, {});
    NamedAdd(s', s.newTable, x, id);
  }

  lemma ShowRelist(h: Hasher, s: State, id: int, source: NetAddr, limbo: set<int>, extra: int)
    requires Inv(h, s, limbo, extra) && id in s.info && !s.info[id].inTried
    requires s.info[id].refCount < NEW_BUCKETS_PER_ADDRESS && StampsOk(s.info[id])
    requires var x := h.NewSlot(s.info[id].service, source); x in s.newTable ==> s.newTable[x] != id
    ensures var x := h.NewSlot(s.info[id].service, source);
      && (x in s.newTable ==> s.newTable[x] in s.info) && id in ClearNew(s, x).info
      && var v := Cleared(Show(s), x);
         Show(Relist(h, s, id, x)) == v.(newSlots := v.newSlots[x := s.info[id].service.addr])
  {
    var x := h.NewSlot(s.info[id].service, source);
    RelistKeeps(h, s, id, source, limbo, extra);
    ClearNewKeeps(h, s, x, limbo, extra);
    ClearNewAlike(h, s, x);
    var s1 := ClearNew(s, x);
    assert Alike(s, s1, id);
    InvSound(h, s1, limbo, extra);
    ShowClearNew(h, s, x, limbo, extra);
    ShowRef(s1, id, x);
  }

  /** A new entry that is in no table yet. */
  lemma ShowEnlisted(h: Hasher, s: State, a: Address, source: NetAddr, penalty: int)
    requires Consistent(h, s) && a.service.addr !in s.addr
    ensures var first := Seen(a.service, a.services, Max(0, a.time - penalty), source, 0, 0, 0);
      Show(Enlisted(s, a, source, penalty)) == Show(s).(seen := Show(s).seen[a.service.addr := first])
  {
    InvSound(h, s, {}, 0);
    IdFree(s);
    var s' := Enlisted(s, a, source, penalty);
    EnlistedIs(s, a, source, penalty);
    ShowMore(s, s', a.service.addr, s'.info[s.idCount]);
  }

  lemma EnlistedIs(s: State, a: Address, source: NetAddr, penalty: int)
    ensures var s' := Enlisted(s, a, source, penalty);
      && s.idCount in s'.info && s'.addr == s.addr[a.service.addr := s.idCount]
      && s'.newTable == s.newTable && s'.triedTable == s.triedTable
      && s'.info == s.info[s.idCount := s'.info[s.idCount]]
      && SeenOf(s'.info[s.idCount]) == Seen(a.service, a.services, Max(0, a.time - penalty), source, 0, 0, 0)
  {
  }

  lemma ShowMore(s: State, s': State, k: NetAddr, i: AddrInfo)
    requires Sound(s) && s.idCount !in s.info && k !in s.addr && s'.addr == s.addr[k := s.idCount]
    requires s'.info == s.info[s.idCount := i] && s'.newTable == s.newTable && s'.triedTable == s.triedTable
    ensures Show(s') == Show(s).(seen := Show(s).seen[k := SeenOf(i)])
  {
    EnlistedSame(s, s', i);
    KnownMore(s, s', k, s.idCount);
    NamedSame(s, s', s.newTable, {});
    NamedSame(s, s', s.triedTable, {});
  }

  lemma IdFree(s: State)
    requires Indexed(s)
    ensures s.idCount !in s.info
  {
    forall j | j in s.info ensures j < s.idCount { assert IdOk(s, j); }
  }

  lemma EnlistedSame(s: State, s': State, i: AddrInfo)
    requires s.idCount !in s.info && s'.info == s.info[s.idCount := i]
    ensures AllSame(s, s', {})
  {
  }

  lemma ShowUnlisted(s: State, id: int)
    requires Sound(s) && id in s.info
    ensures var v, k := Show(s), s.info[id].service.addr;
      Show(Unlisted(s, id)) == v.(newSlots := v.newSlots - SlotsOf(v.newSlots, k))
  {
    var s', k := Unlisted(s, id), s.info[id].service.addr;
    KnownSame(s, s');
    NamedSame(s, s', s.newTable, {});
    NamedSame(s, s', s.triedTable, {});
    SlotsNamed(s, s.newTable, id);
    assert Named(s', s'.newTable) == Named(s', s.newTable) - Slots(s.newTable, id);
  }

  lemma ShowUntry(s: State, x: Slot)
    requires Sound(s) && x in s.triedTable
    ensures Show(Untry(s, x)) == Show(s).(triedSlots := Show(s).triedSlots - {x})
  {
    var s' := Untry(s, x);
    KnownSame(s, s');
    NamedSame(s, s', s.newTable, {});
    NamedSame(s, s', s.triedTable, {});
    assert Named(s', s'.triedTable) == Named(s', s.triedTable) - {x};
  }

  lemma ShowTry(s: State, id: int, x: Slot)
    requires Sound(s) && id in s.info
    ensures Show(Try(s, id, x)) == Show(s).(triedSlots := Show(s).triedSlots[x := s.info[id].service.addr])
  {
    var s' := Try(s, id, x);
    KnownSame(s, s');
    NamedSame(s, s', s.newTable, {});
    NamedSame(s, s', s.triedTable, {});
    NamedAdd(s', s.triedTable, x, id);
  }

  // ----- Every operation does to the view what it should -----

  lemma SeenIs(s: State, id: int)
    requires Indexed(s) && id in s.info
    ensures var k := s.info[id].service.addr;
      k in s.addr && s.addr[k] == id && k in Known(s) && Known(s)[k] == SeenOf(s.info[id])
  {
    assert IdOk(s, id);
  }

  lemma ShowPlace(h: Hasher, s: State, id: int, source: NetAddr, now: int)
    requires CanPlace(h, s, id)
    ensures s.info[id].service.addr in Show(s).seen
    ensures Show(Place(h, s, id, source, now)) == Placed(h, Show(s), s.info[id].service.addr, source, now)
  {
    var limbo: set<int>, extra := if Consistent(h, s) then {} else {id}, if Consistent(h, s) then 0 else 1;
    InvSound(h, s, limbo, extra);
    PlaceReady(h, s, id, source);
    SeenIs(s, id);
    RefsNamed(h, s, limbo, extra, id);
    var x := h.NewSlot(s.info[id].service, source);
    if x in s.newTable {
      var holder := s.newTable[x];
      SeenIs(s, holder);
      RefsNamed(h, s, limbo, extra, holder);
      TerribleIs(s.info[holder], now);
      if s.info[holder].service.addr == s.info[id].service.addr { OneId(s, holder, id); }
    }
    if x in s.newTable && s.newTable[x] == id {
    } else if MayOverwrite(s, id, x, now) {
      ShowRelist(h, s, id, source, limbo, extra);
    } else if s.info[id].refCount == 0 {
      PlaceLimbo(h, s, id, limbo, extra);
      ShowDelete(h, s, id, limbo, extra);
    }
  }

  /** An entry without a reference is in limbo. */
  lemma PlaceLimbo(h: Hasher, s: State, id: int, limbo: set<int>, extra: int)
    requires Inv(h, s, limbo, extra) && id in s.info && !s.info[id].inTried && s.info[id].refCount == 0
    ensures id in limbo
  {
    assert EntryOk(h, s, limbo, id);
  }

  /** Add_ on the view, for every address, source, penalty, clock and draw. */
  lemma ShowAdd(h: Hasher, s: State, a: Address, source: NetAddr, penalty: int, now: int, roll: nat)
    requires Consistent(h, s)
    ensures var r := Add(h, s, a, source, penalty, now, roll);
      (Show(r.0), r.1) == Added(h, Show(s), a, source, penalty, now, roll)
  {
    InvSound(h, s, {}, 0);
    var k := a.service.addr;
    if h.routable(k) {
      if k in s.addr {
        assert AddrOk(s, k);
        ShowAddKnown(h, s, a, source, penalty, now, roll, s.addr[k]);
      } else {
        EnlistedKeeps(h, s, a, source, penalty);
        ShowEnlisted(h, s, a, source, penalty);
        ShowPlace(h, Enlisted(s, a, source, penalty), s.idCount, source, now);
      }
    }
  }

  lemma ShowAddKnown(h: Hasher, s: State, a: Address, source: NetAddr, penalty: int, now: int, roll: nat, id: int)
    requires Consistent(h, s) && h.routable(a.service.addr) && a.service.addr in s.addr && id == s.addr[a.service.addr]
    ensures var r := Add(h, s, a, source, penalty, now, roll);
      (Show(r.0), r.1) == Added(h, Show(s), a, source, penalty, now, roll)
  {
    InvSound(h, s, {}, 0);
    HeardKeeps(h, s, a, penalty, now);
    var i := Heard(s.info[id], a, penalty, now);
    var s1 := s.(info := s.info[id := i]);
    SeenIs(s, id);
    ShowUpdate(s, id, i);
    RefsNamed(h, s, {}, 0, id);
    TriedNamed(h, s, {}, 0, id);
    assert EntryOk(h, s, {}, id);
    if MayList(i, a, roll) { ShowPlace(h, s1, id, source, now); }
  }

  lemma ShowEvict(h: Hasher, s: State, x: Slot, limbo: set<int>, id: int)
    requires Inv(h, s, limbo, 0) && x in s.triedTable && id == s.triedTable[x]
    ensures id in s.info && s.info[id].service.addr in Show(s).seen
    ensures var v, i := Show(s), s.info[id];
      var y := h.NewSlot(i.service, i.source);
      var v1 := Cleared(v, y);
      Show(Evict(h, s, x, limbo)) ==
        v1.(newSlots := v1.newSlots[y := i.service.addr], triedSlots := v1.triedSlots - {x})
  {
    InvSound(h, s, limbo, 0);
    UntryKeeps(h, s, x, limbo, 0);
    EvictReady(h, s, x, limbo);
    SeenIs(s, id);
    ShowUntry(s, x);
    var s1 := Untry(s, x);
    assert EntryOk(h, s, limbo, id);
    ShowRelist(h, s1, id, s1.info[id].source, limbo + {id}, 0);
    ClearedTried(Show(s), h.NewSlot(s.info[id].service, s.info[id].source), Show(s).triedSlots - {x});
    var s2 := Relist(h, s1, id, h.NewSlot(s1.info[id].service, s1.info[id].source));
    CountersShow(s2, Evict(h, s, x, limbo));
  }

  /** Clearing a new slot does not look at the tried ones. */
  lemma ClearedTried(v: View, y: Slot, tried: map<Slot, NetAddr>)
    ensures Cleared(v.(triedSlots := tried), y) == Cleared(v, y).(triedSlots := tried)
  {
  }

  lemma CountersShow(s: State, s': State)
    requires s' == s.(nNew := s'.nNew)
    ensures Show(s') == Show(s)
  {
  }

  lemma ShowMakeTried(h: Hasher, s: State, id: int, a: Service)
    requires CanTry(h, s, id) && a == s.info[id].service
    ensures Show(MakeTried(h, s, id)) == Moved(h, Show(s), a)
  {
    CanTryIndexed(h, s, id);
    TrySound(h, s, id);
    UnlistedKeeps(h, s, id);
    ShowUnlisted(s, id);
    var s1, x := Unlisted(s, id), h.TriedSlot(a);
    InvSound(h, s1, {id}, 0);
    if x in s1.triedTable {
      EvictKeeps(h, s1, x, id);
      ShowTakeOver(h, s1, id, a, Evict(h, s1, x, {id}));
    } else {
      ShowTry(s1, id, x);
    }
  }

  lemma ShowTakeOver(h: Hasher, s: State, id: int, a: Service, s1: State)
    requires Inv(h, s, {id}, 0) && id in s.info && a == s.info[id].service && h.TriedSlot(a) in s.triedTable
    requires s1 == Evict(h, s, h.TriedSlot(a), {id}) && id in s1.info
    ensures var x, v := h.TriedSlot(a), Show(s);
      && x in v.triedSlots && v.triedSlots[x] in v.seen
      && var other := v.seen[v.triedSlots[x]];
         var y := h.NewSlot(other.service, other.source);
         var v1 := Cleared(v, y);
         Show(Try(s1, id, x)) ==
           v1.(newSlots := v1.newSlots[y := v.triedSlots[x]], triedSlots := v1.triedSlots[x := a.addr])
  {
    var x := h.TriedSlot(a);
    InvSound(h, s, {id}, 0);
    SeenIs(s, s.triedTable[x]);
    EvictKeeps(h, s, x, id);
    ShowEvict(h, s, x, {id}, s.triedTable[x]);
    InvSound(h, s1, {id}, 0);
    ShowTry(s1, id, x);
    SlotTwice(Show(s).triedSlots, x, a.addr);
  }

  lemma SlotTwice(m: map<Slot, NetAddr>, x: Slot, a: NetAddr)
    ensures (m - {x})[x := a] == m[x := a]
  {
  }

  lemma TrySound(h: Hasher, s: State, id: int)
    requires CanTry(h, s, id)
    ensures Sound(s)
  {
    CanTryIndexed(h, s, id);
    InvSound(h, Unstamped(s, id), {}, 0);
  }

  lemma MatchesIs(h: Hasher, s: State, a: Service)
    requires Consistent(h, s)
    ensures Matches(s, a) <==> Is(Show(s), a)
    ensures Matches(s, a) ==> Known(s)[a.addr] == SeenOf(s.info[s.addr[a.addr]])
  {
    if a.addr in s.addr { assert AddrOk(s, a.addr); }
  }

  /** Good_ on the view, for every time. */
  lemma ShowGood(h: Hasher, s: State, a: Service, time: int)
    requires Consistent(h, s)
    ensures Show(Good(h, s, a, time)) == Succeeded(h, Show(s), a, time)
  {
    InvSound(h, s, {}, 0);
    MatchesIs(h, s, a);
    if Matches(s, a) {
      var id := s.addr[a.addr];
      var i := AddrManSpec.Succeeded(s.info[id], time);
      ShowUpdate(s, id, i);
      TriedNamed(h, s, {}, 0, id);
      if !s.info[id].inTried {
        StampedCanTry(h, s, id, time);
        ShowMakeTried(h, s.(info := s.info[id := i]), id, a);
      }
    }
  }

  lemma AttemptedIs(v: View, a: Service, time: int, i: AddrInfo, j: AddrInfo)
    requires Is(v, a) && v.seen[a.addr] == SeenOf(i) && j == i.(lastTry := time, attempts := i.attempts + 1)
    ensures Attempted(v, a, time) == v.(seen := v.seen[a.addr := SeenOf(j)])
  {
  }

  lemma AttemptIs(s: State, a: Service, time: int, j: AddrInfo)
    requires Matches(s, a)
    requires var i := s.info[s.addr[a.addr]]; j == i.(lastTry := time, attempts := i.attempts + 1)
    ensures Attempt(s, a, time) == s.(info := s.info[s.addr[a.addr] := j])
  {
  }

  lemma ShowAttempt(h: Hasher, s: State, a: Service, time: int)
    requires Consistent(h, s)
    ensures Show(Attempt(s, a, time)) == Attempted(Show(s), a, time)
  {
    MatchesIs(h, s, a);
    if Matches(s, a) {
      var i := s.info[s.addr[a.addr]];
      var j := i.(lastTry := time, attempts := i.attempts + 1);
      AttemptIs(s, a, time, j);
      AttemptedIs(Show(s), a, time, i, j);
      ShowTouch(h, s, a, j, Attempt(s, a, time));
    }
  }

  /** One entry gets other times. */
  lemma ShowTouch(h: Hasher, s: State, a: Service, i: AddrInfo, s': State)
    requires Consistent(h, s) && Matches(s, a) && i.service == a && s' == s.(info := s.info[s.addr[a.addr] := i])
    ensures Show(s') == Show(s).(seen := Show(s).seen[a.addr := SeenOf(i)])
  {
    InvSound(h, s, {}, 0);
    ShowUpdate(s, s.addr[a.addr], i);
  }

  lemma ShowConnected(h: Hasher, s: State, a: Service, time: int)
    requires Consistent(h, s)
    ensures Show(Connected(s, a, time)) == Met(Show(s), a, time)
  {
    MatchesIs(h, s, a);
    if Matches(s, a) {
      var id := s.addr[a.addr];
      var i := s.info[id].(time := time);
      ShowTouch(h, s, a, i, s.(info := s.info[id := i]));
    }
  }

  lemma ShowShuffled(h: Hasher, s: State, picks: seq<nat>)
    requires Consistent(h, s) && Picks(picks, |s.random|)
    ensures Show(Shuffled(s, picks)) == Show(s)
  {
    InvSound(h, s, {}, 0);
    ShuffledAlike(s, picks);
    var s' := Shuffled(s, picks);
    forall j | j in s.info ensures SameSeen(s, s', j) { assert Alike(s, s', j); }
    KnownSame(s, s');
    NamedSame(s, s', s.newTable, {});
    NamedSame(s, s', s.triedTable, {});
  }

  // ----- Runs -----

  function ViewStep(h: Hasher, v: View, op: Op): View {
    match op
    case DoAdd(a, source, penalty, now, roll) => Added(h, v, a, source, penalty, now, roll).0
    case DoGood(a, time) => Succeeded(h, v, a, time)
    case DoAttempt(a, time) => Attempted(v, a, time)
    case DoConnected(a, time) => Met(v, a, time)
    case DoGetAddr(_) => v
  }

  function ViewRun(h: Hasher, v: View, ops: seq<Op>): View
    decreases |ops|
  {
    if ops == [] then v else ViewRun(h, ViewStep(h, v, ops[0]), ops[1..])
  }

  lemma StepShows(h: Hasher, s: State, op: Op)
    requires Consistent(h, s) && Allowed(s, op)
    ensures Show(Step(h, s, op)) == ViewStep(h, Show(s), op)
  {
    match op
    case DoAdd(a, source, penalty, now, roll) => ShowAdd(h, s, a, source, penalty, now, roll);
    case DoGood(a, time) => ShowGood(h, s, a, time);
    case DoAttempt(a, time) => ShowAttempt(h, s, a, time);
    case DoConnected(a, time) => ShowConnected(h, s, a, time);
    case DoGetAddr(picks) => ShowShuffled(h, s, picks);
  }

  /** Every run of the linked tables is a run of the view. */
  lemma {:induction false} RunShows(h: Hasher, s: State, ops: seq<Op>)
    requires Consistent(h, s) && IsRun(h, s, ops)
    ensures Show(Run(h, s, ops)) == ViewRun(h, Show(s), ops)
    decreases |ops|
  {
    if ops != [] {
      StepKeeps(h, s, ops[0]);
      StepShows(h, s, ops[0]);
      RunShows(h, Step(h, s, ops[0]), ops[1..]);
    }
  }

  /** The same for a new manager, which shows nothing. */
  lemma AlwaysShows(h: Hasher, ops: seq<Op>)
    requires (EmptyConsistent(h); IsRun(h, EMPTY, ops))
    ensures Consistent(h, EMPTY) && Show(Run(h, EMPTY, ops)) == ViewRun(h, View(map[], map[], map[]), ops)
  {
    EmptyConsistent(h);
    EmptyShows(EMPTY);
    RunShows(h, EMPTY, ops);
  }

  lemma EmptyShows(s: State)
    requires s.addr == map[] && s.newTable == map[] && s.triedTable == map[]
    ensures Show(s) == View(map[], map[], map[])
  {
    assert Known(s).Keys == {} && Named(s, map[]).Keys == {};
  }

  // ----- What this means for an address -----

  /** An unknown address whose slot is free is known afterwards, in that slot, and nothing else changes. */
  lemma UnknownEnters(h: Hasher, v: View, a: Address, source: NetAddr, penalty: int, now: int, roll: nat)
    requires h.routable(a.service.addr) && a.service.addr !in v.seen && h.NewSlot(a.service, source) !in v.newSlots
    ensures var k, r := a.service.addr, Added(h, v, a, source, penalty, now, roll);
      && r.1 && k in r.0.seen && r.0.seen == v.seen[k := r.0.seen[k]]
      && r.0.seen[k] == Seen(a.service, a.services, Max(0, a.time - penalty), source, 0, 0, 0)
      && r.0.newSlots == v.newSlots[h.NewSlot(a.service, source) := k] && r.0.triedSlots == v.triedSlots
  {
  }

  /** An unknown address whose slot is taken gets it if and only if the holder is terrible or has another slot. */
  lemma UnknownTakes(h: Hasher, v: View, a: Address, source: NetAddr, penalty: int, now: int, roll: nat)
    requires h.routable(a.service.addr) && a.service.addr !in v.seen && SlotsOf(v.newSlots, a.service.addr) == {}
    requires var x := h.NewSlot(a.service, source); x in v.newSlots && v.newSlots[x] in v.seen
    ensures var k, x, r := a.service.addr, h.NewSlot(a.service, source), Added(h, v, a, source, penalty, now, roll);
      var holder := v.newSlots[x];
      && r.1 && r.0.triedSlots == v.triedSlots
      && (Terrible(v.seen[holder], now) || Refs(v, holder) > 1 <==> r.0.newSlots == v.newSlots[x := k])
      && (k !in r.0.seen <==> r.0 == v)
      && (k in r.0.seen ==> r.0.newSlots == v.newSlots[x := k] && (holder !in r.0.seen <==> Refs(v, holder) == 1))
  {
    var k, x := a.service.addr, h.NewSlot(a.service, source);
    var holder := v.newSlots[x];
    assert x in SlotsOf(v.newSlots, holder);
    var v1 := v.(seen := v.seen[k := Seen(a.service, a.services, Max(0, a.time - penalty), source, 0, 0, 0)]);
    assert v1.seen - {k} == v.seen;
    assert (v.newSlots - {x})[x := k] == v.newSlots[x := k];
    assert v.newSlots[x := k][x] == k;
  }

  /** A known address keeps all but its time and services, which only grow, and one slot more at most. */
  lemma KnownHears(h: Hasher, v: View, a: Address, source: NetAddr, penalty: int, now: int, roll: nat)
    requires h.routable(a.service.addr) && a.service.addr in v.seen && Refs(v, a.service.addr) > 0
    ensures var k, r := a.service.addr, Added(h, v, a, source, penalty, now, roll);
      && !r.1 && k in r.0.seen && r.0.triedSlots == v.triedSlots
      && r.0.seen[k] == v.seen[k].(services := v.seen[k].services + a.services, time := r.0.seen[k].time)
      && (r.0.seen[k].time != v.seen[k].time ==> r.0.seen[k].time == Max(0, a.time - penalty))
      && SlotsOf(v.newSlots, k) <= SlotsOf(r.0.newSlots, k)
      && SlotsOf(r.0.newSlots, k) <= SlotsOf(v.newSlots, k) + {h.NewSlot(v.seen[k].service, source)}
      && (Refs(v, k) >= 8 || SlotsOf(v.triedSlots, k) != {} ==> r.0.newSlots == v.newSlots)
  {
  }

  // ----- The answer to GetAddr -----

  /** An address as it is told to others. */
  predicate Tells(v: View, a: Address, now: int) {
    var k := a.service.addr;
    k in v.seen && a == Address(v.seen[k].service, v.seen[k].services, v.seen[k].time) && !Terrible(v.seen[k], now)
  }

  /** Only addresses that are known and not terrible are told, with their services and times. */
  lemma {:induction false} OnlyKnownTold(s: State, k: nat, now: int, j: nat)
    requires Indexed(s) && k <= |s.random| && AddrManSpec.Known(s) && j < |Usable(s, k, now)|
    ensures Tells(Show(s), Usable(s, k, now)[j], now)
    decreases k
  {
    if j < |Usable(s, k - 1, now)| {
      OnlyKnownTold(s, k - 1, now, j);
    } else {
      var id := s.random[k - 1];
      SeenIs(s, id);
      TerribleIs(s.info[id], now);
    }
  }

  /** When the whole order was read, every such address is told. */
  lemma AllKnownTold(s: State, now: int, a: NetAddr)
    requires Indexed(s) && AddrManSpec.Known(s) && a in Show(s).seen && !Terrible(Show(s).seen[a], now)
    ensures var i := Show(s).seen[a]; Address(i.service, i.services, i.time) in Usable(s, |s.random|, now)
  {
    assert AddrOk(s, a);
    var id := s.addr[a];
    assert IdOk(s, id);
    TerribleIs(s.info[id], now);
    UsableAll(s, |s.random|, now, id);
  }
}
