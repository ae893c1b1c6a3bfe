/**
 The address manager as a value: five cross-linked tables, reference counts and counters.

 Bucket hashes are parameters; the randomness of the source is a parameter of each operation.
 */
module AddrManSpec {
  import opened Basics
  import opened Powers

  const TRIED_BUCKETS := 256
  const NEW_BUCKETS := 1024
  const BUCKET_SIZE := 64
  const NEW_BUCKETS_PER_ADDRESS := 8
  const HORIZON_DAYS := 30
  const RETRIES := 3
  const MAX_FAILURES := 10
  const MIN_FAIL_DAYS := 7
  const GETADDR_MAX_PCT := 23
  const GETADDR_MAX := 2500
  const DAY := 24 * 60 * 60

  /** An IP address, without port. */
  type NetAddr = nat
  datatype Service = Service(addr: NetAddr, port: nat)

  /** Service bits are a set of bit numbers. */
  datatype Address = Address(service: Service, services: set<nat>, time: int)

  datatype AddrInfo = AddrInfo(
    service: Service,
    services: set<nat>,
    time: int,
    source: NetAddr,
    lastTry: int,
    lastSuccess: int,
    attempts: int,
    refCount: int,
    inTried: bool,
    randomPos: int)
  {
    /** Whether the entry is bad enough to be dropped. */
    predicate IsTerrible(now: int) {
      if lastTry != 0 && lastTry >= now - 60 then false
      else if time > now + 10 * 60 then true
      else if time == 0 || now - time > HORIZON_DAYS * DAY then true
      else if lastSuccess == 0 && attempts >= RETRIES then true
      else now - lastSuccess > MIN_FAIL_DAYS * DAY && attempts >= MAX_FAILURES
    }
  }

  datatype Slot = Slot(bucket: nat, pos: nat)

  /** The keyed hashes that spread addresses over buckets, and which addresses are routable. */
  datatype Hasher = Hasher(
    tried: Service -> nat,
    fromSource: (Service, NetAddr) -> nat,
    position: (bool, nat, Service) -> nat,
    routable: NetAddr -> bool)
  {
    function Position(isNew: bool, bucket: nat, a: Service): nat {
      position(isNew, bucket, a) % BUCKET_SIZE
    }

    function TriedSlot(a: Service): Slot {
      var bucket := tried(a) % TRIED_BUCKETS;
      Slot(bucket, Position(false, bucket, a))
    }

    function NewSlot(a: Service, source: NetAddr): Slot {
      var bucket := fromSource(a, source) % NEW_BUCKETS;
      Slot(bucket, Position(true, bucket, a))
    }
  }

  /** A table maps each occupied slot to the id in it. */
  datatype State = State(
    idCount: int,
    info: map<int, AddrInfo>,
    addr: map<NetAddr, int>,
    random: seq<int>,
    nTried: int,
    nNew: int,
    triedTable: map<Slot, int>,
    newTable: map<Slot, int>)

  const EMPTY := State(0, map[], map[], [], 0, 0, map[], map[])

  // ----- The invariant -----

  function Slots(table: map<Slot, int>, id: int): set<Slot> {
    set x | x in table && table[x] == id
  }

  function TriedIds(s: State): set<int> {
    set id | id in s.info && s.info[id].inTried
  }

  function NewIds(s: State, limbo: set<int>): set<int> {
    set id | id in s.info && !s.info[id].inTried && id !in limbo
  }

  /* The parts of the invariant are instantiated by name only: each quantifier below is
     triggered by the predicate of one id, address, position or slot. */

  ghost predicate IdOk(s: State, id: int)
    requires id in s.info
  {
    var i := s.info[id];
    && 0 <= id < s.idCount
    && i.service.addr in s.addr && s.addr[i.service.addr] == id
    && 0 <= i.randomPos < |s.random| && s.random[i.randomPos] == id
  }

  ghost predicate AddrOk(s: State, a: NetAddr)
    requires a in s.addr
  {
    s.addr[a] in s.info && s.info[s.addr[a]].service.addr == a
  }

  ghost predicate PosOk(s: State, p: int)
    requires 0 <= p < |s.random|
  {
    s.random[p] in s.info && s.info[s.random[p]].randomPos == p
  }

  /** mapInfo, mapAddr and vRandom are three views of the same entries. */
  ghost predicate Indexed(s: State) {
    && (forall id {:trigger IdOk(s, id)} :: id in s.info ==> IdOk(s, id))
    && (forall a {:trigger AddrOk(s, a)} :: a in s.addr ==> AddrOk(s, a))
    && (forall p {:trigger PosOk(s, p)} :: 0 <= p < |s.random| ==> PosOk(s, p))
    && |s.random| == |s.info.Keys|
    && s.idCount >= 0
  }

  /** A slot of the new table holds an entry that hashes to it. */
  ghost predicate NewSlotOk(h: Hasher, s: State, x: Slot)
    requires x in s.newTable
  {
    && s.newTable[x] in s.info
    && x.bucket < NEW_BUCKETS
    && x.pos == h.Position(true, x.bucket, s.info[s.newTable[x]].service)
  }

  ghost predicate NewSlotsOk(h: Hasher, s: State) {
    forall x {:trigger NewSlotOk(h, s, x)} :: x in s.newTable ==> NewSlotOk(h, s, x)
  }

  ghost predicate TriedSlotOk(h: Hasher, s: State, x: Slot)
    requires x in s.triedTable
  {
    && s.triedTable[x] in s.info
    && s.info[s.triedTable[x]].inTried
    && x == h.TriedSlot(s.info[s.triedTable[x]].service)
  }

  /** Neither time is negative, and a tried entry was reached once. */
  predicate StampsOk(i: AddrInfo) { i.lastTry >= 0 && i.lastSuccess >= 0 && (i.inTried ==> i.lastSuccess != 0) }

  /** One entry: ids in limbo are known but in no table, and their times do not matter. */
  ghost predicate EntryOk(h: Hasher, s: State, limbo: set<int>, id: int)
    requires id in s.info
  {
    var i, x := s.info[id], h.TriedSlot(s.info[id].service);
    && i.refCount == |Slots(s.newTable, id)| <= NEW_BUCKETS_PER_ADDRESS
    && (i.inTried ==> i.refCount == 0 && x in s.triedTable && s.triedTable[x] == id)
    && (id in limbo ==> !i.inTried && i.refCount == 0)
    && (!i.inTried && id !in limbo ==> i.refCount >= 1)
    && (id !in limbo ==> StampsOk(i))
  }

  /** The two tables and the figures kept about them; nNew may run ahead by extra. */
  ghost predicate Listed(h: Hasher, s: State, limbo: set<int>, extra: int) {
    && NewSlotsOk(h, s)
    && (forall x {:trigger TriedSlotOk(h, s, x)} :: x in s.triedTable ==> TriedSlotOk(h, s, x))
    && (forall id {:trigger EntryOk(h, s, limbo, id)} :: id in s.info ==> EntryOk(h, s, limbo, id))
    && limbo <= s.info.Keys
    && s.nTried == |TriedIds(s)|
    && s.nNew == |NewIds(s, limbo)| + extra
  }

  ghost predicate Inv(h: Hasher, s: State, limbo: set<int>, extra: int) {
    Indexed(s) && Listed(h, s, limbo, extra)
  }

  /** What Check_ checks. */
  ghost predicate Consistent(h: Hasher, s: State) {
    Inv(h, s, {}, 0)
  }

  // ----- The building blocks -----

  function NewInfo(a: Address, source: NetAddr, pos: int): AddrInfo {
    AddrInfo(a.service, a.services, a.time, source, 0, 0, 0, 0, false, pos)
  }

  function Create(s: State, a: Address, source: NetAddr): State {
    s.(idCount := s.idCount + 1,
       info := s.info[s.idCount := NewInfo(a, source, |s.random|)],
       addr := s.addr[a.service.addr := s.idCount],
       random := s.random + [s.idCount])
  }

  predicate CanSwap(s: State, p: int, q: int) {
    && 0 <= p < |s.random| && 0 <= q < |s.random|
    && s.random[p] in s.info && s.random[q] in s.info
  }

  function SwapRandom(s: State, p: int, q: int): State
    requires p == q || CanSwap(s, p, q)
  {
    if p == q then s
    else
      var id1, id2 := s.random[p], s.random[q];
      var info1 := s.info[id1 := s.info[id1].(randomPos := q)];
      s.(info := info1[id2 := info1[id2].(randomPos := p)],
         random := s.random[p := id2][q := id1])
  }

  function Delete(s: State, id: int): State
    requires id in s.info && s.random != [] && CanSwap(s, s.info[id].randomPos, |s.random| - 1)
  {
    var s1 := SwapRandom(s, s.info[id].randomPos, |s.random| - 1);
    s1.(random := s1.random[..|s1.random| - 1],
        addr := s1.addr - {s1.info[id].service.addr},
        info := s1.info - {id},
        nNew := s1.nNew - 1)
  }

  function Unref(s: State, x: Slot): State
    requires x in s.newTable && s.newTable[x] in s.info
  {
    var id := s.newTable[x];
    s.(info := s.info[id := s.info[id].(refCount := s.info[id].refCount - 1)], newTable := s.newTable - {x})
  }

  /** The entry in a slot loses it, and is deleted when that was its last. */
  function ClearNew(s: State, x: Slot): State
    requires Indexed(s) && (x in s.newTable ==> s.newTable[x] in s.info)
  {
    if x !in s.newTable then s
    else
      var s1 := Unref(s, x);
      if s1.info[s.newTable[x]].refCount == 0 then
        UnrefIndexed(s, x);
        Delete(s1, s.newTable[x])
      else s1
  }

  function Ref(s: State, id: int, x: Slot): State
    requires id in s.info
  {
    s.(info := s.info[id := s.info[id].(refCount := s.info[id].refCount + 1)], newTable := s.newTable[x := id])
  }

  /** Removes an entry from every new bucket. */
  function Unlist(s: State, id: int): State
    requires id in s.info
  {
    s.(info := s.info[id := s.info[id].(refCount := s.info[id].refCount - |Slots(s.newTable, id)|)],
       newTable := s.newTable - Slots(s.newTable, id))
  }

  lemma UpdateIndexed(s: State, id: int, i: AddrInfo)
    requires Indexed(s) && id in s.info
    requires i.service.addr == s.info[id].service.addr && i.randomPos == s.info[id].randomPos
    ensures Indexed(s.(info := s.info[id := i]))
  {
    var s' := s.(info := s.info[id := i]);
    assert s'.info.Keys == s.info.Keys;
    forall j | j in s'.info ensures IdOk(s', j) { assert IdOk(s, j); }
    forall a | a in s'.addr ensures AddrOk(s', a) { assert AddrOk(s, a); }
    forall p | 0 <= p < |s'.random| ensures PosOk(s', p) { assert PosOk(s, p); }
  }

  lemma UnrefIndexed(s: State, x: Slot)
    requires Indexed(s) && x in s.newTable && s.newTable[x] in s.info
    ensures var s1 := Unref(s, x);
      && Indexed(s1) && s1.random != []
      && CanSwap(s1, s1.info[s.newTable[x]].randomPos, |s1.random| - 1)
  {
    var id := s.newTable[x];
    UpdateIndexed(s, id, s.info[id].(refCount := s.info[id].refCount - 1));
    var s1, t := Unref(s, x), s.(info := Unref(s, x).info);
    assert IdOk(t, id);
    assert PosOk(t, |t.random| - 1);
    TablesAside(t, s1);
  }

  /** The index does not mention the tables and counters. */
  lemma TablesAside(s: State, s': State)
    requires Indexed(s)
    requires s'.info == s.info && s'.addr == s.addr && s'.random == s.random && s'.idCount == s.idCount
    ensures Indexed(s')
  {
    forall j | j in s'.info ensures IdOk(s', j) { assert IdOk(s, j); }
    forall a | a in s'.addr ensures AddrOk(s', a) { assert AddrOk(s, a); }
    forall p | 0 <= p < |s'.random| ensures PosOk(s', p) { assert PosOk(s, p); }
  }

  // ----- Small facts about the tables -----

  lemma Pick<T>(a: set<T>) returns (x: T)
    requires a != {}
    ensures x in a
  {
    x :| x in a;
  }

  lemma {:induction false} Smaller<T>(a: set<T>, b: set<T>)
    requires a <= b
    ensures |a| <= |b|
    decreases a
  {
    if a != {} {
      var x :| x in a;
      Smaller(a - {x}, b - {x});
    }
  }

  lemma SlotsAdd(table: map<Slot, int>, x: Slot, id: int, j: int)
    requires x !in table
    ensures Slots(table[x := id], j) == if j == id then Slots(table, j) + {x} else Slots(table, j)
    ensures |Slots(table[x := id], j)| == |Slots(table, j)| + if j == id then 1 else 0
  {
    assert Slots(table[x := id], j) == if j == id then Slots(table, j) + {x} else Slots(table, j);
    assert x !in Slots(table, j);
  }

  lemma SlotsRemove(table: map<Slot, int>, x: Slot, j: int)
    requires x in table
    ensures |Slots(table - {x}, j)| == |Slots(table, j)| - if j == table[x] then 1 else 0
  {
    assert Slots(table - {x}, j) == Slots(table, j) - {x};
  }

  lemma SlotsNone(table: map<Slot, int>, id: int)
    requires Slots(table, id) == {}
    ensures forall x :: x in table ==> table[x] != id
  {
    forall x | x in table ensures table[x] != id { assert x !in Slots(table, id); }
  }

  // ----- Each building block keeps the index -----

  lemma CreateIndexed(s: State, a: Address, source: NetAddr)
    requires Indexed(s) && a.service.addr !in s.addr
    ensures s.idCount !in s.info && Indexed(Create(s, a, source))
  {
    var s' := Create(s, a, source);
    forall j | j in s.info ensures j < s.idCount { assert IdOk(s, j); }
    assert s'.info.Keys == s.info.Keys + {s.idCount};
    forall j | j in s'.info ensures IdOk(s', j) { if j in s.info { assert IdOk(s, j); } }
    forall b | b in s'.addr ensures AddrOk(s', b) { if b in s.addr { assert AddrOk(s, b); } }
    forall p | 0 <= p < |s'.random| ensures PosOk(s', p) { if p < |s.random| { assert PosOk(s, p); } }
  }

  lemma SwapIndexed(s: State, p: int, q: int)
    requires Indexed(s) && 0 <= p < |s.random| && 0 <= q < |s.random|
    ensures CanSwap(s, p, q) && Indexed(SwapRandom(s, p, q))
    ensures multiset(SwapRandom(s, p, q).random) == multiset(s.random)
  {
    assert PosOk(s, p) && PosOk(s, q);
    if p != q {
      var s' := SwapRandom(s, p, q);
      assert s'.info.Keys == s.info.Keys;
      forall j | j in s'.info ensures IdOk(s', j) { assert IdOk(s, j); }
      forall a | a in s'.addr ensures AddrOk(s', a) { assert AddrOk(s, a); }
      forall r | 0 <= r < |s'.random| ensures PosOk(s', r) { assert PosOk(s, r); }
    }
  }

  /** s' is s without its last entry of vRandom, which is id. */
  ghost predicate Dropped(s: State, s': State, id: int) {
    && id in s.info && s.random != [] && s.info[id].randomPos == |s.random| - 1
    && s'.idCount == s.idCount && s'.info == s.info - {id}
    && s'.random == s.random[..|s.random| - 1] && s'.addr == s.addr - {s.info[id].service.addr}
  }

  lemma DropId(s: State, s': State, id: int, j: int)
    requires Indexed(s) && Dropped(s, s', id) && j in s'.info
    ensures IdOk(s', j)
  {
    assert IdOk(s, id) && IdOk(s, j);
  }

  lemma DropAddr(s: State, s': State, id: int, a: NetAddr)
    requires Indexed(s) && Dropped(s, s', id) && a in s'.addr
    ensures AddrOk(s', a)
  {
    assert AddrOk(s, a);
    assert s.addr[a] != id;
  }

  lemma DropPos(s: State, s': State, id: int, p: int)
    requires Indexed(s) && Dropped(s, s', id) && 0 <= p < |s'.random|
    ensures PosOk(s', p)
  {
    assert PosOk(s, p);
    assert s.random[p] != id;
  }

  lemma DropIndexed(s: State, s': State, id: int)
    requires Indexed(s) && Dropped(s, s', id)
    ensures Indexed(s')
  {
    assert s'.info.Keys == s.info.Keys - {id};
    forall j | j in s'.info ensures IdOk(s', j) { DropId(s, s', id, j); }
    forall a | a in s'.addr ensures AddrOk(s', a) { DropAddr(s, s', id, a); }
    forall p | 0 <= p < |s'.random| ensures PosOk(s', p) { DropPos(s, s', id, p); }
  }

  lemma DeleteIndexed(s: State, id: int)
    requires Indexed(s) && id in s.info
    ensures s.random != [] && CanSwap(s, s.info[id].randomPos, |s.random| - 1)
    ensures Indexed(Delete(s, id))
  {
    assert IdOk(s, id);
    SwapIndexed(s, s.info[id].randomPos, |s.random| - 1);
    var s1 := SwapRandom(s, s.info[id].randomPos, |s.random| - 1);
    assert PosOk(s1, |s1.random| - 1);
    DropIndexed(s1, Delete(s, id), id);
  }

  // ----- Each building block keeps the tables -----

  lemma CreateListed(h: Hasher, s: State, a: Address, source: NetAddr, limbo: set<int>, extra: int)
    requires Listed(h, s, limbo, extra) && s.idCount !in s.info
    ensures Listed(h, Create(s, a, source), limbo + {s.idCount}, extra)
  {
    var s', id := Create(s, a, source), s.idCount;
    forall x | x in s'.newTable ensures NewSlotOk(h, s', x) { assert NewSlotOk(h, s, x); }
    forall x | x in s'.triedTable ensures TriedSlotOk(h, s', x) { assert TriedSlotOk(h, s, x); }
    assert Slots(s.newTable, id) == {} by {
      forall x | x in s.newTable ensures s.newTable[x] != id { assert NewSlotOk(h, s, x); }
    }
    forall j | j in s'.info ensures EntryOk(h, s', limbo + {id}, j) {
      if j != id { assert EntryOk(h, s, limbo, j); }
    }
    assert TriedIds(s') == TriedIds(s);
    assert NewIds(s', limbo + {id}) == NewIds(s, limbo);
  }

  /** Entry j is in both states and differs at most in its position in vRandom. */
  ghost predicate Alike(s: State, s': State, j: int) {
    j in s.info && j in s'.info && s'.info[j] == s.info[j].(randomPos := s'.info[j].randomPos)
  }

  /** Only positions in vRandom differ. */
  lemma SameListed(h: Hasher, s: State, s': State, limbo: set<int>, extra: int)
    requires Listed(h, s, limbo, extra) && s'.info.Keys == s.info.Keys
    requires forall j {:trigger Alike(s, s', j)} :: j in s.info ==> Alike(s, s', j)
    requires s'.newTable == s.newTable && s'.triedTable == s.triedTable && s'.nNew == s.nNew && s'.nTried == s.nTried
    ensures Listed(h, s', limbo, extra)
  {
    forall x | x in s'.newTable ensures NewSlotOk(h, s', x) {
      assert NewSlotOk(h, s, x) && Alike(s, s', s.newTable[x]);
    }
    forall x | x in s'.triedTable ensures TriedSlotOk(h, s', x) {
      assert TriedSlotOk(h, s, x) && Alike(s, s', s.triedTable[x]);
    }
    forall j | j in s'.info ensures EntryOk(h, s', limbo, j) { assert Alike(s, s', j) && EntryOk(h, s, limbo, j); }
    assert TriedIds(s') == TriedIds(s) && NewIds(s', limbo) == NewIds(s, limbo) by {
      forall j | j in s.info ensures s'.info[j].inTried == s.info[j].inTried { assert Alike(s, s', j); }
    }
  }

  lemma SwapKeepsInfo(s: State, p: int, q: int)
    requires CanSwap(s, p, q)
    ensures var s' := SwapRandom(s, p, q);
      && s'.info.Keys == s.info.Keys
      && forall j {:trigger Alike(s, s', j)} :: j in s.info ==> Alike(s, s', j)
  {
  }

  lemma DropListed(h: Hasher, s: State, s': State, id: int, limbo: set<int>, extra: int)
    requires Listed(h, s, limbo, extra) && id in limbo
    requires s'.info == s.info - {id}
    requires s'.newTable == s.newTable && s'.triedTable == s.triedTable
    requires s'.nNew == s.nNew - 1 && s'.nTried == s.nTried
    ensures Listed(h, s', limbo - {id}, extra - 1)
  {
    assert EntryOk(h, s, limbo, id);
    SlotsNone(s.newTable, id);
    forall x | x in s'.newTable ensures NewSlotOk(h, s', x) { assert NewSlotOk(h, s, x); }
    forall x | x in s'.triedTable ensures TriedSlotOk(h, s', x) { assert TriedSlotOk(h, s, x); }
    forall j | j in s'.info ensures EntryOk(h, s', limbo - {id}, j) { assert EntryOk(h, s, limbo, j); }
    assert TriedIds(s') == TriedIds(s);
    assert NewIds(s', limbo - {id}) == NewIds(s, limbo);
  }

  /** The holder of a slot loses it; with no slot left it is in limbo, still counted. */
  lemma UnrefListed(h: Hasher, s: State, x: Slot, limbo: set<int>, extra: int)
    requires Listed(h, s, limbo, extra) && x in s.newTable
    ensures NewSlotOk(h, s, x)
    ensures var s', id := Unref(s, x), s.newTable[x];
      && id !in limbo
      && (if s'.info[id].refCount == 0 then Listed(h, s', limbo + {id}, extra + 1) else Listed(h, s', limbo, extra))
  {
    assert NewSlotOk(h, s, x);
    var s', id := Unref(s, x), s.newTable[x];
    assert x in Slots(s.newTable, id);
    assert EntryOk(h, s, limbo, id);
    var limbo' := if s'.info[id].refCount == 0 then limbo + {id} else limbo;
    forall y | y in s'.newTable ensures NewSlotOk(h, s', y) { assert NewSlotOk(h, s, y); }
    forall y | y in s'.triedTable ensures TriedSlotOk(h, s', y) { assert TriedSlotOk(h, s, y); }
    forall j | j in s'.info ensures EntryOk(h, s', limbo', j) {
      assert EntryOk(h, s, limbo, j);
      SlotsRemove(s.newTable, x, j);
    }
    assert TriedIds(s') == TriedIds(s);
    assert NewIds(s', limbo') == if id in limbo' then NewIds(s, limbo) - {id} else NewIds(s, limbo);
    assert id in NewIds(s, limbo);
  }

  /** Whoever holds a slot of the new table is a known, untried entry with a reference. */
  lemma HolderOk(h: Hasher, s: State, x: Slot, limbo: set<int>, extra: int)
    requires Listed(h, s, limbo, extra) && x in s.newTable
    ensures s.newTable[x] in s.info && s.newTable[x] !in limbo
    ensures s.info[s.newTable[x]].refCount > 0 && !s.info[s.newTable[x]].inTried
  {
    UnrefListed(h, s, x, limbo, extra);
    assert x in Slots(s.newTable, s.newTable[x]);
    assert EntryOk(h, s, limbo, s.newTable[x]);
  }

  /** Listing an entry in a free slot of the right position; it leaves limbo if it was there. */
  lemma RefListed(h: Hasher, s: State, id: int, x: Slot, limbo: set<int>, extra: int)
    requires Listed(h, s, limbo, extra) && id in s.info && !s.info[id].inTried
    requires x !in s.newTable && x.bucket < NEW_BUCKETS && x.pos == h.Position(true, x.bucket, s.info[id].service)
    requires s.info[id].refCount < NEW_BUCKETS_PER_ADDRESS && StampsOk(s.info[id])
    ensures Listed(h, Ref(s, id, x), limbo - {id}, if id in limbo then extra - 1 else extra)
  {
    var s' := Ref(s, id, x);
    assert EntryOk(h, s, limbo, id);
    forall y | y in s'.newTable ensures NewSlotOk(h, s', y) { if y != x { assert NewSlotOk(h, s, y); } }
    forall y | y in s'.triedTable ensures TriedSlotOk(h, s', y) { assert TriedSlotOk(h, s, y); }
    forall j | j in s'.info ensures EntryOk(h, s', limbo - {id}, j) {
      assert EntryOk(h, s, limbo, j);
      SlotsAdd(s.newTable, x, id, j);
    }
    assert TriedIds(s') == TriedIds(s);
    assert NewIds(s', limbo - {id}) == NewIds(s, limbo) + {id};
    if id in limbo {
      assert id !in NewIds(s, limbo);
    } else {
      assert NewIds(s, limbo) + {id} == NewIds(s, limbo);
    }
  }

  /** Out of every new bucket an entry is in limbo, still counted. */
  lemma UnlistListed(h: Hasher, s: State, id: int, limbo: set<int>, extra: int)
    requires Listed(h, s, limbo, extra) && id in s.info && !s.info[id].inTried && id !in limbo
    ensures Listed(h, Unlist(s, id), limbo + {id}, extra + 1)
    ensures Unlist(s, id).info[id].refCount == 0
  {
    var s' := Unlist(s, id);
    assert EntryOk(h, s, limbo, id);
    assert Slots(s'.newTable, id) == {};
    forall x | x in s'.newTable ensures NewSlotOk(h, s', x) { assert NewSlotOk(h, s, x); }
    forall x | x in s'.triedTable ensures TriedSlotOk(h, s', x) { assert TriedSlotOk(h, s, x); }
    forall j | j in s'.info ensures EntryOk(h, s', limbo + {id}, j) {
      assert EntryOk(h, s, limbo, j);
      if j != id { assert Slots(s'.newTable, j) == Slots(s.newTable, j); }
    }
    assert TriedIds(s') == TriedIds(s);
    assert NewIds(s', limbo + {id}) == NewIds(s, limbo) - {id};
    assert id in NewIds(s, limbo);
  }

  // ----- Delete and ClearNew -----

  lemma DeleteKeeps(h: Hasher, s: State, id: int, limbo: set<int>, extra: int, limbo': set<int>, extra': int)
    requires Inv(h, s, limbo, extra) && id in limbo && limbo' == limbo - {id} && extra' == extra - 1
    ensures s.random != [] && CanSwap(s, s.info[id].randomPos, |s.random| - 1)
    ensures Inv(h, Delete(s, id), limbo', extra')
    ensures Delete(s, id).info.Keys == s.info.Keys - {id}
    ensures forall j {:trigger Alike(s, Delete(s, id), j)} :: j in s.info && j != id ==> Alike(s, Delete(s, id), j)
  {
    DeleteIndexed(s, id);
    var p, q := s.info[id].randomPos, |s.random| - 1;
    SwapKeepsInfo(s, p, q);
    var s1 := SwapRandom(s, p, q);
    SameListed(h, s, s1, limbo, extra);
    var s' := Delete(s, id);
    DropListed(h, s1, s', id, limbo, extra);
    forall j | j in s.info && j != id ensures Alike(s, s', j) { assert Alike(s, s1, j); }
  }

  lemma ClearNewKeeps(h: Hasher, s: State, x: Slot, limbo: set<int>, extra: int)
    requires Inv(h, s, limbo, extra)
    ensures x in s.newTable ==> NewSlotOk(h, s, x)
    ensures Inv(h, ClearNew(s, x), limbo, extra)
  {
    if x in s.newTable {
      UnrefListed(h, s, x, limbo, extra);
      UnrefIndexed(s, x);
      var s1, id := Unref(s, x), s.newTable[x];
      if s1.info[id].refCount == 0 {
        DeleteKeeps(h, s1, id, limbo + {id}, extra + 1, limbo, extra);
      }
    }
  }

  /** What ClearNew does not touch: everyone but the holder of the slot. */
  lemma ClearNewAlike(h: Hasher, s: State, x: Slot)
    requires Indexed(s) && (x in s.newTable ==> s.newTable[x] in s.info)
    ensures var s' := ClearNew(s, x);
      && s'.newTable == s.newTable - {x} && s'.triedTable == s.triedTable && s'.idCount == s.idCount
      && forall j {:trigger Alike(s, s', j)} :: j in s.info && (x in s.newTable ==> j != s.newTable[x]) ==>
           Alike(s, s', j)
  {
    if x in s.newTable {
      UnrefIndexed(s, x);
      var s1, id := Unref(s, x), s.newTable[x];
      if s1.info[id].refCount == 0 {
        SwapKeepsInfo(s1, s1.info[id].randomPos, |s1.random| - 1);
        var s2, s' := SwapRandom(s1, s1.info[id].randomPos, |s1.random| - 1), ClearNew(s, x);
        forall j | j in s.info && j != id ensures Alike(s, s', j) { assert Alike(s1, s2, j); }
      }
    } else {
      assert s.newTable - {x} == s.newTable;
    }
  }

  // ----- Unlisting bucket by bucket -----

  function SlotsBelow(table: map<Slot, int>, id: int, b: int): set<Slot> {
    set x | x in table && table[x] == id && x.bucket < b
  }

  /** The state after the buckets below b were searched for an entry. */
  function UnlistBelow(s: State, id: int, b: int): State
    requires id in s.info
  {
    s.(info := s.info[id := s.info[id].(refCount := s.info[id].refCount - |SlotsBelow(s.newTable, id, b)|)],
       newTable := s.newTable - SlotsBelow(s.newTable, id, b))
  }

  lemma UnlistNone(s: State, id: int)
    requires id in s.info
    ensures UnlistBelow(s, id, 0) == s
  {
    assert SlotsBelow(s.newTable, id, 0) == {};
    assert s.info[id := s.info[id]] == s.info;
  }

  lemma UnlistEvery(h: Hasher, s: State, id: int)
    requires NewSlotsOk(h, s) && id in s.info
    ensures UnlistBelow(s, id, NEW_BUCKETS) == Unlist(s, id)
  {
    forall x | x in s.newTable ensures x.bucket < NEW_BUCKETS { assert NewSlotOk(h, s, x); }
    assert SlotsBelow(s.newTable, id, NEW_BUCKETS) == Slots(s.newTable, id);
    assert UnlistBelow(s, id, NEW_BUCKETS).newTable == Unlist(s, id).newTable;
  }

  /** In each bucket only the entry's own position can hold it. */
  lemma UnlistNext(h: Hasher, s: State, id: int, b: nat)
    requires NewSlotsOk(h, s) && id in s.info
    ensures var s1, x := UnlistBelow(s, id, b), Slot(b, h.Position(true, b, s.info[id].service));
      UnlistBelow(s, id, b + 1) ==
        if x in s1.newTable && s1.newTable[x] == id then
          s1.(info := s1.info[id := s1.info[id].(refCount := s1.info[id].refCount - 1)], newTable := s1.newTable - {x})
        else s1
  {
    var x := Slot(b, h.Position(true, b, s.info[id].service));
    forall y | y in s.newTable && s.newTable[y] == id && y.bucket == b ensures y == x { assert NewSlotOk(h, s, y); }
    var s1, s2 := UnlistBelow(s, id, b), UnlistBelow(s, id, b + 1);
    if x in s.newTable && s.newTable[x] == id {
      assert SlotsBelow(s.newTable, id, b + 1) == SlotsBelow(s.newTable, id, b) + {x};
      assert s2.newTable == s1.newTable - {x};
    } else {
      assert SlotsBelow(s.newTable, id, b + 1) == SlotsBelow(s.newTable, id, b);
      assert s2.newTable == s1.newTable;
    }
  }

  // ----- MakeTried -----

  function Untry(s: State, x: Slot): State
    requires x in s.triedTable && s.triedTable[x] in s.info
  {
    var id := s.triedTable[x];
    s.(info := s.info[id := s.info[id].(inTried := false)], triedTable := s.triedTable - {x}, nTried := s.nTried - 1)
  }

  function Try(s: State, id: int, x: Slot): State
    requires id in s.info
  {
    s.(info := s.info[id := s.info[id].(inTried := true)], triedTable := s.triedTable[x := id], nTried := s.nTried + 1)
  }

  lemma UntryKeeps(h: Hasher, s: State, x: Slot, limbo: set<int>, extra: int)
    requires Inv(h, s, limbo, extra) && x in s.triedTable
    ensures TriedSlotOk(h, s, x)
    ensures Inv(h, Untry(s, x), limbo + {s.triedTable[x]}, extra) && s.triedTable[x] !in limbo
  {
    assert TriedSlotOk(h, s, x);
    var s', id := Untry(s, x), s.triedTable[x];
    assert EntryOk(h, s, limbo, id);
    UpdateIndexed(s, id, s'.info[id]);
    TablesAside(s.(info := s'.info), s');
    forall y | y in s'.newTable ensures NewSlotOk(h, s', y) { assert NewSlotOk(h, s, y); }
    forall y | y in s'.triedTable ensures TriedSlotOk(h, s', y) { assert TriedSlotOk(h, s, y); }
    forall j | j in s'.info ensures EntryOk(h, s', limbo + {id}, j) { assert EntryOk(h, s, limbo, j); }
    assert TriedIds(s') == TriedIds(s) - {id} && id in TriedIds(s);
    assert NewIds(s', limbo + {id}) == NewIds(s, limbo);
  }

  lemma TryKeeps(h: Hasher, s: State, id: int, limbo: set<int>, extra: int)
    requires Inv(h, s, limbo, extra) && id in limbo && id in s.info
    requires s.info[id].lastTry >= 0 && s.info[id].lastSuccess > 0
    requires h.TriedSlot(s.info[id].service) !in s.triedTable
    ensures Inv(h, Try(s, id, h.TriedSlot(s.info[id].service)), limbo - {id}, extra)
  {
    var x := h.TriedSlot(s.info[id].service);
    var s' := Try(s, id, x);
    assert EntryOk(h, s, limbo, id);
    UpdateIndexed(s, id, s'.info[id]);
    TablesAside(s.(info := s'.info), s');
    forall y | y in s'.newTable ensures NewSlotOk(h, s', y) { assert NewSlotOk(h, s, y); }
    forall y | y in s'.triedTable ensures TriedSlotOk(h, s', y) { if y != x { assert TriedSlotOk(h, s, y); } }
    forall j | j in s'.info ensures EntryOk(h, s', limbo - {id}, j) { assert EntryOk(h, s, limbo, j); }
    assert TriedIds(s') == TriedIds(s) + {id} && id !in TriedIds(s);
    assert NewIds(s', limbo - {id}) == NewIds(s, limbo);
  }

  /** ClearNew followed by listing an id of limbo in the freed slot. */
  function Relist(h: Hasher, s: State, id: int, x: Slot): State
    requires Indexed(s) && (x in s.newTable ==> s.newTable[x] in s.info && s.newTable[x] != id)
    requires id in ClearNew(s, x).info
  {
    Ref(ClearNew(s, x), id, x)
  }

  lemma RelistKeeps(h: Hasher, s: State, id: int, source: NetAddr, limbo: set<int>, extra: int)
    requires Inv(h, s, limbo, extra) && id in s.info && !s.info[id].inTried
    requires s.info[id].refCount < NEW_BUCKETS_PER_ADDRESS && StampsOk(s.info[id])
    requires var x := h.NewSlot(s.info[id].service, source); x in s.newTable ==> s.newTable[x] != id
    ensures var x := h.NewSlot(s.info[id].service, source);
      && (x in s.newTable ==> s.newTable[x] in s.info)
      && id in ClearNew(s, x).info && x !in ClearNew(s, x).newTable
      && Inv(h, Relist(h, s, id, x), limbo - {id}, if id in limbo then extra - 1 else extra)
      && Relist(h, s, id, x).triedTable == s.triedTable
      && forall j {:trigger Alike(s, ClearNew(s, x), j)} :: j in limbo ==> Alike(s, ClearNew(s, x), j)
  {
    var x := h.NewSlot(s.info[id].service, source);
    ClearNewKeeps(h, s, x, limbo, extra);
    ClearNewAlike(h, s, x);
    if x in s.newTable { HolderOk(h, s, x, limbo, extra); }
    var s1 := ClearNew(s, x);
    assert Alike(s, s1, id);
    RefListed(h, s1, id, x, limbo, extra);
    UpdateIndexed(s1, id, Ref(s1, id, x).info[id]);
    TablesAside(s1.(info := Ref(s1, id, x).info), Ref(s1, id, x));
  }

  /** The entry in a tried slot goes back to its new bucket, deleting whatever is there. */
  function Evict(h: Hasher, s: State, x: Slot, limbo: set<int>): State
    requires Inv(h, s, limbo, 0) && x in s.triedTable
  {
    UntryKeeps(h, s, x, limbo, 0);
    var s1, id := Untry(s, x), s.triedTable[x];
    EvictReady(h, s, x, limbo);
    var s2 := Relist(h, s1, id, h.NewSlot(s1.info[id].service, s1.info[id].source));
    s2.(nNew := s2.nNew + 1)
  }

  lemma EvictReady(h: Hasher, s: State, x: Slot, limbo: set<int>)
    requires Inv(h, s, limbo, 0) && x in s.triedTable && s.triedTable[x] in s.info
    ensures var s1, id := Untry(s, x), s.triedTable[x];
      var y := h.NewSlot(s1.info[id].service, s1.info[id].source);
      && Indexed(s1) && (y in s1.newTable ==> s1.newTable[y] in s1.info && s1.newTable[y] != id)
      && id in ClearNew(s1, y).info && y !in ClearNew(s1, y).newTable
      && Inv(h, Relist(h, s1, id, y), limbo, -1)
      && Relist(h, s1, id, y).triedTable == s.triedTable - {x}
      && Alike(s1, ClearNew(s1, y), id)
      && forall j {:trigger Alike(s1, ClearNew(s1, y), j)} :: j in limbo ==> Alike(s1, ClearNew(s1, y), j)
  {
    UntryKeeps(h, s, x, limbo, 0);
    var s1, id := Untry(s, x), s.triedTable[x];
    var y := h.NewSlot(s1.info[id].service, s1.info[id].source);
    assert EntryOk(h, s, limbo, id) && EntryOk(h, s1, limbo + {id}, id);
    SlotsNone(s1.newTable, id);
    RelistKeeps(h, s1, id, s1.info[id].source, limbo + {id}, 0);
    assert limbo + {id} - {id} == limbo;
  }

  /** What the steps of an eviction rely on. */
  lemma EvictSteps(h: Hasher, s: State, x: Slot, limbo: set<int>)
    requires Inv(h, s, limbo, 0) && x in s.triedTable
    ensures s.triedTable[x] in s.info && s.triedTable[x] >= 0
    ensures var s1, id := Untry(s, x), s.triedTable[x];
      var y := h.NewSlot(s1.info[id].service, s1.info[id].source);
      && Indexed(s1)
      && (y in s1.newTable ==>
          && s1.newTable[y] in s1.info
          && s1.info[s1.newTable[y]].refCount > 0
          && !s1.info[s1.newTable[y]].inTried)
      && y !in ClearNew(s1, y).newTable
      && id in ClearNew(s1, y).info && ClearNew(s1, y).info[id].refCount == 0
      && Evict(h, s, x, limbo) == (var s2 := Ref(ClearNew(s1, y), id, y); s2.(nNew := s2.nNew + 1))
  {
    UntryKeeps(h, s, x, limbo, 0);
    EvictReady(h, s, x, limbo);
    var s1, id := Untry(s, x), s.triedTable[x];
    var y := h.NewSlot(s1.info[id].service, s1.info[id].source);
    assert IdOk(s, id);
    assert EntryOk(h, s1, limbo + {id}, id);
    if y in s1.newTable { HolderOk(h, s1, y, limbo + {id}, 0); }
  }

  lemma EvictKeeps(h: Hasher, s: State, x: Slot, id: int)
    requires Inv(h, s, {id}, 0) && x in s.triedTable && id in s.info
    ensures var s' := Evict(h, s, x, {id});
      && Inv(h, s', {id}, 0) && s'.triedTable == s.triedTable - {x}
      && id in s'.info && s'.info[id].service == s.info[id].service
      && s'.info[id].lastTry == s.info[id].lastTry && s'.info[id].lastSuccess == s.info[id].lastSuccess
  {
    UntryKeeps(h, s, x, {id}, 0);
    EvictReady(h, s, x, {id});
    var s1, e := Untry(s, x), s.triedTable[x];
    var y := h.NewSlot(s1.info[e].service, s1.info[e].source);
    assert Alike(s1, ClearNew(s1, y), id);
    var s2 := Relist(h, s1, e, y);
    CountersAside(h, s2, Evict(h, s, x, {id}), {id}, -1, 0);
  }

  /** Moving nNew moves extra. */
  lemma CountersAside(h: Hasher, s: State, s': State, limbo: set<int>, extra: int, extra': int)
    requires Inv(h, s, limbo, extra) && s' == s.(nNew := s'.nNew) && extra' - extra == s'.nNew - s.nNew
    ensures Inv(h, s', limbo, extra')
  {
    TablesAside(s, s');
    forall x | x in s'.newTable ensures NewSlotOk(h, s', x) { assert NewSlotOk(h, s, x); }
    forall x | x in s'.triedTable ensures TriedSlotOk(h, s', x) { assert TriedSlotOk(h, s, x); }
    forall j | j in s'.info ensures EntryOk(h, s', limbo, j) { assert EntryOk(h, s, limbo, j); }
    assert TriedIds(s') == TriedIds(s) && NewIds(s', limbo) == NewIds(s, limbo);
  }

  /** The state as if an entry had never been tried or reached. */
  function Unstamped(s: State, id: int): State
    requires id in s.info
  {
    s.(info := s.info[id := s.info[id].(lastTry := 0, lastSuccess := 0)])
  }

  /** An untried entry of a manager that is consistent but for the times of this entry. */
  ghost predicate CanTry(h: Hasher, s: State, id: int) {
    id in s.info && !s.info[id].inTried && Consistent(h, Unstamped(s, id))
  }

  lemma CanTryIndexed(h: Hasher, s: State, id: int)
    requires CanTry(h, s, id)
    ensures Indexed(s) && NewSlotsOk(h, s) && id >= 0 && Slots(s.newTable, id) != {}
  {
    var t := Unstamped(s, id);
    UpdateIndexed(t, id, s.info[id]);
    assert t.info[id := s.info[id]] == s.info;
    forall x | x in s.newTable ensures NewSlotOk(h, s, x) { assert NewSlotOk(h, t, x); }
    assert IdOk(t, id) && EntryOk(h, t, {}, id);
  }

  /** The times of an entry in limbo do not matter. */
  lemma LimboTimes(h: Hasher, s: State, s': State, id: int, limbo: set<int>)
    requires Inv(h, s, limbo, 0) && id in limbo && id in s.info && id in s'.info
    requires s' == s.(info := s.info[id := s'.info[id]])
    requires s'.info[id] == s.info[id].(lastTry := s'.info[id].lastTry, lastSuccess := s'.info[id].lastSuccess)
    ensures Inv(h, s', limbo, 0)
  {
    UpdateIndexed(s, id, s'.info[id]);
    forall x | x in s'.newTable ensures NewSlotOk(h, s', x) { assert NewSlotOk(h, s, x); }
    forall x | x in s'.triedTable ensures TriedSlotOk(h, s', x) { assert TriedSlotOk(h, s, x); }
    forall j | j in s'.info ensures EntryOk(h, s', limbo, j) { assert EntryOk(h, s, limbo, j); }
    assert TriedIds(s') == TriedIds(s) && NewIds(s', limbo) == NewIds(s, limbo);
  }

  function Unlisted(s: State, id: int): State
    requires id in s.info
  {
    Unlist(s, id).(nNew := s.nNew - 1)
  }

  lemma UnlistedConsistent(h: Hasher, s: State, id: int)
    requires Consistent(h, s) && id in s.info && !s.info[id].inTried
    ensures Inv(h, Unlisted(s, id), {id}, 0) && Unlisted(s, id).info[id].refCount == 0
  {
    UnlistListed(h, s, id, {}, 0);
    UpdateIndexed(s, id, Unlist(s, id).info[id]);
    TablesAside(s.(info := Unlist(s, id).info), Unlist(s, id));
    assert {} + {id} == {id};
    CountersAside(h, Unlist(s, id), Unlisted(s, id), {id}, 1, 0);
  }

  lemma UnlistedKeeps(h: Hasher, s: State, id: int)
    requires CanTry(h, s, id)
    ensures Inv(h, Unlisted(s, id), {id}, 0) && Unlisted(s, id).info[id].refCount == 0
  {
    var t := Unstamped(s, id);
    UnlistedConsistent(h, t, id);
    var s', t' := Unlisted(s, id), Unlisted(t, id);
    assert s'.info == t'.info[id := s'.info[id]];
    LimboTimes(h, t', s', id, {id});
  }

  function MakeTried(h: Hasher, s: State, id: int): State
    requires CanTry(h, s, id)
  {
    UnlistedKeeps(h, s, id);
    var s1 := Unlisted(s, id);
    var x := h.TriedSlot(s1.info[id].service);
    if x in s1.triedTable then
      EvictKeeps(h, s1, x, id);
      Try(Evict(h, s1, x, {id}), id, x)
    else Try(s1, id, x)
  }

  /** The entry is tried afterwards; the manager is consistent if and only if its times allow that. */
  lemma MakeTriedExact(h: Hasher, s: State, id: int)
    requires CanTry(h, s, id)
    ensures var s' := MakeTried(h, s, id);
      && id in s'.info && s'.info[id].inTried
      && (Consistent(h, s') <==> s.info[id].lastTry >= 0 && s.info[id].lastSuccess > 0)
  {
    UnlistedKeeps(h, s, id);
    var s1 := Unlisted(s, id);
    var x := h.TriedSlot(s1.info[id].service);
    if x in s1.triedTable { EvictKeeps(h, s1, x, id); }
    var s2 := if x in s1.triedTable then Evict(h, s1, x, {id}) else s1;
    assert MakeTried(h, s, id) == Try(s2, id, x);
    assert {id} - {id} == {};
    if s.info[id].lastTry >= 0 && s.info[id].lastSuccess > 0 {
      TryKeeps(h, s2, id, {id}, 0);
    } else {
      assert !EntryOk(h, MakeTried(h, s, id), {}, id);
    }
  }

  // ----- The operations -----

  predicate Matches(s: State, a: Service) {
    a.addr in s.addr && s.addr[a.addr] in s.info && s.info[s.addr[a.addr]].service == a
  }

  /** A change of the time stamps of one entry. */
  lemma TouchKeeps(h: Hasher, s: State, id: int, i: AddrInfo)
    requires Consistent(h, s) && id in s.info
    requires StampsOk(i)
    requires i.service == s.info[id].service && i.refCount == s.info[id].refCount
    requires i.inTried == s.info[id].inTried && i.randomPos == s.info[id].randomPos
    ensures Consistent(h, s.(info := s.info[id := i]))
  {
    var s' := s.(info := s.info[id := i]);
    UpdateIndexed(s, id, i);
    forall x | x in s'.newTable ensures NewSlotOk(h, s', x) { assert NewSlotOk(h, s, x); }
    forall x | x in s'.triedTable ensures TriedSlotOk(h, s', x) { assert TriedSlotOk(h, s, x); }
    forall j | j in s'.info ensures EntryOk(h, s', {}, j) { assert EntryOk(h, s, {}, j); }
    assert TriedIds(s') == TriedIds(s) && NewIds(s', {}) == NewIds(s, {});
  }

  function Succeeded(i: AddrInfo, time: int): AddrInfo {
    i.(lastSuccess := time, lastTry := time, attempts := 0)
  }

  /** A consistent manager whose untried entry gets any times is ready to try it. */
  lemma StampedCanTry(h: Hasher, s: State, id: int, time: int)
    requires Consistent(h, s) && id in s.info && !s.info[id].inTried
    ensures CanTry(h, s.(info := s.info[id := Succeeded(s.info[id], time)]), id)
  {
    var s1 := s.(info := s.info[id := Succeeded(s.info[id], time)]);
    TouchKeeps(h, s, id, Unstamped(s1, id).info[id]);
    assert Unstamped(s1, id).info == s.info[id := Unstamped(s1, id).info[id]];
  }

  function Good(h: Hasher, s: State, a: Service, time: int): State
    requires Consistent(h, s)
  {
    if !Matches(s, a) then s
    else
      var id := s.addr[a.addr];
      var s1 := s.(info := s.info[id := Succeeded(s.info[id], time)]);
      if s1.info[id].inTried then s1
      else
        StampedCanTry(h, s, id, time);
        MakeTried(h, s1, id)
  }

  function Attempt(s: State, a: Service, time: int): State {
    if !Matches(s, a) then s
    else
      var id := s.addr[a.addr];
      s.(info := s.info[id := s.info[id].(lastTry := time, attempts := s.info[id].attempts + 1)])
  }

  function Connected(s: State, a: Service, time: int): State {
    if !Matches(s, a) then s
    else
      var id := s.addr[a.addr];
      if time - s.info[id].time > 20 * 60 then s.(info := s.info[id := s.info[id].(time := time)]) else s
  }

  /** Good_ keeps consistency exactly when its time is positive, or nothing matches; a match is tried afterwards. */
  lemma GoodExact(h: Hasher, s: State, a: Service, time: int)
    requires Consistent(h, s)
    ensures Consistent(h, Good(h, s, a, time)) <==> time > 0 || !Matches(s, a)
    ensures Matches(s, a) ==>
      var id := s.addr[a.addr]; id in Good(h, s, a, time).info && Good(h, s, a, time).info[id].inTried
  {
    if Matches(s, a) {
      var id := s.addr[a.addr];
      var s1 := s.(info := s.info[id := Succeeded(s.info[id], time)]);
      if s1.info[id].inTried {
        if time > 0 { TouchKeeps(h, s, id, s1.info[id]); } else { assert !EntryOk(h, s1, {}, id); }
      } else {
        StampedCanTry(h, s, id, time);
        MakeTriedExact(h, s1, id);
      }
    }
  }

  /** Attempt_ keeps consistency exactly when its time is not negative, or nothing matches. */
  lemma AttemptExact(h: Hasher, s: State, a: Service, time: int)
    requires Consistent(h, s)
    ensures Consistent(h, Attempt(s, a, time)) <==> time >= 0 || !Matches(s, a)
  {
    if Matches(s, a) {
      var id := s.addr[a.addr];
      assert EntryOk(h, s, {}, id);
      if time >= 0 {
        TouchKeeps(h, s, id, Attempt(s, a, time).info[id]);
      } else {
        assert !EntryOk(h, Attempt(s, a, time), {}, id);
      }
    }
  }

  lemma ConnectedKeeps(h: Hasher, s: State, a: Service, time: int)
    requires Consistent(h, s)
    ensures Consistent(h, Connected(s, a, time))
  {
    if Matches(s, a) {
      var id := s.addr[a.addr];
      assert EntryOk(h, s, {}, id);
      TouchKeeps(h, s, id, s.info[id].(time := time));
    }
  }

  // ----- Add -----

  /** A known entry hears about itself again. */
  function Heard(i: AddrInfo, a: Address, penalty: int, now: int): AddrInfo {
    var interval := if now - a.time < DAY then 60 * 60 else DAY;
    var time :=
      if a.time != 0 && (i.time == 0 || i.time < a.time - interval - penalty) then Max(0, a.time - penalty) else i.time;
    i.(time := time, services := i.services + a.services)
  }

  /** Whether a known entry may get one more reference. */
  predicate MayList(i: AddrInfo, a: Address, roll: nat) {
    && a.time != 0 && !(i.time != 0 && a.time <= i.time)
    && !i.inTried
    && i.refCount != NEW_BUCKETS_PER_ADDRESS
    && (i.refCount >= 0 ==> roll % Pow2(i.refCount) == 0)
  }

  predicate MayOverwrite(s: State, id: int, x: Slot, now: int)
    requires id in s.info && (x in s.newTable ==> s.newTable[x] in s.info)
  {
    x !in s.newTable
    || s.info[s.newTable[x]].IsTerrible(now)
    || (s.info[s.newTable[x]].refCount > 1 && s.info[id].refCount == 0)
  }

  /** An entry about to be listed: a known one with room, or a new one in limbo. */
  ghost predicate CanPlace(h: Hasher, s: State, id: int) {
    && id in s.info && !s.info[id].inTried && s.info[id].refCount < NEW_BUCKETS_PER_ADDRESS && StampsOk(s.info[id])
    && (Consistent(h, s) || Inv(h, s, {id}, 1))
  }

  lemma PlaceReady(h: Hasher, s: State, id: int, source: NetAddr)
    requires CanPlace(h, s, id)
    ensures var x := h.NewSlot(s.info[id].service, source);
      && Indexed(s)
      && (x in s.newTable ==>
          && s.newTable[x] in s.info
          && s.info[s.newTable[x]].refCount > 0
          && !s.info[s.newTable[x]].inTried)
      && (x in s.newTable && s.newTable[x] == id ==> Consistent(h, s))
      && ((x in s.newTable ==> s.newTable[x] != id) ==>
          id in ClearNew(s, x).info && x !in ClearNew(s, x).newTable && Consistent(h, Relist(h, s, id, x)))
      && (s.info[id].refCount == 0 ==>
          s.random != [] && CanSwap(s, s.info[id].randomPos, |s.random| - 1) && Consistent(h, Delete(s, id)))
      && (s.info[id].refCount != 0 ==> Consistent(h, s))
  {
    var x := h.NewSlot(s.info[id].service, source);
    var limbo: set<int>, extra := if Consistent(h, s) then {} else {id}, if Consistent(h, s) then 0 else 1;
    assert Inv(h, s, limbo, extra);
    if x in s.newTable { HolderOk(h, s, x, limbo, extra); }
    assert EntryOk(h, s, limbo, id);
    if x in s.newTable && s.newTable[x] == id {
      assert x in Slots(s.newTable, id);
    } else {
      RelistKeeps(h, s, id, source, limbo, extra);
      assert limbo - {id} == {};
    }
    if s.info[id].refCount == 0 {
      DeleteKeeps(h, s, id, limbo, extra, {}, 0);
    }
  }

  function Place(h: Hasher, s: State, id: int, source: NetAddr, now: int): State
    requires CanPlace(h, s, id)
  {
    PlaceReady(h, s, id, source);
    var x := h.NewSlot(s.info[id].service, source);
    if x in s.newTable && s.newTable[x] == id then s
    else if MayOverwrite(s, id, x, now) then Relist(h, s, id, x)
    else if s.info[id].refCount == 0 then Delete(s, id)
    else s
  }

  /** The state in which a new entry is placed. */
  function Enlisted(s: State, a: Address, source: NetAddr, penalty: int): State {
    var s1 := Create(s, a.(time := Max(0, a.time - penalty)), source);
    s1.(nNew := s1.nNew + 1)
  }

  lemma CreateKeeps(h: Hasher, s: State, a: Address, source: NetAddr, limbo: set<int>)
    requires Consistent(h, s) && a.service.addr !in s.addr && limbo == {s.idCount}
    ensures s.idCount !in s.info && Inv(h, Create(s, a, source), limbo, 0)
  {
    CreateIndexed(s, a, source);
    CreateListed(h, s, a, source, {}, 0);
    assert limbo == {} + {s.idCount};
  }

  lemma EnlistedKeeps(h: Hasher, s: State, a: Address, source: NetAddr, penalty: int)
    requires Consistent(h, s) && a.service.addr !in s.addr
    ensures s.idCount !in s.info && CanPlace(h, Enlisted(s, a, source, penalty), s.idCount)
  {
    var limbo := {s.idCount};
    var s1 := Create(s, a.(time := Max(0, a.time - penalty)), source);
    CreateKeeps(h, s, a.(time := Max(0, a.time - penalty)), source, limbo);
    CountersAside(h, s1, Enlisted(s, a, source, penalty), limbo, 0, 1);
  }

  lemma HeardKeeps(h: Hasher, s: State, a: Address, penalty: int, now: int)
    requires Consistent(h, s) && a.service.addr in s.addr
    ensures AddrOk(s, a.service.addr)
    ensures var id := s.addr[a.service.addr];
      var s1 := s.(info := s.info[id := Heard(s.info[id], a, penalty, now)]);
      && Consistent(h, s1) && StampsOk(s1.info[id])
      && 0 <= s1.info[id].refCount <= NEW_BUCKETS_PER_ADDRESS
  {
    assert AddrOk(s, a.service.addr);
    var id := s.addr[a.service.addr];
    assert EntryOk(h, s, {}, id);
    TouchKeeps(h, s, id, Heard(s.info[id], a, penalty, now));
  }

  /** Add_: the flag says whether the address was unknown. */
  function Add(h: Hasher, s: State, a: Address, source: NetAddr, penalty: int, now: int, roll: nat): (State, bool)
    requires Consistent(h, s)
  {
    if !h.routable(a.service.addr) then (s, false)
    else if a.service.addr in s.addr then
      HeardKeeps(h, s, a, penalty, now);
      var id := s.addr[a.service.addr];
      var s1 := s.(info := s.info[id := Heard(s.info[id], a, penalty, now)]);
      (if MayList(s1.info[id], a, roll) then Place(h, s1, id, source, now) else s1, false)
    else
      EnlistedKeeps(h, s, a, source, penalty);
      (Place(h, Enlisted(s, a, source, penalty), s.idCount, source, now), true)
  }

  lemma PlaceKeeps(h: Hasher, s: State, id: int, source: NetAddr, now: int)
    requires CanPlace(h, s, id)
    ensures Consistent(h, Place(h, s, id, source, now))
  {
    PlaceReady(h, s, id, source);
  }

  lemma AddKeeps(h: Hasher, s: State, a: Address, source: NetAddr, penalty: int, now: int, roll: nat)
    requires Consistent(h, s)
    ensures Consistent(h, Add(h, s, a, source, penalty, now, roll).0)
  {
    if h.routable(a.service.addr) {
      if a.service.addr in s.addr {
        HeardKeeps(h, s, a, penalty, now);
        var id := s.addr[a.service.addr];
        var s1 := s.(info := s.info[id := Heard(s.info[id], a, penalty, now)]);
        if MayList(s1.info[id], a, roll) { PlaceKeeps(h, s1, id, source, now); }
      } else {
        EnlistedKeeps(h, s, a, source, penalty);
        PlaceKeeps(h, Enlisted(s, a, source, penalty), s.idCount, source, now);
      }
    }
  }

  // ----- GetAddr: a partial shuffle of vRandom -----

  /** The random choices of a shuffle: position n is swapped with picks[n], from n on. */
  predicate Picks(picks: seq<nat>, size: nat) {
    |picks| <= size && forall n :: 0 <= n < |picks| ==> n <= picks[n] < size
  }

  /** The partial shuffle that follows the picks. */
  function Shuffled(s: State, picks: seq<nat>): (r: State)
    requires Indexed(s) && Picks(picks, |s.random|)
    ensures Indexed(r) && |r.random| == |s.random|
  {
    if picks == [] then s
    else
      var k := |picks| - 1;
      var s1 := Shuffled(s, picks[..k]);
      SwapIndexed(s1, k, picks[k]);
      SwapRandom(s1, k, picks[k])
  }

  lemma ShuffledNext(s: State, picks: seq<nat>, n: nat)
    requires Indexed(s) && Picks(picks, |s.random|) && n < |picks|
    ensures var s1 := Shuffled(s, picks[..n]);
      && (n == picks[n] || CanSwap(s1, n, picks[n]))
      && Shuffled(s, picks[..n + 1]) == SwapRandom(s1, n, picks[n])
  {
    assert picks[..n + 1][..n] == picks[..n];
    SwapIndexed(Shuffled(s, picks[..n]), n, picks[n]);
  }

  ghost predicate ShuffledAside(s: State, s': State) {
    && s'.info.Keys == s.info.Keys
    && s'.newTable == s.newTable && s'.triedTable == s.triedTable
    && s'.nNew == s.nNew && s'.nTried == s.nTried && s'.addr == s.addr && s'.idCount == s.idCount
  }

  /** No entry is changed, gained or lost by the shuffle. */
  lemma {:induction false} ShuffledAlike(s: State, picks: seq<nat>)
    requires Indexed(s) && Picks(picks, |s.random|)
    ensures forall j {:trigger Alike(s, Shuffled(s, picks), j)} :: j in s.info ==> Alike(s, Shuffled(s, picks), j)
    ensures ShuffledAside(s, Shuffled(s, picks))
  {
    if picks != [] {
      var k := |picks| - 1;
      ShuffledAlike(s, picks[..k]);
      var s1, s' := Shuffled(s, picks[..k]), Shuffled(s, picks);
      SwapIndexed(s1, k, picks[k]);
      SwapKeepsInfo(s1, k, picks[k]);
      forall j | j in s.info ensures Alike(s, s', j) { assert Alike(s, s1, j) && Alike(s1, s', j); }
    }
  }

  lemma ShuffledKeeps(h: Hasher, s: State, picks: seq<nat>)
    requires Consistent(h, s) && Picks(picks, |s.random|)
    ensures Consistent(h, Shuffled(s, picks))
  {
    ShuffledAlike(s, picks);
    SameListed(h, s, Shuffled(s, picks), {}, 0);
  }

  function ToAddress(i: AddrInfo): Address {
    Address(i.service, i.services, i.time)
  }

  /** How many addresses GetAddr_ may return. */
  function GetAddrLimit(size: nat): (r: nat)
    ensures r <= GETADDR_MAX && 100 * r <= GETADDR_MAX_PCT * size
    ensures r == GETADDR_MAX || 100 * (r + 1) > GETADDR_MAX_PCT * size
  {
    var nodes := GETADDR_MAX_PCT * size / 100;
    if nodes > GETADDR_MAX then GETADDR_MAX else nodes
  }

  predicate Known(s: State) {
    forall p :: 0 <= p < |s.random| ==> s.random[p] in s.info
  }

  /** The usable addresses among the first k of vRandom, in order. */
  function Usable(s: State, k: nat, now: int): seq<Address>
    requires k <= |s.random| && Known(s)
  {
    if k == 0 then []
    else
      var i := s.info[s.random[k - 1]];
      Usable(s, k - 1, now) + if i.IsTerrible(now) then [] else [ToAddress(i)]
  }

  /** Usable depends only on the entries at the positions it reads. */
  lemma {:induction false} UsableSame(s: State, s': State, k: nat, now: int)
    requires Indexed(s) && Indexed(s') && k <= |s.random| && |s'.random| == |s.random|
    requires s'.random[..k] == s.random[..k]
    requires forall j {:trigger Alike(s, s', j)} :: j in s.info ==> Alike(s, s', j)
    requires Known(s) && Known(s')
    ensures Usable(s', k, now) == Usable(s, k, now)
  {
    if k > 0 {
      assert s'.random[..k - 1] == s.random[..k - 1];
      UsableSame(s, s', k - 1, now);
      assert s'.random[k - 1] == s'.random[..k][k - 1] == s.random[k - 1];
      assert Alike(s, s', s.random[k - 1]);
    }
  }

  lemma AllKnown(s: State)
    requires Indexed(s)
    ensures Known(s)
  {
    forall p | 0 <= p < |s.random| ensures s.random[p] in s.info { assert PosOk(s, p); }
  }

  /** Reading is not disturbed by a swap behind the positions read. */
  lemma UsableSwap(s: State, n: nat, q: nat, now: int)
    requires Indexed(s) && n <= q < |s.random|
    ensures CanSwap(s, n, q)
    ensures var s' := SwapRandom(s, n, q);
      Known(s) && Known(s') && |s'.random| == |s.random| && Usable(s', n, now) == Usable(s, n, now)
  {
    SwapIndexed(s, n, q);
    SwapKeepsInfo(s, n, q);
    var s' := SwapRandom(s, n, q);
    AllKnown(s);
    AllKnown(s');
    assert s'.random[..n] == s.random[..n];
    UsableSame(s, s', n, now);
  }

  /** GetAddr_ after n positions: what was read from the order shuffled so far. */
  ghost predicate Reading(s: State, picks: seq<nat>, n: nat, now: int, s': State, list: seq<Address>) {
    && Indexed(s) && Picks(picks, |s.random|) && n <= |picks| <= |s.random|
    && s' == Shuffled(s, picks[..n]) && Known(s') && list == Usable(s', n, now)
  }

  lemma ReadingNext(s: State, picks: seq<nat>, n: nat, now: int, s': State, list: seq<Address>)
    requires Reading(s, picks, n, now, s', list) && n < |picks|
    ensures CanSwap(s', n, picks[n])
    ensures var s2 := SwapRandom(s', n, picks[n]);
      && |s2.random| == |s.random| && s2.random[n] in s2.info
      && var i := s2.info[s2.random[n]];
         Reading(s, picks, n + 1, now, s2, list + if i.IsTerrible(now) then [] else [ToAddress(i)])
  {
    UsableSwap(s', n, picks[n], now);
    ShuffledNext(s, picks, n);
  }

  /** When the whole of vRandom was read, every usable address is in the answer. */
  lemma {:induction false} UsableAll(s: State, k: nat, now: int, id: int)
    requires Indexed(s) && k <= |s.random| && id in s.info && s.info[id].randomPos < k
    requires Known(s)
    requires !s.info[id].IsTerrible(now)
    ensures ToAddress(s.info[id]) in Usable(s, k, now)
  {
    assert IdOk(s, id);
    if s.info[id].randomPos < k - 1 { UsableAll(s, k - 1, now, id); }
  }

  // ----- Runs -----

  datatype Op =
    | DoAdd(address: Address, source: NetAddr, penalty: int, now: int, roll: nat)
    | DoGood(service: Service, time: int)
    | DoAttempt(service: Service, time: int)
    | DoConnected(service: Service, time: int)
    | DoGetAddr(picks: seq<nat>)

  /** Clocks run from 1970 and the shuffle stays within vRandom. */
  predicate Allowed(s: State, op: Op) {
    match op
    case DoGood(_, time) => time > 0
    case DoAttempt(_, time) => time >= 0
    case DoGetAddr(picks) => Picks(picks, |s.random|)
    case _ => true
  }

  function Step(h: Hasher, s: State, op: Op): State
    requires Consistent(h, s) && Allowed(s, op)
  {
    match op
    case DoAdd(a, source, penalty, now, roll) => Add(h, s, a, source, penalty, now, roll).0
    case DoGood(a, time) => Good(h, s, a, time)
    case DoAttempt(a, time) => Attempt(s, a, time)
    case DoConnected(a, time) => Connected(s, a, time)
    case DoGetAddr(picks) => Shuffled(s, picks)
  }

  lemma StepKeeps(h: Hasher, s: State, op: Op)
    requires Consistent(h, s) && Allowed(s, op)
    ensures Consistent(h, Step(h, s, op))
  {
    match op
    case DoAdd(a, source, penalty, now, roll) => AddKeeps(h, s, a, source, penalty, now, roll);
    case DoGood(a, time) => GoodExact(h, s, a, time);
    case DoAttempt(a, time) => AttemptExact(h, s, a, time);
    case DoConnected(a, time) => ConnectedKeeps(h, s, a, time);
    case DoGetAddr(picks) => ShuffledKeeps(h, s, picks);
  }

  lemma EmptyConsistent(h: Hasher)
    ensures Consistent(h, EMPTY)
  {
    assert TriedIds(EMPTY) == {} && NewIds(EMPTY, {}) == {};
  }

  ghost predicate IsRun(h: Hasher, s: State, ops: seq<Op>)
    requires Consistent(h, s)
    decreases |ops|
  {
    ops != [] ==> Allowed(s, ops[0]) && (StepKeeps(h, s, ops[0]); IsRun(h, Step(h, s, ops[0]), ops[1..]))
  }

  ghost function Run(h: Hasher, s: State, ops: seq<Op>): State
    requires Consistent(h, s) && IsRun(h, s, ops)
    decreases |ops|
  {
    if ops == [] then s else (StepKeeps(h, s, ops[0]); Run(h, Step(h, s, ops[0]), ops[1..]))
  }

  lemma {:induction false} RunConsistent(h: Hasher, s: State, ops: seq<Op>)
    requires Consistent(h, s) && IsRun(h, s, ops)
    ensures Consistent(h, Run(h, s, ops))
    decreases |ops|
  {
    if ops != [] {
      StepKeeps(h, s, ops[0]);
      RunConsistent(h, Step(h, s, ops[0]), ops[1..]);
    }
  }

  /** Every run from a new manager passes Check_ after every prefix. */
  lemma AlwaysConsistent(h: Hasher, ops: seq<Op>)
    requires (EmptyConsistent(h); IsRun(h, EMPTY, ops))
    ensures Consistent(h, EMPTY) && Consistent(h, Run(h, EMPTY, ops))
  {
    EmptyConsistent(h);
    RunConsistent(h, EMPTY, ops);
  }
}
