/**
 Saving the address manager to a stream and loading it back. Ids are renumbered, only the new
 table is written, and everything else is rebuilt; loading what was saved must lose nothing.
 */
module AddrManStream {
  import opened AddrManSpec
  import opened Powers
  import V = AddrManView

  /** What is written of an entry; the rest is kept in memory only. */
  datatype Saved = Saved(
    service: Service,
    services: set<nat>,
    time: int,
    source: NetAddr,
    lastSuccess: int,
    attempts: int)

  datatype Token = Num(n: int) | Key(key: nat) | Entry(e: Saved)

  function Save(i: AddrInfo): Saved {
    Saved(i.service, i.services, i.time, i.source, i.lastSuccess, i.attempts)
  }

  function Load(e: Saved, pos: int): AddrInfo {
    AddrInfo(e.service, e.services, e.time, e.source, 0, e.lastSuccess, e.attempts, 0, false, pos)
  }

  // ----- Writing -----

  const BIT30 := 0x4000_0000

  /** Turns bit 30 of an int. */
  function Flip(x: int): int {
    if (x / BIT30) % 2 == 1 then x - BIT30 else x + BIT30
  }

  predicate IsNew(s: State, id: int) { id in s.info && s.info[id].refCount != 0 }
  predicate IsTried(s: State, id: int) { id in s.info && s.info[id].inTried }

  /** The ids below n with a place in the new table, or in the tried table, in ascending order. */
  function IdsUpTo(s: State, tried: bool, n: nat): seq<int> {
    if n == 0 then []
    else IdsUpTo(s, tried, n - 1) + if (if tried then IsTried(s, n - 1) else IsNew(s, n - 1)) then [n - 1] else []
  }

  /** The number under which an entry is written. */
  function Rank(s: State, tried: bool, id: int): nat {
    if id < 0 then 0 else |IdsUpTo(s, tried, id)|
  }

  /** The ids of a kind; ids are below idCount. */
  function Ids(s: State, tried: bool): seq<int> {
    IdsUpTo(s, tried, if s.idCount < 0 then 0 else s.idCount)
  }

  function SaveAll(s: State, ids: seq<int>, n: nat): seq<Token>
    requires n <= |ids|
  {
    seq(n, i requires 0 <= i < n => if ids[i] in s.info then Entry(Save(s.info[ids[i]])) else Num(0))
  }

  /** The numbers of the entries in the first n positions of a bucket. */
  function Indices(s: State, bucket: nat, n: nat): seq<Token> {
    if n == 0 then []
    else
      var x := Slot(bucket, n - 1);
      Indices(s, bucket, n - 1) + if x in s.newTable then [Num(Rank(s, false, s.newTable[x]))] else []
  }

  function Bucket(s: State, bucket: nat): seq<Token> {
    [Num(|Indices(s, bucket, BUCKET_SIZE)|)] + Indices(s, bucket, BUCKET_SIZE)
  }

  function Buckets(s: State, n: nat): seq<Token> {
    if n == 0 then [] else Buckets(s, n - 1) + Bucket(s, n - 1)
  }

  function Header(s: State, key: nat): seq<Token> {
    [Num(1), Num(32), Key(key), Num(s.nNew), Num(s.nTried), Num(Flip(NEW_BUCKETS))]
  }

  function Written(s: State, key: nat): seq<Token> {
    Header(s, key)
      + SaveAll(s, Ids(s, false), |Ids(s, false)|)
      + SaveAll(s, Ids(s, true), |Ids(s, true)|)
      + Buckets(s, NEW_BUCKETS)
  }

  // ----- Reading -----

  /** How far reading has come: the state so far and the next token. */
  datatype Reader = Reader(s: State, at: nat, lost: nat) | Failed

  /** An entry of the new table; without usable positions it gets one from its source. */
  function PutNew(h: Hasher, s: State, usable: bool, n: int, e: Saved): State {
    var i := Load(e, |s.random|);
    var s1 := s.(info := s.info[n := i], addr := s.addr[e.service.addr := n], random := s.random + [n]);
    var x := h.NewSlot(e.service, e.source);
    if usable || x in s.newTable then s1
    else s1.(info := s1.info[n := i.(refCount := 1)], newTable := s1.newTable[x := n])
  }

  function ReadNew(h: Hasher, toks: seq<Token>, usable: bool, n: int, r: Reader): Reader
    requires r.Reader?
    decreases r.s.nNew - n
  {
    if n >= r.s.nNew then r
    else if r.at >= |toks| || !toks[r.at].Entry? then Failed
    else ReadNew(h, toks, usable, n + 1, Reader(PutNew(h, r.s, usable, n, toks[r.at].e), r.at + 1, 0))
  }

  /** An entry of the tried table goes to the one slot it hashes to, or is lost if that is taken. */
  function PutTried(h: Hasher, r: Reader, e: Saved): Reader
    requires r.Reader?
  {
    var s, x := r.s, h.TriedSlot(e.service);
    if x in s.triedTable then Reader(s, r.at + 1, r.lost + 1)
    else
      var i := Load(e, |s.random|).(inTried := true);
      Reader(s.(info := s.info[s.idCount := i], addr := s.addr[e.service.addr := s.idCount],
                random := s.random + [s.idCount], triedTable := s.triedTable[x := s.idCount], idCount := s.idCount + 1),
             r.at + 1, r.lost)
  }

  function ReadTried(h: Hasher, toks: seq<Token>, n: int, r: Reader): Reader
    requires r.Reader?
    decreases r.s.nTried - n
  {
    if n >= r.s.nTried then r
    else if r.at >= |toks| || !toks[r.at].Entry? then Failed
    else ReadTried(h, toks, n + 1, PutTried(h, r, toks[r.at].e))
  }

  /** A position in the new table is taken if it is free and the entry has few others. */
  function PutIndex(h: Hasher, s: State, usable: bool, bucket: int, index: int): State {
    if !(0 <= index < s.nNew && index in s.info && bucket >= 0) then s
    else
      var i := s.info[index];
      var x := Slot(bucket, h.Position(true, bucket, i.service));
      if usable && x !in s.newTable && i.refCount < NEW_BUCKETS_PER_ADDRESS then
        s.(info := s.info[index := i.(refCount := i.refCount + 1)], newTable := s.newTable[x := index])
      else s
  }

  function ReadIndices(h: Hasher, toks: seq<Token>, usable: bool, bucket: int, n: int, size: int, r: Reader): Reader
    requires r.Reader?
    decreases size - n
  {
    if n >= size then r
    else if r.at >= |toks| || !toks[r.at].Num? then Failed
    else ReadIndices(h, toks, usable, bucket, n + 1, size,
                     r.(s := PutIndex(h, r.s, usable, bucket, toks[r.at].n), at := r.at + 1))
  }

  function ReadBuckets(h: Hasher, toks: seq<Token>, usable: bool, bucket: int, buckets: int, r: Reader): Reader
    requires r.Reader?
    decreases buckets - bucket
  {
    if bucket >= buckets then r
    else if r.at >= |toks| || !toks[r.at].Num? then Failed
    else
      var r1 := ReadIndices(h, toks, usable, bucket, 0, toks[r.at].n, r.(at := r.at + 1));
      if r1.Failed? then Failed else ReadBuckets(h, toks, usable, bucket + 1, buckets, r1)
  }

  /** Entries that got no place are deleted; the positions in the random list are in range. */
  function Prune(s: State, id: int, end: int): State
    decreases end - id
  {
    if id >= end then s
    else if id in s.info && !s.info[id].inTried && s.info[id].refCount == 0
            && s.random != [] && CanSwap(s, s.info[id].randomPos, |s.random| - 1)
    then Prune(Delete(s, id), id + 1, end)
    else Prune(s, id + 1, end)
  }

  /** The six numbers at the start. */
  predicate HeaderOk(toks: seq<Token>) {
    && |toks| >= 6 && toks[0].Num? && toks[1] == Num(32) && toks[2].Key? && toks[3].Num? && toks[4].Num? && toks[5].Num?
    && toks[3].n <= NEW_BUCKETS * BUCKET_SIZE && toks[4].n <= TRIED_BUCKETS * BUCKET_SIZE
  }

  /** The rest of loading, once the new entries have been read. */
  function AfterNew(h: Hasher, toks: seq<Token>, usable: bool, buckets: int, r: Reader): Reader {
    if r.Failed? then Failed
    else AfterTried(h, toks, usable, buckets, ReadTried(h, toks, 0, r.(s := r.s.(idCount := r.s.nNew))))
  }

  function AfterTried(h: Hasher, toks: seq<Token>, usable: bool, buckets: int, r: Reader): Reader {
    if r.Failed? then Failed
    else AfterBuckets(ReadBuckets(h, toks, usable, 0, buckets, r.(s := r.s.(nTried := r.s.nTried - r.lost))))
  }

  function AfterBuckets(r: Reader): Reader {
    if r.Failed? then Failed else r.(s := Prune(r.s, 0, r.s.idCount))
  }

  /** Loads a new manager; the key that is read decides the hashes. Failed stands for an exception. */
  function Unserialize(hashers: nat -> Hasher, toks: seq<Token>): Reader {
    if !HeaderOk(toks) then Failed
    else
      var h := hashers(toks[2].key);
      var buckets := if toks[0].n != 0 then Flip(toks[5].n) else toks[5].n;
      var usable := toks[0].n == 1 && buckets == NEW_BUCKETS;
      AfterNew(h, toks, usable, buckets,
        ReadNew(h, toks, usable, 0, Reader(EMPTY.(nNew := toks[3].n, nTried := toks[4].n), 6, 0)))
  }

  // ----- The order of the written entries -----

  lemma {:induction false} IdsAt(s: State, tried: bool, n: nat, k: nat)
    requires k < |IdsUpTo(s, tried, n)|
    ensures var id := IdsUpTo(s, tried, n)[k];
      0 <= id < n && (if tried then IsTried(s, id) else IsNew(s, id)) && Rank(s, tried, id) == k
  {
    if k < |IdsUpTo(s, tried, n - 1)| { IdsAt(s, tried, n - 1, k); }
  }

  lemma {:induction false} RankAt(s: State, tried: bool, n: nat, id: nat)
    requires id < n && (if tried then IsTried(s, id) else IsNew(s, id))
    ensures Rank(s, tried, id) < |IdsUpTo(s, tried, n)| && IdsUpTo(s, tried, n)[Rank(s, tried, id)] == id
  {
    if id < n - 1 { RankAt(s, tried, n - 1, id); }
  }

  /** The ids of a kind below n as a set, and how many they are. */
  function KindBelow(s: State, tried: bool, n: nat): set<int> {
    set id | id in s.info && 0 <= id < n && (if tried then IsTried(s, id) else IsNew(s, id))
  }

  lemma {:induction false} CountIds(s: State, tried: bool, n: nat)
    ensures |IdsUpTo(s, tried, n)| == |KindBelow(s, tried, n)|
  {
    if n == 0 {
      assert KindBelow(s, tried, 0) == {};
    } else {
      CountIds(s, tried, n - 1);
      var last := if tried then IsTried(s, n - 1) else IsNew(s, n - 1);
      assert KindBelow(s, tried, n) == KindBelow(s, tried, n - 1) + if last then {n - 1} else {};
    }
  }

  /** The counters are right: the asserts that stop writing when they are wrong never fire. */
  lemma CountsExact(h: Hasher, s: State)
    requires Consistent(h, s)
    ensures |Ids(s, false)| == s.nNew && |Ids(s, true)| == s.nTried
  {
    CountIds(s, false, s.idCount);
    CountIds(s, true, s.idCount);
    forall id | id in s.info ensures EntryOk(h, s, {}, id) && IdOk(s, id) { }
    assert KindBelow(s, false, s.idCount) == NewIds(s, {});
    assert KindBelow(s, true, s.idCount) == TriedIds(s);
  }

  /** The id that was written as number k: first the new ones, then the tried ones. */
  function IdOf(s: State, k: nat): int
    requires k < |Ids(s, false)| + |Ids(s, true)|
  {
    if k < |Ids(s, false)| then Ids(s, false)[k] else Ids(s, true)[k - |Ids(s, false)|]
  }

  lemma IdOfOk(h: Hasher, s: State, k: nat)
    requires Consistent(h, s) && k < |Ids(s, false)| + |Ids(s, true)|
    ensures var id := IdOf(s, k);
      && id in s.info && EntryOk(h, s, {}, id) && IdOk(s, id)
      && (s.info[id].inTried <==> k >= |Ids(s, false)|)
      && (if s.info[id].inTried then k == |Ids(s, false)| + Rank(s, true, id) else k == Rank(s, false, id))
  {
    if k < |Ids(s, false)| {
      IdsAt(s, false, s.idCount, k);
    } else {
      IdsAt(s, true, s.idCount, k - |Ids(s, false)|);
    }
    assert EntryOk(h, s, {}, IdOf(s, k));
  }

  /** The number of an entry. */
  function NumberOf(s: State, id: int): nat {
    if IsTried(s, id) then |Ids(s, false)| + Rank(s, true, id) else Rank(s, false, id)
  }

  lemma NumberOk(h: Hasher, s: State, id: int)
    requires Consistent(h, s) && id in s.info
    ensures NumberOf(s, id) < |Ids(s, false)| + |Ids(s, true)| && IdOf(s, NumberOf(s, id)) == id
    ensures s.info[id].inTried <==> NumberOf(s, id) >= |Ids(s, false)|
  {
    assert EntryOk(h, s, {}, id) && IdOk(s, id);
    RankAt(s, s.info[id].inTried, s.idCount, id);
  }

  // ----- What has been rebuilt -----

  /** Entry k is back, with one reference for each of its slots that is done. */
  ghost predicate InfoBack(s: State, t: State, done: set<Slot>, k: nat)
    requires k < |Ids(s, false)| + |Ids(s, true)|
  {
    var id := IdOf(s, k);
    && id in s.info && k in t.info
    && t.info[k] ==
       Load(Save(s.info[id]), k).(inTried := s.info[id].inTried, refCount := |Slots(s.newTable, id) * done|)
    && s.info[id].service.addr in t.addr && t.addr[s.info[id].service.addr] == k
  }

  ghost predicate AddrBack(s: State, t: State, count: nat, a: NetAddr) {
    a in t.addr ==>
      && 0 <= t.addr[a] < count <= |Ids(s, false)| + |Ids(s, true)|
      && IdOf(s, t.addr[a]) in s.info && s.info[IdOf(s, t.addr[a])].service.addr == a
  }

  ghost predicate NewBack(s: State, t: State, done: set<Slot>, x: Slot) {
    && (x in t.newTable <==> x in done && x in s.newTable)
    && (x in t.newTable ==> t.newTable[x] == NumberOf(s, s.newTable[x]))
  }

  ghost predicate TriedBack(s: State, t: State, count: nat, x: Slot) {
    && (x in t.triedTable <==> x in s.triedTable && NumberOf(s, s.triedTable[x]) < count)
    && (x in t.triedTable ==> t.triedTable[x] == NumberOf(s, s.triedTable[x]))
  }

  ghost predicate PosBack(t: State, p: nat) {
    p < |t.random| ==> t.random[p] == p
  }

  /** The first count entries are back, and the slots that are done. */
  ghost predicate Back(s: State, t: State, count: nat, done: set<Slot>) {
    && count <= |Ids(s, false)| + |Ids(s, true)|
    && t.nNew == s.nNew && t.nTried == s.nTried
    && (forall k :: k in t.info <==> 0 <= k < count)
    && |t.random| == count
    && (forall k: nat {:trigger InfoBack(s, t, done, k)} :: k < count ==> InfoBack(s, t, done, k))
    && (forall a {:trigger AddrBack(s, t, count, a)} :: AddrBack(s, t, count, a))
    && (forall x {:trigger NewBack(s, t, done, x)} :: NewBack(s, t, done, x))
    && (forall x {:trigger TriedBack(s, t, count, x)} :: TriedBack(s, t, count, x))
    && (forall p: nat {:trigger PosBack(t, p)} :: PosBack(t, p))
  }

  /** The address of the next entry is not known yet. */
  lemma FreshAddr(h: Hasher, s: State, t: State, count: nat, done: set<Slot>)
    requires Consistent(h, s) && Back(s, t, count, done) && count < |Ids(s, false)| + |Ids(s, true)|
    ensures IdOf(s, count) in s.info && s.info[IdOf(s, count)].service.addr !in t.addr
  {
    IdOfOk(h, s, count);
    var id := IdOf(s, count);
    var a := s.info[id].service.addr;
    if a in t.addr {
      assert AddrBack(s, t, count, a);
      IdOfOk(h, s, t.addr[a]);
    }
  }

  /** Adding the next entry to the index; the tables are looked after separately. */
  lemma NextBack(h: Hasher, s: State, t: State, t': State, count: nat, e: Saved)
    requires Consistent(h, s) && Back(s, t, count, {}) && count < |Ids(s, false)| + |Ids(s, true)|
    requires IdOf(s, count) in s.info && e == Save(s.info[IdOf(s, count)])
    requires t'.info == t.info[count := Load(e, count).(inTried := s.info[IdOf(s, count)].inTried)]
    requires t'.addr == t.addr[e.service.addr := count] && t'.random == t.random + [count]
    requires t'.nNew == t.nNew && t'.nTried == t.nTried && t'.newTable == t.newTable
    requires forall x {:trigger TriedBack(s, t', count + 1, x)} :: TriedBack(s, t', count + 1, x)
    ensures Back(s, t', count + 1, {})
  {
    var next, id := count + 1, IdOf(s, count);
    FreshAddr(h, s, t, count, {});
    assert Slots(s.newTable, id) * {} == {};
    forall k: nat | k < next ensures InfoBack(s, t', {}, k) {
      if k < count { assert InfoBack(s, t, {}, k); }
    }
    forall a ensures AddrBack(s, t', next, a) { assert AddrBack(s, t, count, a); }
    forall x ensures NewBack(s, t', {}, x) { assert NewBack(s, t, {}, x); }
    forall p: nat ensures PosBack(t', p) { assert PosBack(t, p); }
  }

  lemma PutNewBack(h: Hasher, s: State, t: State, n: nat, e: Saved)
    requires Consistent(h, s) && Back(s, t, n, {}) && n < |Ids(s, false)|
    requires IdOf(s, n) in s.info && e == Save(s.info[IdOf(s, n)])
    ensures Back(s, PutNew(h, t, true, n, e), n + 1, {})
  {
    IdOfOk(h, s, n);
    var t', next := PutNew(h, t, true, n, e), n + 1;
    forall x ensures TriedBack(s, t', next, x) {
      assert TriedBack(s, t, n, x);
      if x in s.triedTable {
        assert TriedSlotOk(h, s, x);
        NumberOk(h, s, s.triedTable[x]);
      }
    }
    NextBack(h, s, t, t', n, e);
  }

  lemma PutTriedBack(h: Hasher, s: State, r: Reader, count: nat, e: Saved)
    requires Consistent(h, s) && r.Reader? && Back(s, r.s, count, {}) && r.s.idCount == count
    requires |Ids(s, false)| <= count < |Ids(s, false)| + |Ids(s, true)|
    requires IdOf(s, count) in s.info && e == Save(s.info[IdOf(s, count)])
    ensures var r' := PutTried(h, r, e);
      r'.at == r.at + 1 && r'.lost == r.lost && r'.s.idCount == count + 1 && Back(s, r'.s, count + 1, {})
  {
    var id, x0, next := IdOf(s, count), h.TriedSlot(e.service), count + 1;
    IdOfOk(h, s, count);
    assert TriedBack(s, r.s, count, x0);
    var t' := PutTried(h, r, e).s;
    forall x ensures TriedBack(s, t', next, x) {
      assert TriedBack(s, r.s, count, x);
      if x in s.triedTable {
        assert TriedSlotOk(h, s, x);
        NumberOk(h, s, s.triedTable[x]);
        if NumberOf(s, s.triedTable[x]) == count { assert x == x0; }
      }
    }
    NextBack(h, s, r.s, t', count, e);
  }

  /** A written position finds its slot free and its entry with references to spare. */
  lemma PutIndexBack(h: Hasher, s: State, t: State, done: set<Slot>, x: Slot, k: nat)
    requires Consistent(h, s) && x in s.newTable && x !in done && k == Rank(s, false, s.newTable[x])
    requires Back(s, t, |Ids(s, false)| + |Ids(s, true)|, done)
    ensures Back(s, PutIndex(h, t, true, x.bucket, k), |Ids(s, false)| + |Ids(s, true)|, done + {x})
  {
    var id, done', all := s.newTable[x], done + {x}, |Ids(s, false)| + |Ids(s, true)|;
    assert NewSlotOk(h, s, x) && EntryOk(h, s, {}, id);
    assert x in Slots(s.newTable, id);
    NumberOk(h, s, id);
    CountsExact(h, s);
    assert InfoBack(s, t, done, k) && NewBack(s, t, done, x);
    MoreDone(Slots(s.newTable, id), done, x);
    var t' := PutIndex(h, t, true, x.bucket, k);
    assert t'.info.Keys == t.info.Keys;
    forall j: nat | j < all ensures InfoBack(s, t', done', j) {
      assert InfoBack(s, t, done, j);
      if j != k {
        IdOfOk(h, s, j);
        assert Slots(s.newTable, IdOf(s, j)) * done' == Slots(s.newTable, IdOf(s, j)) * done;
      }
    }
    forall a ensures AddrBack(s, t', all, a) { assert AddrBack(s, t, all, a); }
    forall y ensures NewBack(s, t', done', y) { assert NewBack(s, t, done, y); }
    forall y ensures TriedBack(s, t', all, y) { assert TriedBack(s, t, all, y); }
    forall p: nat ensures PosBack(t', p) { assert PosBack(t, p); }
  }

  lemma MoreDone(slots: set<Slot>, done: set<Slot>, x: Slot)
    requires x in slots && x !in done
    ensures |slots * (done + {x})| == |slots * done| + 1 <= |slots|
  {
    assert slots * (done + {x}) == slots * done + {x};
    Smaller(slots * (done + {x}), slots);
  }

  // ----- The stream position by position -----

  lemma {:induction false} IndicesAt(s: State, bucket: nat, m: nat, n: nat)
    requires m <= n
    ensures Indices(s, bucket, m) <= Indices(s, bucket, n)
    decreases n
  {
    if m < n { IndicesAt(s, bucket, m, n - 1); }
  }

  /** The slots of the buckets below b and of the first p positions of bucket b. */
  function DoneBelow(s: State, b: nat, p: nat): set<Slot> {
    set x | x in s.newTable && (x.bucket < b || (x.bucket == b && x.pos < p))
  }

  /** The tokens of a bucket's positions stand at a place of the stream. */
  predicate IndicesStand(s: State, toks: seq<Token>, bucket: nat, at: nat) {
    var ids := Indices(s, bucket, BUCKET_SIZE);
    at + |ids| <= |toks| && forall j :: 0 <= j < |ids| ==> toks[at + j] == ids[j]
  }

  lemma ReadIndex(h: Hasher, toks: seq<Token>, bucket: int, n: int, size: int, r: Reader, k: int, r': Reader)
    requires r.Reader? && n < size && r.at < |toks| && toks[r.at] == Num(k)
    requires r' == Reader(PutIndex(h, r.s, true, bucket, k), r.at + 1, r.lost)
    ensures ReadIndices(h, toks, true, bucket, n, size, r) == ReadIndices(h, toks, true, bucket, n + 1, size, r')
  {
  }

  /** The next position of a bucket: if it is occupied, its number is the next token. */
  lemma NextIndex(s: State, toks: seq<Token>, bucket: nat, p: nat, at: nat)
    requires p < BUCKET_SIZE && IndicesStand(s, toks, bucket, at)
    ensures var x, read := Slot(bucket, p), |Indices(s, bucket, p)|;
      if x in s.newTable then
        && at + read < |toks| && toks[at + read] == Num(Rank(s, false, s.newTable[x]))
        && read < |Indices(s, bucket, BUCKET_SIZE)| && |Indices(s, bucket, p + 1)| == read + 1
        && DoneBelow(s, bucket, p) + {x} == DoneBelow(s, bucket, p + 1) && x !in DoneBelow(s, bucket, p)
      else |Indices(s, bucket, p + 1)| == read && DoneBelow(s, bucket, p) == DoneBelow(s, bucket, p + 1)
  {
    var x, read := Slot(bucket, p), |Indices(s, bucket, p)|;
    IndicesAt(s, bucket, p + 1, BUCKET_SIZE);
    if x in s.newTable {
      assert Indices(s, bucket, p + 1)[read] == Indices(s, bucket, BUCKET_SIZE)[read];
      assert DoneBelow(s, bucket, p) + {x} == DoneBelow(s, bucket, p + 1);
    } else {
      assert DoneBelow(s, bucket, p) == DoneBelow(s, bucket, p + 1);
    }
  }

  /** All entries are back, and the slots up to a position of a bucket; the reader has come that far. */
  ghost predicate Placed(s: State, r: Reader, bucket: nat, p: nat, at: nat, read: nat) {
    && r.Reader? && p <= BUCKET_SIZE && read == |Indices(s, bucket, p)| && r.at == at + read
    && Back(s, r.s, |Ids(s, false)| + |Ids(s, true)|, DoneBelow(s, bucket, p))
  }

  lemma PlaceNext(h: Hasher, s: State, toks: seq<Token>, bucket: nat, p: nat, at: nat, r: Reader, read: nat, size: nat)
    returns (r': Reader)
    requires Consistent(h, s) && p < BUCKET_SIZE && IndicesStand(s, toks, bucket, at) &&
      Placed(s, r, bucket, p, at, read)
    requires Slot(bucket, p) in s.newTable && size == |Indices(s, bucket, BUCKET_SIZE)|
    ensures Placed(s, r', bucket, p + 1, at, read + 1) && r'.s.idCount == r.s.idCount && r'.lost == r.lost
    ensures ReadIndices(h, toks, true, bucket, read, size, r) == ReadIndices(h, toks, true, bucket, read + 1, size, r')
  {
    var x := Slot(bucket, p);
    var k := Rank(s, false, s.newTable[x]);
    NextIndex(s, toks, bucket, p, at);
    PutIndexBack(h, s, r.s, DoneBelow(s, bucket, p), x, k);
    r' := Reader(PutIndex(h, r.s, true, bucket, k), r.at + 1, r.lost);
    ReadIndex(h, toks, bucket, read, size, r, k, r');
  }

  lemma SkipNext(s: State, toks: seq<Token>, bucket: nat, p: nat, at: nat, r: Reader, read: nat)
    requires p < BUCKET_SIZE && IndicesStand(s, toks, bucket, at) && Placed(s, r, bucket, p, at, read)
    requires Slot(bucket, p) !in s.newTable
    ensures Placed(s, r, bucket, p + 1, at, read)
  {
    NextIndex(s, toks, bucket, p, at);
  }

  /** Reading the rest of a bucket, position by position. */
  lemma {:induction false} ReadIndicesBack(h: Hasher, s: State, toks: seq<Token>, bucket: nat, p: nat, at: nat,
                                           r: Reader, read: nat, size: nat) returns (r': Reader)
    requires Consistent(h, s) && IndicesStand(s, toks, bucket, at) && Placed(s, r, bucket, p, at, read)
    requires size == |Indices(s, bucket, BUCKET_SIZE)|
    ensures Placed(s, r', bucket, BUCKET_SIZE, at, size) && r'.s.idCount == r.s.idCount && r'.lost == r.lost
    ensures ReadIndices(h, toks, true, bucket, read, size, r) == r'
    decreases BUCKET_SIZE - p
  {
    if p == BUCKET_SIZE {
      r' := r;
    } else if Slot(bucket, p) in s.newTable {
      var r1 := PlaceNext(h, s, toks, bucket, p, at, r, read, size);
      r' := ReadIndicesBack(h, s, toks, bucket, p + 1, at, r1, read + 1, size);
    } else {
      SkipNext(s, toks, bucket, p, at, r, read);
      r' := ReadIndicesBack(h, s, toks, bucket, p + 1, at, r, read, size);
    }
  }

  /** The tokens of the buckets from b on stand at a place of the stream. */
  predicate BucketStands(s: State, toks: seq<Token>, base: nat, b: nat) {
    var at := base + |Buckets(s, b)|;
    at < |toks| && toks[at] == Num(|Indices(s, b, BUCKET_SIZE)|) && IndicesStand(s, toks, b, at + 1)
  }

  lemma ReadBucket(h: Hasher, toks: seq<Token>, b: int, r: Reader, size: int, r0: Reader, r1: Reader)
    requires r.Reader? && b < NEW_BUCKETS && r.at < |toks| && toks[r.at] == Num(size) && r1.Reader?
    requires r0 == Reader(r.s, r.at + 1, r.lost) && r1 == ReadIndices(h, toks, true, b, 0, size, r0)
    ensures ReadBuckets(h, toks, true, b, NEW_BUCKETS, r) == ReadBuckets(h, toks, true, b + 1, NEW_BUCKETS, r1)
  {
  }

  /** The buckets below b have been read. */
  ghost predicate Filled(s: State, r: Reader, b: nat, base: nat) {
    && r.Reader? && r.at == base + |Buckets(s, b)|
    && Back(s, r.s, |Ids(s, false)| + |Ids(s, true)|, DoneBelow(s, b, 0))
  }

  lemma FillNext(h: Hasher, s: State, toks: seq<Token>, b: nat, base: nat, r: Reader) returns (r1: Reader)
    requires Consistent(h, s) && b < NEW_BUCKETS && Filled(s, r, b, base) && BucketStands(s, toks, base, b)
    ensures Filled(s, r1, b + 1, base) && r1.s.idCount == r.s.idCount && r1.lost == r.lost
    ensures ReadBuckets(h, toks, true, b, NEW_BUCKETS, r) == ReadBuckets(h, toks, true, b + 1, NEW_BUCKETS, r1)
  {
    var size, r0 := |Indices(s, b, BUCKET_SIZE)|, Reader(r.s, r.at + 1, r.lost);
    r1 := ReadIndicesBack(h, s, toks, b, 0, r.at + 1, r0, 0, size);
    ReadBucket(h, toks, b, r, size, r0, r1);
    WholeBucket(h, s, b);
  }

  lemma {:induction false} ReadBucketsBack(h: Hasher, s: State, toks: seq<Token>, b: nat, base: nat, r: Reader)
    returns (r': Reader)
    requires Consistent(h, s) && b <= NEW_BUCKETS && Filled(s, r, b, base)
    requires forall c: nat {:trigger BucketStands(s, toks, base, c)} :: c < NEW_BUCKETS ==>
      BucketStands(s, toks, base, c)
    ensures Filled(s, r', NEW_BUCKETS, base) && r'.s.idCount == r.s.idCount && r'.lost == r.lost
    ensures ReadBuckets(h, toks, true, b, NEW_BUCKETS, r) == r'
    decreases NEW_BUCKETS - b
  {
    if b == NEW_BUCKETS {
      r' := r;
    } else {
      assert BucketStands(s, toks, base, b);
      var r1 := FillNext(h, s, toks, b, base, r);
      r' := ReadBucketsBack(h, s, toks, b + 1, base, r1);
    }
  }

  lemma WholeBucket(h: Hasher, s: State, b: nat)
    requires Consistent(h, s)
    ensures DoneBelow(s, b, BUCKET_SIZE) == DoneBelow(s, b + 1, 0)
    ensures |Buckets(s, b + 1)| == |Buckets(s, b)| + 1 + |Indices(s, b, BUCKET_SIZE)|
  {
    forall x | x in s.newTable ensures x.pos < BUCKET_SIZE { assert NewSlotOk(h, s, x); }
  }

  // ----- Reading the entries -----

  predicate EntryStands(s: State, toks: seq<Token>, base: nat, k: nat)
    requires k < |Ids(s, false)| + |Ids(s, true)|
  {
    base + k < |toks| && IdOf(s, k) in s.info && toks[base + k] == Entry(Save(s.info[IdOf(s, k)]))
  }

  /** The tokens of the entries of both kinds stand one after another. */
  ghost predicate EntriesStand(s: State, toks: seq<Token>, base: nat) {
    forall k: nat {:trigger EntryStands(s, toks, base, k)} :: k < |Ids(s, false)| + |Ids(s, true)| ==>
      EntryStands(s, toks, base, k)
  }

  lemma {:induction false} ReadNewBack(h: Hasher, s: State, toks: seq<Token>, base: nat, n: nat, r: Reader)
    returns (r': Reader)
    requires Consistent(h, s) && EntriesStand(s, toks, base) && n <= |Ids(s, false)| == s.nNew
    requires r.Reader? && r.at == base + n && r.lost == 0 && Back(s, r.s, n, {})
    ensures r'.Reader? && r'.at == base + s.nNew && r'.lost == 0 && Back(s, r'.s, |Ids(s, false)|, {})
    ensures ReadNew(h, toks, true, n, r) == r'
    decreases s.nNew - n
  {
    if n == s.nNew {
      r' := r;
    } else {
      assert EntryStands(s, toks, base, n);
      var e := toks[base + n].e;
      PutNewBack(h, s, r.s, n, e);
      r' := ReadNewBack(h, s, toks, base, n + 1, Reader(PutNew(h, r.s, true, n, e), r.at + 1, 0));
    }
  }

  lemma {:induction false} ReadTriedBack(h: Hasher, s: State, toks: seq<Token>, base: nat, n: nat, r: Reader)
    returns (r': Reader)
    requires Consistent(h, s) && EntriesStand(s, toks, base) && |Ids(s, false)| == s.nNew &&
      n <= |Ids(s, true)| == s.nTried
    requires r.Reader? && r.at == base + s.nNew + n && r.s.idCount == s.nNew + n && r.lost == 0 &&
      Back(s, r.s, s.nNew + n, {})
    ensures r'.Reader? && r'.at == base + s.nNew + s.nTried && r'.s.idCount == s.nNew + s.nTried && r'.lost == 0
    ensures Back(s, r'.s, s.nNew + s.nTried, {})
    ensures ReadTried(h, toks, n, r) == r'
    decreases s.nTried - n
  {
    if n == s.nTried {
      r' := r;
    } else {
      assert EntryStands(s, toks, base, s.nNew + n);
      var e := toks[base + s.nNew + n].e;
      PutTriedBack(h, s, r, s.nNew + n, e);
      r' := ReadTriedBack(h, s, toks, base, n + 1, PutTried(h, r, e));
    }
  }

  /** Nothing is pruned when every entry has a place. */
  lemma {:induction false} PruneNothing(t: State, id: int)
    requires forall k :: k in t.info ==> t.info[k].inTried || t.info[k].refCount != 0
    ensures Prune(t, id, t.idCount) == t
    decreases t.idCount - id
  {
    if id < t.idCount { PruneNothing(t, id + 1); }
  }

  // ----- The written stream -----

  lemma {:induction false} BucketsPrefix(s: State, m: nat, n: nat)
    requires m <= n
    ensures Buckets(s, m) <= Buckets(s, n)
    decreases n
  {
    if m < n { BucketsPrefix(s, m, n - 1); }
  }

  /** The length of what comes before the buckets. */
  function BucketBase(s: State): nat {
    6 + |Ids(s, false)| + |Ids(s, true)|
  }

  lemma WrittenAt(s: State, key: nat, i: nat)
    requires i < |Buckets(s, NEW_BUCKETS)|
    ensures BucketBase(s) + i < |Written(s, key)| && Written(s, key)[BucketBase(s) + i] == Buckets(s, NEW_BUCKETS)[i]
  {
  }

  lemma BucketAt(s: State, b: nat, j: nat)
    requires b < NEW_BUCKETS && j <= |Indices(s, b, BUCKET_SIZE)|
    ensures |Buckets(s, b)| + j < |Buckets(s, NEW_BUCKETS)| &&
      Buckets(s, NEW_BUCKETS)[|Buckets(s, b)| + j] == Bucket(s, b)[j]
  {
    BucketsPrefix(s, b + 1, NEW_BUCKETS);
    assert Buckets(s, b + 1)[|Buckets(s, b)| + j] == Bucket(s, b)[j];
  }

  lemma WrittenBuckets(s: State, key: nat, b: nat)
    requires b < NEW_BUCKETS
    ensures BucketStands(s, Written(s, key), BucketBase(s), b)
  {
    var toks, ids, at := Written(s, key), Indices(s, b, BUCKET_SIZE), BucketBase(s) + |Buckets(s, b)|;
    BucketAt(s, b, 0);
    WrittenAt(s, key, |Buckets(s, b)|);
    BucketAt(s, b, |ids|);
    WrittenAt(s, key, |Buckets(s, b)| + |ids|);
    forall j | 0 <= j < |ids| ensures toks[at + 1 + j] == ids[j] {
      BucketAt(s, b, j + 1);
      WrittenAt(s, key, |Buckets(s, b)| + (j + 1));
    }
  }

  lemma WrittenEntries(h: Hasher, s: State, key: nat, k: nat)
    requires Consistent(h, s) && k < |Ids(s, false)| + |Ids(s, true)|
    ensures EntryStands(s, Written(s, key), 6, k)
  {
    IdOfOk(h, s, k);
  }

  /** Everything is back: the same entries under new ids, in the same slots. */
  ghost predicate Restored(s: State, t: State) {
    && t.idCount == |Ids(s, false)| + |Ids(s, true)|
    && Back(s, t, |Ids(s, false)| + |Ids(s, true)|, s.newTable.Keys)
  }

  lemma AllDone(h: Hasher, s: State)
    requires Consistent(h, s)
    ensures DoneBelow(s, NEW_BUCKETS, 0) == s.newTable.Keys
  {
    forall x | x in s.newTable ensures x in DoneBelow(s, NEW_BUCKETS, 0) { assert NewSlotOk(h, s, x); }
  }

  lemma RestoredFull(h: Hasher, s: State, t: State)
    requires Consistent(h, s) && Restored(s, t)
    ensures forall k :: k in t.info ==> t.info[k].inTried || t.info[k].refCount != 0
  {
    forall k | k in t.info ensures t.info[k].inTried || t.info[k].refCount != 0 {
      assert InfoBack(s, t, s.newTable.Keys, k);
      IdOfOk(h, s, k);
      assert Slots(s.newTable, IdOf(s, k)) * s.newTable.Keys == Slots(s.newTable, IdOf(s, k));
    }
  }

  // ----- The limits on the counts are never hit -----

  function Row(bucket: nat, n: nat): set<Slot> {
    if n == 0 then {} else Row(bucket, n - 1) + {Slot(bucket, n - 1)}
  }

  function Grid(buckets: nat, n: nat): set<Slot> {
    if buckets == 0 then {} else Grid(buckets - 1, n) + Row(buckets - 1, n)
  }

  lemma {:induction false} RowHas(bucket: nat, n: nat, x: Slot)
    ensures x in Row(bucket, n) <==> x.bucket == bucket && x.pos < n
  {
    if n > 0 { RowHas(bucket, n - 1, x); }
  }

  lemma {:induction false} RowSize(bucket: nat, n: nat)
    ensures |Row(bucket, n)| == n
  {
    if n > 0 {
      RowSize(bucket, n - 1);
      RowHas(bucket, n - 1, Slot(bucket, n - 1));
    }
  }

  lemma {:induction false} GridHas(buckets: nat, n: nat, x: Slot)
    ensures x in Grid(buckets, n) <==> x.bucket < buckets && x.pos < n
  {
    if buckets > 0 {
      GridHas(buckets - 1, n, x);
      RowHas(buckets - 1, n, x);
    }
  }

  lemma {:induction false} GridSize(buckets: nat, n: nat)
    ensures |Grid(buckets, n)| == Times(n, buckets)
  {
    if buckets > 0 {
      var grid, row := Grid(buckets - 1, n), Row(buckets - 1, n);
      GridSize(buckets - 1, n);
      RowSize(buckets - 1, n);
      forall x | x in row ensures x !in grid {
        GridHas(buckets - 1, n, x);
        RowHas(buckets - 1, n, x);
      }
    }
  }

  ghost predicate HasSlot(table: map<Slot, int>, id: int) {
    exists x :: x in table && table[x] == id
  }

  /** Ids that each have a slot are no more than the slots. */
  lemma {:induction false} Pigeons(table: map<Slot, int>, ids: set<int>)
    requires forall id {:trigger HasSlot(table, id)} :: id in ids ==> HasSlot(table, id)
    ensures |ids| <= |table.Keys|
    decreases ids
  {
    if ids != {} {
      var id := Pick(ids);
      assert HasSlot(table, id);
      var x :| x in table && table[x] == id;
      var rest := table - Slots(table, id);
      forall j | j in ids - {id} ensures HasSlot(rest, j) {
        assert HasSlot(table, j);
        var y :| y in table && table[y] == j;
        assert y in rest && rest[y] == j;
      }
      Pigeons(rest, ids - {id});
      Smaller(rest.Keys, table.Keys - {x});
    }
  }

  lemma WithinLimits(h: Hasher, s: State)
    requires Consistent(h, s)
    ensures s.nNew <= NEW_BUCKETS * BUCKET_SIZE && s.nTried <= TRIED_BUCKETS * BUCKET_SIZE
  {
    forall id | id in NewIds(s, {}) ensures HasSlot(s.newTable, id) {
      assert EntryOk(h, s, {}, id);
      assert Slots(s.newTable, id) != {};
      var x :| x in Slots(s.newTable, id);
    }
    Pigeons(s.newTable, NewIds(s, {}));
    GridSize(NEW_BUCKETS, BUCKET_SIZE);
    TimesIs(BUCKET_SIZE, NEW_BUCKETS);
    forall x | x in s.newTable.Keys ensures x in Grid(NEW_BUCKETS, BUCKET_SIZE) {
      assert NewSlotOk(h, s, x);
      GridHas(NEW_BUCKETS, BUCKET_SIZE, x);
    }
    Smaller(s.newTable.Keys, Grid(NEW_BUCKETS, BUCKET_SIZE));
    TriedWithinLimit(h, s);
  }

  lemma TriedWithinLimit(h: Hasher, s: State)
    requires Consistent(h, s)
    ensures s.nTried <= TRIED_BUCKETS * BUCKET_SIZE
  {
    forall id | id in TriedIds(s) ensures HasSlot(s.triedTable, id) {
      assert EntryOk(h, s, {}, id);
    }
    Pigeons(s.triedTable, TriedIds(s));
    GridSize(TRIED_BUCKETS, BUCKET_SIZE);
    TimesIs(BUCKET_SIZE, TRIED_BUCKETS);
    forall x | x in s.triedTable.Keys ensures x in Grid(TRIED_BUCKETS, BUCKET_SIZE) {
      assert TriedSlotOk(h, s, x);
      GridHas(TRIED_BUCKETS, BUCKET_SIZE, x);
    }
    Smaller(s.triedTable.Keys, Grid(TRIED_BUCKETS, BUCKET_SIZE));
  }

  // ----- The round trip -----

  lemma NothingBack(s: State, t: State)
    requires t == EMPTY.(nNew := s.nNew, nTried := s.nTried)
    ensures Back(s, t, 0, {})
  {
  }

  lemma ReadEntriesBack(h: Hasher, s: State, toks: seq<Token>, r0: Reader) returns (r1: Reader, r2: Reader)
    requires Consistent(h, s) && EntriesStand(s, toks, 6)
    requires r0 == Reader(EMPTY.(nNew := s.nNew, nTried := s.nTried), 6, 0)
    ensures r1.Reader? && ReadNew(h, toks, true, 0, r0) == r1
    ensures r2.Reader? && r2.lost == 0 && ReadTried(h, toks, 0, r1.(s := r1.s.(idCount := r1.s.nNew))) == r2
    ensures Filled(s, r2, 0, BucketBase(s)) && r2.s.idCount == |Ids(s, false)| + |Ids(s, true)| &&
      r2.s.nTried == s.nTried
  {
    CountsExact(h, s);
    NothingBack(s, r0.s);
    r1 := ReadNewBack(h, s, toks, 6, 0, r0);
    var r1' := r1.(s := r1.s.(idCount := r1.s.nNew));
    IdCountAside(s, r1.s, r1'.s, s.nNew, {});
    r2 := ReadTriedBack(h, s, toks, 6, 0, r1');
    FilledStart(s, r2);
  }

  lemma FilledStart(s: State, r: Reader)
    requires r.Reader? && r.at == BucketBase(s) && Back(s, r.s, |Ids(s, false)| + |Ids(s, true)|, {})
    ensures Filled(s, r, 0, BucketBase(s))
  {
    assert DoneBelow(s, 0, 0) == {};
  }

  lemma IdCountAside(s: State, t: State, t': State, count: nat, done: set<Slot>)
    requires Back(s, t, count, done) && t' == t.(idCount := t'.idCount)
    ensures Back(s, t', count, done)
  {
    forall k: nat | k < count ensures InfoBack(s, t', done, k) { assert InfoBack(s, t, done, k); }
    forall a ensures AddrBack(s, t', count, a) { assert AddrBack(s, t, count, a); }
    forall x ensures NewBack(s, t', done, x) { assert NewBack(s, t, done, x); }
    forall x ensures TriedBack(s, t', count, x) { assert TriedBack(s, t, count, x); }
    forall p: nat ensures PosBack(t', p) { assert PosBack(t, p); }
  }

  lemma HeaderWritten(h: Hasher, s: State, key: nat)
    requires Consistent(h, s)
    ensures var toks := Written(s, key);
      && HeaderOk(toks) && toks[0].n == 1 && toks[2].key == key && toks[3].n == s.nNew && toks[4].n == s.nTried
      && Flip(toks[5].n) == NEW_BUCKETS && |toks| == BucketBase(s) + |Buckets(s, NEW_BUCKETS)|
  {
    WithinLimits(h, s);
    var toks, head := Written(s, key), Header(s, key);
    assert toks[0] == head[0] && toks[1] == head[1] && toks[2] == head[2];
    assert toks[3] == head[3] && toks[4] == head[4] && toks[5] == head[5];
  }

  lemma TriedPhase(h: Hasher, toks: seq<Token>, r2: Reader, r3: Reader)
    requires r2.Reader? && r2.lost == 0 && r3.Reader? && r3 == ReadBuckets(h, toks, true, 0, NEW_BUCKETS, r2)
    requires Prune(r3.s, 0, r3.s.idCount) == r3.s
    ensures AfterTried(h, toks, true, NEW_BUCKETS, r2) == r3
  {
    assert r2.(s := r2.s.(nTried := r2.s.nTried - r2.lost)) == r2;
  }

  /** The phases of loading, given what each gives. */
  lemma Phases(hashers: nat -> Hasher, toks: seq<Token>, h: Hasher, nNew: int, nTried: int, r1: Reader, r2: Reader,
               r3: Reader)
    requires HeaderOk(toks) && h == hashers(toks[2].key) && toks[0].n == 1 && Flip(toks[5].n) == NEW_BUCKETS
    requires toks[3].n == nNew && toks[4].n == nTried
    requires r1.Reader? && r1 == ReadNew(h, toks, true, 0, Reader(EMPTY.(nNew := nNew, nTried := nTried), 6, 0))
    requires r2 == ReadTried(h, toks, 0, r1.(s := r1.s.(idCount := r1.s.nNew)))
    requires AfterTried(h, toks, true, NEW_BUCKETS, r2) == r3
    ensures Unserialize(hashers, toks) == r3
  {
    assert AfterNew(h, toks, true, NEW_BUCKETS, r1) == r3;
  }

  /**
   Loading what was saved: the whole stream is read, nothing is lost or pruned, and the same
   entries are back in the same slots of both tables under their new numbers.
   */
  lemma RoundTrip(hashers: nat -> Hasher, s: State, key: nat) returns (r: Reader)
    requires Consistent(hashers(key), s)
    ensures r == Unserialize(hashers, Written(s, key))
    ensures r.Reader? && r.lost == 0 && r.at == |Written(s, key)| && Restored(s, r.s)
  {
    var h, toks := hashers(key), Written(s, key);
    HeaderWritten(h, s, key);
    forall k: nat | k < |Ids(s, false)| + |Ids(s, true)| ensures EntryStands(s, toks, 6, k) {
      WrittenEntries(h, s, key, k);
    }
    forall b: nat | b < NEW_BUCKETS ensures BucketStands(s, toks, BucketBase(s), b) { WrittenBuckets(s, key, b); }
    var r1, r2 := ReadEntriesBack(h, s, toks, Reader(EMPTY.(nNew := s.nNew, nTried := s.nTried), 6, 0));
    r := ReadBucketsBack(h, s, toks, 0, BucketBase(s), r2);
    AllDone(h, s);
    RestoredFull(h, s, r.s);
    PruneNothing(r.s, 0);
    TriedPhase(h, toks, r2, r);
    Phases(hashers, toks, h, s.nNew, s.nTried, r1, r2, r);
  }

  // ----- What being restored means -----

  /** The loaded manager is consistent: the check at the end passes. */
  lemma RestoredConsistent(h: Hasher, s: State, t: State)
    requires Consistent(h, s) && Restored(s, t)
    ensures Consistent(h, t)
  {
    RestoredIndexed(h, s, t);
    RestoredListed(h, s, t);
  }

  lemma RestoredIndexed(h: Hasher, s: State, t: State)
    requires Consistent(h, s) && Restored(s, t)
    ensures Indexed(t)
  {
    var all, done := |Ids(s, false)| + |Ids(s, true)|, s.newTable.Keys;
    forall k | k in t.info ensures IdOk(t, k) { assert InfoBack(s, t, done, k) && PosBack(t, k); }
    forall a | a in t.addr ensures AddrOk(t, a) { assert AddrBack(s, t, all, a) && InfoBack(s, t, done, t.addr[a]); }
    forall p | 0 <= p < |t.random| ensures PosOk(t, p) { assert PosBack(t, p) && InfoBack(s, t, done, p); }
    CountBelow(t.info.Keys, all);
  }

  lemma {:induction false} CountBelow(ids: set<int>, n: nat)
    requires forall k :: k in ids <==> 0 <= k < n
    ensures |ids| == n
    decreases n
  {
    if n == 0 {
      if ids != {} { var k := Pick(ids); }
    } else {
      CountBelow(ids - {n - 1}, n - 1);
    }
  }

  lemma RestoredSlots(h: Hasher, s: State, t: State, k: nat)
    requires Consistent(h, s) && Restored(s, t) && k in t.info
    ensures k < |Ids(s, false)| + |Ids(s, true)| && Slots(t.newTable, k) == Slots(s.newTable, IdOf(s, k))
    ensures t.info[k].refCount == |Slots(t.newTable, k)|
  {
    var id, done := IdOf(s, k), s.newTable.Keys;
    assert InfoBack(s, t, done, k);
    IdOfOk(h, s, k);
    forall x ensures x in Slots(t.newTable, k) <==> x in Slots(s.newTable, id) {
      assert NewBack(s, t, done, x);
      if x in s.newTable {
        assert NewSlotOk(h, s, x);
        NumberOk(h, s, s.newTable[x]);
      }
    }
    assert Slots(s.newTable, id) * done == Slots(s.newTable, id);
  }

  lemma RestoredTried(s: State, t: State, x: Slot)
    requires Restored(s, t)
    ensures TriedBack(s, t, |Ids(s, false)| + |Ids(s, true)|, x)
  {
  }

  lemma RestoredEntry(h: Hasher, s: State, t: State, k: nat)
    requires Consistent(h, s) && Restored(s, t) && k in t.info
    ensures EntryOk(h, t, {}, k)
  {
    var id, x := IdOf(s, k), h.TriedSlot(t.info[k].service);
    RestoredSlots(h, s, t, k);
    assert InfoBack(s, t, s.newTable.Keys, k);
    IdOfOk(h, s, k);
    assert t.info[k].service == s.info[id].service && t.info[k].inTried == s.info[id].inTried;
    RestoredTried(s, t, x);
  }

  lemma RestoredListed(h: Hasher, s: State, t: State)
    requires Consistent(h, s) && Restored(s, t)
    ensures Listed(h, t, {}, 0)
  {
    var all, done := |Ids(s, false)| + |Ids(s, true)|, s.newTable.Keys;
    forall k | k in t.info ensures EntryOk(h, t, {}, k) { RestoredEntry(h, s, t, k); }
    forall x | x in t.newTable ensures NewSlotOk(h, t, x) {
      assert NewBack(s, t, done, x) && NewSlotOk(h, s, x);
      NumberOk(h, s, s.newTable[x]);
      assert InfoBack(s, t, done, t.newTable[x]);
    }
    forall x | x in t.triedTable ensures TriedSlotOk(h, t, x) {
      assert TriedBack(s, t, all, x) && TriedSlotOk(h, s, x);
      NumberOk(h, s, s.triedTable[x]);
      assert InfoBack(s, t, done, t.triedTable[x]);
    }
    RestoredCounts(h, s, t);
  }

  lemma RestoredKind(h: Hasher, s: State, t: State, k: int)
    requires Consistent(h, s) && Restored(s, t)
    ensures k in NewIds(t, {}) <==> 0 <= k < s.nNew
    ensures k in TriedIds(t) <==> s.nNew <= k < s.nNew + s.nTried
  {
    CountsExact(h, s);
    assert k in t.info <==> 0 <= k < s.nNew + s.nTried;
    if k in t.info {
      assert InfoBack(s, t, s.newTable.Keys, k);
      IdOfOk(h, s, k);
    }
  }

  lemma RestoredCounts(h: Hasher, s: State, t: State)
    requires Consistent(h, s) && Restored(s, t)
    ensures t.nTried == |TriedIds(t)| && t.nNew == |NewIds(t, {})|
  {
    CountsExact(h, s);
    var new', tried, all := NewIds(t, {}), TriedIds(t), t.info.Keys;
    forall k ensures (k in new' <==> 0 <= k < s.nNew) && (k in tried <==> s.nNew <= k < s.nNew + s.nTried) {
      RestoredKind(h, s, t, k);
    }
    CountBelow(new', s.nNew);
    CountBelow(all, s.nNew + s.nTried);
    assert tried == all - new';
    Difference(all, new');
  }

  lemma Difference(a: set<int>, b: set<int>)
    requires b <= a
    ensures |a - b| == |a| - |b|
  {
    assert (a - b) + b == a && (a - b) !! b;
  }

  /** In terms of addresses: a slot holds the same entry before and after, with as many references. */
  lemma SameSlots(h: Hasher, s: State, t: State, x: Slot)
    requires Consistent(h, s) && Restored(s, t)
    ensures x in t.newTable <==> x in s.newTable
    ensures x in t.triedTable <==> x in s.triedTable
    ensures x in s.newTable ==>
      t.newTable[x] in t.info && s.newTable[x] in s.info && Save(t.info[t.newTable[x]]) == Save(s.info[s.newTable[x]])
    ensures x in s.triedTable ==>
      t.triedTable[x] in t.info && s.triedTable[x] in s.info &&
      Save(t.info[t.triedTable[x]]) == Save(s.info[s.triedTable[x]])
  {
    var all, done := |Ids(s, false)| + |Ids(s, true)|, s.newTable.Keys;
    assert NewBack(s, t, done, x) && TriedBack(s, t, all, x);
    if x in s.newTable {
      assert NewSlotOk(h, s, x);
      NumberOk(h, s, s.newTable[x]);
      assert InfoBack(s, t, done, t.newTable[x]);
    }
    if x in s.triedTable {
      assert TriedSlotOk(h, s, x);
      NumberOk(h, s, s.triedTable[x]);
      assert InfoBack(s, t, done, NumberOf(s, s.triedTable[x]));
    }
  }

  /** Every address is known before and after, with the same saved fields, place and number of references. */
  lemma SameAddresses(h: Hasher, s: State, t: State, a: NetAddr)
    requires Consistent(h, s) && Restored(s, t)
    ensures a in t.addr <==> a in s.addr
    ensures a in s.addr ==> t.addr[a] in t.info && s.addr[a] in s.info
    ensures a in s.addr ==>
      var i, j := s.info[s.addr[a]], t.info[t.addr[a]];
      Save(i) == Save(j) && i.inTried == j.inTried && i.refCount == j.refCount
  {
    var all, done := |Ids(s, false)| + |Ids(s, true)|, s.newTable.Keys;
    assert AddrBack(s, t, all, a);
    if a in s.addr {
      assert AddrOk(s, a);
      var id := s.addr[a];
      NumberOk(h, s, id);
      assert InfoBack(s, t, done, NumberOf(s, id)) && EntryOk(h, s, {}, id);
      assert Slots(s.newTable, id) * done == Slots(s.newTable, id);
    }
    if a in t.addr { assert IdOk(s, IdOf(s, t.addr[a])); }
  }

  lemma HeldSlots(h: Hasher, s: State, t: State, x: Slot)
    requires Consistent(h, s) && Restored(s, t)
    ensures x in V.Show(s).newSlots <==> x in s.newTable
    ensures x in V.Show(t).newSlots <==> x in t.newTable
    ensures x in V.Show(s).triedSlots <==> x in s.triedTable
    ensures x in V.Show(t).triedSlots <==> x in t.triedTable
  {
    SameSlots(h, s, t, x);
  }

  lemma SameNewName(h: Hasher, s: State, t: State, x: Slot)
    requires Consistent(h, s) && Restored(s, t)
    ensures x in V.Show(t).newSlots <==> x in V.Show(s).newSlots
    ensures x in V.Show(s).newSlots ==> V.Show(t).newSlots[x] == V.Show(s).newSlots[x]
    ensures x in V.Show(t).triedSlots <==> x in V.Show(s).triedSlots
    ensures x in V.Show(s).triedSlots ==> V.Show(t).triedSlots[x] == V.Show(s).triedSlots[x]
  {
    SameSlots(h, s, t, x);
    HeldSlots(h, s, t, x);
  }

  lemma SameMaps<K, W>(a: map<K, W>, b: map<K, W>)
    requires forall k :: (k in a <==> k in b) && (k in a ==> a[k] == b[k])
    ensures a == b
  {
  }

  lemma SameNames(h: Hasher, s: State, t: State)
    requires Consistent(h, s) && Restored(s, t)
    ensures V.Show(t).newSlots == V.Show(s).newSlots && V.Show(t).triedSlots == V.Show(s).triedSlots
  {
    var v, w := V.Show(s), V.Show(t);
    forall x ensures (x in v.newSlots <==> x in w.newSlots) && (x in v.newSlots ==> v.newSlots[x] == w.newSlots[x]) {
      SameNewName(h, s, t, x);
    }
    SameMaps(v.newSlots, w.newSlots);
    forall x
      ensures (x in v.triedSlots <==> x in w.triedSlots) && (x in v.triedSlots ==> v.triedSlots[x] == w.triedSlots[x])
    {
      SameNewName(h, s, t, x);
    }
    SameMaps(v.triedSlots, w.triedSlots);
  }

  lemma RestoredSeen(h: Hasher, s: State, t: State, a: NetAddr)
    requires Consistent(h, s) && Restored(s, t) && a in s.addr
    ensures a in V.Show(s).seen && a in V.Show(t).seen && V.Show(t).seen[a] == V.Show(s).seen[a].(lastTry := 0)
  {
    var id := s.addr[a];
    assert AddrOk(s, a);
    NumberOk(h, s, id);
    assert InfoBack(s, t, s.newTable.Keys, NumberOf(s, id));
  }

  /** In terms of what the manager shows: everything is back but the times of the last tries. */
  lemma RestoredView(h: Hasher, s: State, t: State)
    requires Consistent(h, s) && Restored(s, t)
    ensures V.Show(t) == V.Show(s).(seen := map a | a in V.Show(s).seen :: V.Show(s).seen[a].(lastTry := 0))
  {
    SameNames(h, s, t);
    var v, w := V.Show(s).seen, V.Show(t).seen;
    var untried := map a | a in v :: v[a].(lastTry := 0);
    forall a ensures (a in untried <==> a in w) && (a in untried ==> untried[a] == w[a]) { SameSeenAt(h, s, t, a); }
    SameMaps(untried, w);
  }

  lemma SameSeenAt(h: Hasher, s: State, t: State, a: NetAddr)
    requires Consistent(h, s) && Restored(s, t)
    ensures a in V.Show(t).seen <==> a in V.Show(s).seen
    ensures a in V.Show(s).seen ==> V.Show(t).seen[a] == V.Show(s).seen[a].(lastTry := 0)
  {
    SameAddresses(h, s, t, a);
    if a in s.addr { RestoredSeen(h, s, t, a); }
  }

  /** The first numbers of the stream, and the entries behind them, new ones first. */
  lemma Layout(h: Hasher, s: State, key: nat, k: nat)
    requires Consistent(h, s) && k < |Ids(s, false)| + |Ids(s, true)|
    ensures var toks := Written(s, key);
      && |toks| > 6 + k && IdOf(s, k) in s.info
      && toks[..6] == [Num(1), Num(32), Key(key), Num(s.nNew), Num(s.nTried), Num(1073742848)]
      && toks[6 + k] == Entry(Save(s.info[IdOf(s, k)])) && (s.info[IdOf(s, k)].inTried <==> k >= s.nNew)
  {
    CountsExact(h, s);
    IdOfOk(h, s, k);
    WrittenEntries(h, s, key, k);
    assert Written(s, key)[..6] == Header(s, key);
  }

  /** Without usable positions a new entry goes to the slot its source selects, if that is free, and else nowhere. */
  lemma PlacedBySource(h: Hasher, s: State, n: int, e: Saved)
    ensures var t, x := PutNew(h, s, false, n, e), h.NewSlot(e.service, e.source);
      && n in t.info && Save(t.info[n]) == e && !t.info[n].inTried && t.info[n].lastTry == 0
      && t.info == s.info[n := t.info[n]] && t.addr == s.addr[e.service.addr := n] && t.random == s.random + [n]
      && t.newTable == (if x in s.newTable then s.newTable else s.newTable[x := n])
      && t.info[n].refCount == (if x in s.newTable then 0 else 1) && t.triedTable == s.triedTable
  {
  }

  /** A tried entry whose slot is taken is lost, and nothing else changes. */
  lemma LostWhenTaken(h: Hasher, r: Reader, e: Saved)
    requires r.Reader?
    ensures var t, x := PutTried(h, r, e), h.TriedSlot(e.service);
      && t.Reader? && t.at == r.at + 1 && (x in r.s.triedTable ==> t.s == r.s && t.lost == r.lost + 1)
      && (x !in r.s.triedTable ==>
          && t.lost == r.lost && t.s.triedTable == r.s.triedTable[x := r.s.idCount]
          && r.s.idCount in t.s.info && Save(t.s.info[r.s.idCount]) == e && t.s.info[r.s.idCount].inTried)
  {
  }
}
