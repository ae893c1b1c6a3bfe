/**
 The CAddrMan object: fixed tables of ids with -1 for a free slot, and the maps and counters
 beside them. Every method is proved to do what its function in AddrManSpec does; the
 assertions of the source stand at the same places in the bodies.
 */
module AddrMan {
  import opened Basics
  import opened Powers
  import opened AddrManCheck
  import opened AddrManSpec
  import V = AddrManView

  /** All slots of a table with the given numbers of buckets and positions. */
  ghost function Grid(buckets: nat, positions: nat): (g: set<Slot>)
    ensures forall x :: x in g <==> x.bucket < buckets && x.pos < positions
  {
    set b: nat, p: nat | b < buckets && p < positions :: Slot(b, p)
  }

  /** The occupied slots of a table. */
  ghost function TableOf(a: array2<int>): map<Slot, int>
    reads a
  {
    map x | x in Grid(a.Length0, a.Length1) && a[x.bucket, x.pos] != -1 :: a[x.bucket, x.pos]
  }

  method SetSlot(a: array2<int>, x: Slot, v: int)
    requires x.bucket < a.Length0 && x.pos < a.Length1
    modifies a
    ensures TableOf(a) == if v == -1 then old(TableOf(a)) - {x} else old(TableOf(a))[x := v]
  {
    a[x.bucket, x.pos] := v;
  }

  class AddrMan {
    const hasher: Hasher
    const vvTried: array2<int>
    const vvNew: array2<int>
    var nIdCount: int
    var mapInfo: map<int, AddrInfo>
    var mapAddr: map<NetAddr, int>
    var vRandom: seq<int>
    var nTried: int
    var nNew: int

    predicate Valid() {
      && vvTried != vvNew
      && vvTried.Length0 == TRIED_BUCKETS && vvTried.Length1 == BUCKET_SIZE
      && vvNew.Length0 == NEW_BUCKETS && vvNew.Length1 == BUCKET_SIZE
    }

    ghost function Model(): State
      reads this, vvTried, vvNew
    {
      State(nIdCount, mapInfo, mapAddr, vRandom, nTried, nNew, TableOf(vvTried), TableOf(vvNew))
    }

    constructor (hasher: Hasher)
      ensures Valid() && fresh(vvTried) && fresh(vvNew) && this.hasher == hasher
      ensures Model() == EMPTY
    {
      this.hasher := hasher;
      vvTried := new int[TRIED_BUCKETS, BUCKET_SIZE]((b, p) => -1);
      vvNew := new int[NEW_BUCKETS, BUCKET_SIZE]((b, p) => -1);
      nIdCount, mapInfo, mapAddr, vRandom, nTried, nNew := 0, map[], map[], [], 0, 0;
    }

    method Create(a: Address, source: NetAddr) returns (id: int)
      modifies this
      ensures id == old(nIdCount) && Model() == AddrManSpec.Create(old(Model()), a, source)
    {
      id := nIdCount;
      nIdCount := nIdCount + 1;
      mapInfo := mapInfo[id := NewInfo(a, source, |vRandom|)];
      mapAddr := mapAddr[a.service.addr := id];
      vRandom := vRandom + [id];
    }

    method SwapRandom(p: int, q: int)
      requires p == q || CanSwap(Model(), p, q)
      modifies this
      ensures Model() == AddrManSpec.SwapRandom(old(Model()), p, q)
    {
      if p == q {
        return;
      }
      var id1, id2 := vRandom[p], vRandom[q];
      mapInfo := mapInfo[id1 := mapInfo[id1].(randomPos := q)];
      mapInfo := mapInfo[id2 := mapInfo[id2].(randomPos := p)];
      vRandom := vRandom[p := id2][q := id1];
    }

    method Delete(id: int)
      requires id in mapInfo && !mapInfo[id].inTried && mapInfo[id].refCount == 0
      requires vRandom != [] && CanSwap(Model(), mapInfo[id].randomPos, |vRandom| - 1)
      modifies this
      ensures Model() == AddrManSpec.Delete(old(Model()), id)
    {
      SwapRandom(mapInfo[id].randomPos, |vRandom| - 1);
      vRandom := vRandom[..|vRandom| - 1];
      mapAddr := mapAddr - {mapInfo[id].service.addr};
      mapInfo := mapInfo - {id};
      nNew := nNew - 1;
    }

    method ClearNew(x: Slot)
      requires Valid() && x.bucket < NEW_BUCKETS && x.pos < BUCKET_SIZE
      requires Indexed(Model())
      requires x in Model().newTable ==>
        var id := Model().newTable[x]; id in mapInfo && mapInfo[id].refCount > 0 && !mapInfo[id].inTried
      modifies this, vvNew
      ensures Model() == AddrManSpec.ClearNew(old(Model()), x)
    {
      var id := vvNew[x.bucket, x.pos];
      if id != -1 {
        assert x in Model().newTable;
        UnrefIndexed(Model(), x);
        assert mapInfo[id].refCount > 0;
        mapInfo := mapInfo[id := mapInfo[id].(refCount := mapInfo[id].refCount - 1)];
        SetSlot(vvNew, x, -1);
        if mapInfo[id].refCount == 0 {
          Delete(id);
        }
      }
    }

    method Untry(x: Slot)
      requires Valid() && x.bucket < TRIED_BUCKETS && x.pos < BUCKET_SIZE
      requires x in Model().triedTable && Model().triedTable[x] in mapInfo
      modifies this, vvTried
      ensures Model() == AddrManSpec.Untry(old(Model()), x)
    {
      var id := vvTried[x.bucket, x.pos];
      mapInfo := mapInfo[id := mapInfo[id].(inTried := false)];
      SetSlot(vvTried, x, -1);
      nTried := nTried - 1;
    }

    method Try(id: int, x: Slot)
      requires Valid() && x.bucket < TRIED_BUCKETS && x.pos < BUCKET_SIZE && id in mapInfo && id >= 0
      modifies this, vvTried
      ensures Model() == AddrManSpec.Try(old(Model()), id, x)
    {
      SetSlot(vvTried, x, id);
      nTried := nTried + 1;
      mapInfo := mapInfo[id := mapInfo[id].(inTried := true)];
    }

    method Ref(id: int, x: Slot)
      requires Valid() && x.bucket < NEW_BUCKETS && x.pos < BUCKET_SIZE && id in mapInfo && id >= 0
      modifies this, vvNew
      ensures Model() == AddrManSpec.Ref(old(Model()), id, x)
    {
      mapInfo := mapInfo[id := mapInfo[id].(refCount := mapInfo[id].refCount + 1)];
      SetSlot(vvNew, x, id);
    }

    /** Moves an entry to the tried table; the entry it displaces goes back to the new table. */
    method MakeTried(id: int)
      requires Valid() && CanTry(hasher, Model(), id)
      modifies this, vvNew, vvTried
      ensures Model() == AddrManSpec.MakeTried(hasher, old(Model()), id)
    {
      UnlistedKeeps(hasher, Model(), id);
      CanTryIndexed(hasher, Model(), id);
      UnlistAll(id);
      nNew := nNew - 1;
      assert mapInfo[id].refCount == 0;

      var x := hasher.TriedSlot(mapInfo[id].service);
      ghost var s1 := Model();
      assert s1 == Unlisted(old(Model()), id);
      if vvTried[x.bucket, x.pos] != -1 {
        assert x in s1.triedTable;
        EvictKeeps(hasher, s1, x, id);
        Evict(x, id);
      } else {
        assert x !in s1.triedTable;
      }
      assert vvTried[x.bucket, x.pos] == -1 by { assert x !in Model().triedTable; }
      Try(id, x);
    }

    /** The loop of MakeTried over all new buckets. */
    method UnlistAll(id: int)
      requires Valid() && NewSlotsOk(hasher, Model()) && id in mapInfo && id >= 0
      modifies this, vvNew
      ensures Model() == Unlist(old(Model()), id)
    {
      ghost var s := Model();
      var a := mapInfo[id].service;
      UnlistNone(s, id);
      for bucket := 0 to NEW_BUCKETS
        invariant Model() == UnlistBelow(s, id, bucket)
      {
        var pos := hasher.Position(true, bucket, a);
        UnlistNext(hasher, s, id, bucket);
        if vvNew[bucket, pos] == id {
          assert Slot(bucket, pos) in Model().newTable;
          SetSlot(vvNew, Slot(bucket, pos), -1);
          mapInfo := mapInfo[id := mapInfo[id].(refCount := mapInfo[id].refCount - 1)];
        } else {
          assert !(Slot(bucket, pos) in Model().newTable && Model().newTable[Slot(bucket, pos)] == id);
        }
      }
      UnlistEvery(hasher, s, id);
    }

    method Evict(x: Slot, ghost id: int)
      requires Valid() && x.bucket < TRIED_BUCKETS && x.pos < BUCKET_SIZE
      requires Inv(hasher, Model(), {id}, 0) && x in Model().triedTable
      modifies this, vvNew, vvTried
      ensures Model() == AddrManSpec.Evict(hasher, old(Model()), x, {id})
    {
      EvictSteps(hasher, Model(), x, {id});
      var idEvict := vvTried[x.bucket, x.pos];
      assert idEvict in mapInfo;
      Untry(x);
      var y := hasher.NewSlot(mapInfo[idEvict].service, mapInfo[idEvict].source);
      ClearNew(y);
      assert vvNew[y.bucket, y.pos] == -1 by { assert y !in Model().newTable; }
      assert mapInfo[idEvict].refCount == 0;
      Ref(idEvict, y);
      nNew := nNew + 1;
    }

    // ----- The operations -----

    method Good(a: Service, time: int, roll: nat)
      requires Valid() && Consistent(hasher, Model())
      modifies this, vvNew, vvTried
      ensures Model() == AddrManSpec.Good(hasher, old(Model()), a, time)
      ensures Consistent(hasher, Model()) <==> time > 0 || !old(Matches(Model(), a))
      ensures V.Show(Model()) == V.Succeeded(hasher, V.Show(old(Model())), a, time)
    {
      V.ShowGood(hasher, Model(), a, time);
      GoodExact(hasher, Model(), a, time);
      Promote(a, time, roll);
    }

    method Promote(a: Service, time: int, roll: nat)
      requires Valid() && Consistent(hasher, Model())
      modifies this, vvNew, vvTried
      ensures Model() == AddrManSpec.Good(hasher, old(Model()), a, time)
    {
      ghost var s := Model();
      if a.addr !in mapAddr {
        return;
      }
      assert AddrOk(s, a.addr);
      var id := mapAddr[a.addr];
      if mapInfo[id].service != a {
        return;
      }
      if !s.info[id].inTried { StampedCanTry(hasher, s, id, time); }
      mapInfo := mapInfo[id := mapInfo[id].(lastSuccess := time, lastTry := time, attempts := 0)];
      if mapInfo[id].inTried {
        return;
      }
      var bucket := FindBucket(id, roll % NEW_BUCKETS);
      assert bucket != -1;
      MakeTried(id);
    }

    /** Some new bucket that lists the entry, searched from a random one on. */
    method FindBucket(id: int, start: nat) returns (bucket: int)
      requires Valid() && CanTry(hasher, Model(), id)
      ensures 0 <= bucket < NEW_BUCKETS && Holds(bucket, id)
    {
      var n := 0;
      while n < NEW_BUCKETS
        invariant 0 <= n <= NEW_BUCKETS
        invariant forall m :: 0 <= m < n ==> !Holds(Rotated(m, start), id)
      {
        var b := Rotated(n, start);
        if vvNew[b, hasher.Position(true, b, mapInfo[id].service)] == id {
          return b;
        }
        n := n + 1;
      }
      NeverMissing(id, start);
      assert false;
      bucket := -1;
    }

    static function Rotated(n: nat, start: nat): (b: nat)
      ensures b < NEW_BUCKETS
    {
      (n + start) % NEW_BUCKETS
    }

    predicate Holds(b: nat, id: int)
      requires Valid() && b < NEW_BUCKETS && id in mapInfo
      reads this, vvNew
    {
      vvNew[b, hasher.Position(true, b, mapInfo[id].service)] == id
    }

    /** The case the source calls something bad: it does not arise. */
    lemma NeverMissing(id: int, start: nat)
      requires Valid() && CanTry(hasher, Model(), id)
      ensures exists m :: 0 <= m < NEW_BUCKETS && Holds(Rotated(m, start), id)
    {
      var s := Model();
      CanTryIndexed(hasher, s, id);
      var x :| x in Slots(s.newTable, id);
      assert NewSlotOk(hasher, s, x);
      var m := (x.bucket + NEW_BUCKETS - start % NEW_BUCKETS) % NEW_BUCKETS;
      assert Rotated(m, start) == x.bucket;
    }

    method Attempt(a: Service, time: int)
      requires Indexed(Model())
      modifies this
      ensures Model() == AddrManSpec.Attempt(old(Model()), a, time)
    {
      if a.addr !in mapAddr {
        return;
      }
      assert AddrOk(Model(), a.addr);
      var id := mapAddr[a.addr];
      if mapInfo[id].service != a {
        return;
      }
      mapInfo := mapInfo[id := mapInfo[id].(lastTry := time, attempts := mapInfo[id].attempts + 1)];
    }

    method Connected(a: Service, time: int)
      requires Indexed(Model())
      modifies this
      ensures Model() == AddrManSpec.Connected(old(Model()), a, time)
    {
      if a.addr !in mapAddr {
        return;
      }
      assert AddrOk(Model(), a.addr);
      var id := mapAddr[a.addr];
      if mapInfo[id].service != a {
        return;
      }
      if time - mapInfo[id].time > 20 * 60 {
        mapInfo := mapInfo[id := mapInfo[id].(time := time)];
      }
    }

    /** What is known and which slots are held afterwards is what the view of the manager says. */
    method Add(a: Address, source: NetAddr, penalty: int, now: int, roll: nat) returns (isNew: bool)
      requires Valid() && Consistent(hasher, Model())
      modifies this, vvNew
      ensures (Model(), isNew) == AddrManSpec.Add(hasher, old(Model()), a, source, penalty, now, roll)
      ensures Consistent(hasher, Model())
      ensures (V.Show(Model()), isNew) == V.Added(hasher, V.Show(old(Model())), a, source, penalty, now, roll)
    {
      V.ShowAdd(hasher, Model(), a, source, penalty, now, roll);
      AddKeeps(hasher, Model(), a, source, penalty, now, roll);
      isNew := Enter(a, source, penalty, now, roll);
    }

    method Enter(a: Address, source: NetAddr, penalty: int, now: int, roll: nat) returns (isNew: bool)
      requires Valid() && Consistent(hasher, Model())
      modifies this, vvNew
      ensures (Model(), isNew) == AddrManSpec.Add(hasher, old(Model()), a, source, penalty, now, roll)
    {
      if !hasher.routable(a.service.addr) {
        return false;
      }
      if a.service.addr in mapAddr {
        HeardKeeps(hasher, Model(), a, penalty, now);
        var id := mapAddr[a.service.addr];
        mapInfo := mapInfo[id := Heard(mapInfo[id], a, penalty, now)];
        var room := HasRoom(id, a, roll);
        if room {
          Place(id, source, now);
        }
        isNew := false;
      } else {
        EnlistedKeeps(hasher, Model(), a, source, penalty);
        var id := Enlist(a, source, penalty);
        Place(id, source, now);
        isNew := true;
      }
    }

    /** The tests that stop a known entry from getting one more reference. */
    method HasRoom(id: int, a: Address, roll: nat) returns (room: bool)
      requires id in mapInfo && 0 <= mapInfo[id].refCount
      ensures room == MayList(mapInfo[id], a, roll)
    {
      var i := mapInfo[id];
      if a.time == 0 || (i.time != 0 && a.time <= i.time) || i.inTried || i.refCount == NEW_BUCKETS_PER_ADDRESS {
        return false;
      }
      var factor := 1;
      for n := 0 to i.refCount
        invariant factor == Pow2(n)
      {
        factor := factor * 2;
      }
      room := !(factor > 1 && roll % factor != 0);
    }

    method Enlist(a: Address, source: NetAddr, penalty: int) returns (id: int)
      modifies this
      ensures id == old(nIdCount) && Model() == Enlisted(old(Model()), a, source, penalty)
    {
      id := Create(a, source);
      mapInfo := mapInfo[id := mapInfo[id].(time := Max(0, mapInfo[id].time - penalty))];
      nNew := nNew + 1;
      assert mapInfo == old(mapInfo)[id := mapInfo[id]];
    }

    /** Whether a slot may be taken over: it is free, or its holder is bad or can spare it. */
    method Replaces(there: int, id: int, now: int) returns (insert: bool)
      requires id in mapInfo && (there != -1 ==> there in mapInfo)
      ensures insert <==>
        there == -1 || mapInfo[there].IsTerrible(now) || (mapInfo[there].refCount > 1 && mapInfo[id].refCount == 0)
    {
      insert := there == -1;
      if !insert {
        insert := mapInfo[there].IsTerrible(now) || (mapInfo[there].refCount > 1 && mapInfo[id].refCount == 0);
      }
    }

    /** Lists an entry in the slot its source selects, or drops it when the slot is taken. */
    method Place(id: int, source: NetAddr, now: int)
      requires Valid() && CanPlace(hasher, Model(), id)
      modifies this, vvNew
      ensures Model() == AddrManSpec.Place(hasher, old(Model()), id, source, now)
    {
      ghost var s := Model();
      PlaceReady(hasher, s, id, source);
      assert IdOk(s, id);
      var x := hasher.NewSlot(mapInfo[id].service, source);
      var there := vvNew[x.bucket, x.pos];
      assert if x in s.newTable then there == s.newTable[x] else there == -1;
      if there == id {
        return;
      }
      var insert := Replaces(there, id, now);
      assert insert == MayOverwrite(s, id, x, now);
      TakeOrDrop(id, x, insert);
    }

    method TakeOrDrop(id: int, x: Slot, insert: bool)
      requires Valid() && x.bucket < NEW_BUCKETS && x.pos < BUCKET_SIZE && Indexed(Model()) && id in mapInfo && id >= 0
      requires insert && x in Model().newTable ==>
        var i := Model().newTable[x]; i in mapInfo && mapInfo[i].refCount > 0 && !mapInfo[i].inTried && i != id
      requires insert ==> id in AddrManSpec.ClearNew(Model(), x).info && x !in AddrManSpec.ClearNew(Model(), x).newTable
      requires !mapInfo[id].inTried
      requires mapInfo[id].refCount == 0 ==> vRandom != [] && CanSwap(Model(), mapInfo[id].randomPos, |vRandom| - 1)
      modifies this, vvNew
      ensures Model() ==
        if insert then Relist(hasher, old(Model()), id, x)
        else if old(mapInfo[id].refCount) == 0 then AddrManSpec.Delete(old(Model()), id)
        else old(Model())
    {
      if insert {
        ClearNew(x);
        Ref(id, x);
      } else if mapInfo[id].refCount == 0 {
        Delete(id);
      }
    }

    /** Swaps one more position and reads it. */
    method ReadNext(q: nat, n: nat, now: int, list: seq<Address>, ghost s: State, ghost picks: seq<nat>)
      returns (more: seq<Address>)
      requires Reading(s, picks, n, now, Model(), list) && n < |picks| && q == picks[n]
      modifies this
      ensures Reading(s, picks, n + 1, now, Model(), more)
      ensures |vRandom| == |s.random| && |more| <= |list| + 1
    {
      ReadingNext(s, picks, n, now, Model(), list);
      SwapRandom(n, q);
      var i := mapInfo[vRandom[n]];
      more := list + if i.IsTerrible(now) then [] else [ToAddress(i)];
    }

    /** Up to 23 percent of all entries, and at most 2500, in random order without the bad ones. */
    method GetAddr(picks: seq<nat>, now: int) returns (list: seq<Address>, ghost k: nat)
      requires Indexed(Model()) && |picks| == |vRandom| && Picks(picks, |vRandom|)
      modifies this
      ensures k <= |picks| && Model() == Shuffled(old(Model()), picks[..k])
      ensures Known(Model()) && list == Usable(Model(), k, now)
      ensures |list| <= GetAddrLimit(|vRandom|)
      ensures |list| < GetAddrLimit(|vRandom|) ==> k == |vRandom|
    {
      ghost var s := Model();
      var nNodes := GetAddrLimit(|vRandom|);
      list := [];
      var n := 0;
      AllKnown(s);
      while n < |vRandom|
        invariant 0 <= n <= |vRandom| == |s.random| && |list| <= nNodes
        invariant Reading(s, picks, n, now, Model(), list)
      {
        if |list| >= nNodes {
          break;
        }
        list := ReadNext(picks[n], n, now, list, s, picks);
        n := n + 1;
      }
      k := n;
    }

    // ----- Check_ -----

    /** One entry by itself; looking up a missing address enters it as 0. */
    method CheckEntry(n: int) returns (code: int)
      requires n in mapInfo
      modifies this`mapAddr
      ensures SameLookups(old(mapAddr), mapAddr)
      ensures mapInfo[n].service.addr in old(mapAddr) ==> mapAddr == old(mapAddr)
      ensures code == 0 <==> EntryPasses(old(Model()), n)
    {
      var info := mapInfo[n];
      if info.inTried {
        if info.lastSuccess == 0 {
          return -1;
        }
        if info.refCount != 0 {
          return -2;
        }
      } else {
        if info.refCount < 0 || info.refCount > NEW_BUCKETS_PER_ADDRESS {
          return -3;
        }
        if info.refCount == 0 {
          return -4;
        }
      }
      if info.service.addr !in mapAddr {
        mapAddr := mapAddr[info.service.addr := 0];
      }
      if mapAddr[info.service.addr] != n {
        return -5;
      }
      if info.randomPos < 0 || info.randomPos >= |vRandom| || vRandom[info.randomPos] != n {
        return -14;
      }
      if info.lastTry < 0 {
        return -6;
      }
      if info.lastSuccess < 0 {
        return -8;
      }
      return 0;
    }

    /** All entries, with the tried ones and the references of the others to look for. */
    method CheckEntries() returns (code: int, setTried: set<int>, mapNew: map<int, int>)
      modifies this`mapAddr
      ensures SameLookups(old(mapAddr), mapAddr)
      ensures AddrsKnown(old(Model())) ==> mapAddr == old(mapAddr)
      ensures code == 0 <==> EntriesPass(old(Model()))
      ensures code == 0 ==> setTried == TriedIds(old(Model())) && mapNew == Refs(old(Model()))
    {
      ghost var s := Model();
      setTried, mapNew := {}, map[];
      GatheredNone(s);
      var todo := mapInfo.Keys;
      while todo != {}
        invariant SameLookups(s.addr, mapAddr) && todo <= mapInfo.Keys
        invariant AddrsKnown(s) ==> mapAddr == s.addr
        invariant Gathered(s, todo, setTried, mapNew)
        decreases |todo|
      {
        ghost var some := Pick(todo);
        var n :| n in todo;
        LookupsPass(s, Model(), n);
        code := CheckEntry(n);
        if code != 0 {
          return;
        }
        GatheredNext(s, todo, setTried, mapNew, n);
        if mapInfo[n].inTried {
          setTried := setTried + {n};
        } else {
          mapNew := mapNew[n := mapInfo[n].refCount];
        }
        todo := todo - {n};
      }
      GatheredAll(s, setTried, mapNew);
      code := 0;
    }

    /** Takes every id met in the tried table out of the tried ids. */
    method CheckTried(ids: set<int>, ghost s: State) returns (code: int, left: set<int>)
      requires Valid() && s.info == mapInfo && s.triedTable == TableOf(vvTried) && ids == TriedIds(s)
      ensures if code == 0 then TriedMet(hasher, s, s.triedTable, left) else !TablesPass(hasher, s)
    {
      left := ids;
      for n := 0 to TRIED_BUCKETS
        invariant TriedMet(hasher, s, Before(s.triedTable, n, 0), left)
      {
        for i := 0 to BUCKET_SIZE
          invariant TriedMet(hasher, s, Before(s.triedTable, n, i), left)
        {
          BeforeNext(s.triedTable, Slot(n, i));
          var id := vvTried[n, i];
          if id != -1 {
            assert Slot(n, i) in s.triedTable && s.triedTable[Slot(n, i)] == id;
            TriedNext(hasher, s, Before(s.triedTable, n, i), left, Slot(n, i), id);
            if id !in left {
              return -11, left;
            }
            if hasher.TriedSlot(mapInfo[id].service).bucket != n {
              return -17, left;
            }
            if hasher.Position(false, n, mapInfo[id].service) != i {
              return -18, left;
            }
            left := left - {id};
          } else {
            assert Slot(n, i) !in s.triedTable;
          }
        }
        BeforeRow(s.triedTable, n, BUCKET_SIZE);
      }
      BeforeAll(s.triedTable, TRIED_BUCKETS);
      code := 0;
    }

    /** Counts every id met in the new table off its references. */
    method CheckNew(refs: map<int, int>, ghost s: State) returns (code: int, left: map<int, int>)
      requires Valid() && s.info == mapInfo && s.newTable == TableOf(vvNew)
      requires EntriesPass(s) && refs == Refs(s)
      ensures if code == 0 then NewMet(hasher, s, s.newTable, left) else !TablesPass(hasher, s)
    {
      left := refs;
      NoneMet(hasher, s);
      for n := 0 to NEW_BUCKETS
        invariant NewMet(hasher, s, Before(s.newTable, n, 0), left)
      {
        for i := 0 to BUCKET_SIZE
          invariant NewMet(hasher, s, Before(s.newTable, n, i), left)
        {
          BeforeNext(s.newTable, Slot(n, i));
          var id := vvNew[n, i];
          if id != -1 {
            assert Slot(n, i) in s.newTable && s.newTable[Slot(n, i)] == id;
            NewNext(hasher, s, Before(s.newTable, n, i), left, Slot(n, i), id);
            if id !in left {
              return -12, left;
            }
            if hasher.Position(true, n, mapInfo[id].service) != i {
              return -19, left;
            }
            left := LessOne(left, id);
          } else {
            assert Slot(n, i) !in s.newTable;
          }
        }
        BeforeRow(s.newTable, n, BUCKET_SIZE);
      }
      BeforeAll(s.newTable, NEW_BUCKETS);
      code := 0;
    }

    method Check(keyIsNull: bool) returns (code: int)
      requires Valid()
      modifies this`mapAddr
      ensures code == 0 <==> Passes(hasher, old(Model())) && !keyIsNull
      ensures SameLookups(old(mapAddr), mapAddr)
      ensures Consistent(hasher, old(Model())) ==> Model() == old(Model()) && (code == 0 <==> !keyIsNull)
    {
      ghost var s := Model();
      CheckExact(hasher, s);
      ConsistentKnown(hasher, s);
      if |vRandom| != nTried + nNew {
        return -7;
      }
      var setTried, mapNew;
      code, setTried, mapNew := CheckEntries();
      if code != 0 {
        return;
      }
      if |setTried| != nTried {
        return -9;
      }
      assert mapNew.Keys == NewIds(s, {});
      if |mapNew.Keys| != nNew {
        return -10;
      }
      code, setTried := CheckTried(setTried, s);
      if code != 0 {
        return;
      }
      code, mapNew := CheckNew(mapNew, s);
      if code != 0 {
        return;
      }
      NothingLeft(hasher, s, setTried, mapNew);
      if setTried != {} {
        return -13;
      }
      if mapNew != map[] {
        return -15;
      }
      if keyIsNull {
        return -16;
      }
      return 0;
    }
  }
}
