/**
 The loops that write and read the address manager. They work on the abstract tables; reading
 keeps a cursor into the stream and fails, like an exception, when the stream does not fit.
 */
module AddrManCodec {
  import opened AddrManSpec
  import opened AddrManStream

  // ----- Writing -----

  ghost predicate IdWritable(s: State, id: int) { id in s.info ==> 0 <= id < s.idCount }
  ghost predicate SlotWritable(s: State, x: Slot) { x in s.newTable ==> s.newTable[x] in s.info }

  /** What writing relies on: ids in range, slots with known ids, and right counters. */
  ghost predicate Writable(s: State) {
    && s.idCount >= 0 && |Ids(s, false)| == s.nNew && |Ids(s, true)| == s.nTried
    && (forall id {:trigger IdWritable(s, id)} :: IdWritable(s, id))
    && (forall x {:trigger SlotWritable(s, x)} :: SlotWritable(s, x))
  }

  lemma ConsistentWritable(h: Hasher, s: State)
    requires Consistent(h, s)
    ensures Writable(s)
  {
    CountsExact(h, s);
    forall id ensures IdWritable(s, id) { if id in s.info { assert IdOk(s, id); } }
    forall x ensures SlotWritable(s, x) { if x in s.newTable { assert NewSlotOk(h, s, x); } }
  }

  ghost predicate Numbered(s: State, unkIds: map<int, int>, tried: bool, id: int) {
    id in s.info ==> id in unkIds && unkIds[id] == Rank(s, tried, id)
  }

  /** Writes the entries of one kind in the order of their ids. The counter never runs into the total. */
  method WriteEntries(s: State, tried: bool) returns (out: seq<Token>, unkIds: map<int, int>)
    requires Writable(s)
    ensures out == SaveAll(s, Ids(s, tried), |Ids(s, tried)|)
    ensures forall id {:trigger Numbered(s, unkIds, tried, id)} :: Numbered(s, unkIds, tried, id)
  {
    out, unkIds := [], map[];
    var nIds, id := 0, 0;
    while id < s.idCount
      invariant 0 <= id <= s.idCount && nIds == |IdsUpTo(s, tried, id)|
      invariant out == SaveAll(s, IdsUpTo(s, tried, id), nIds)
      invariant forall j {:trigger Numbered(s, unkIds, tried, j)} :: 0 <= j < id ==> Numbered(s, unkIds, tried, j)
    {
      NextEntry(s, tried, id);
      if id in s.info {
        ghost var before := unkIds;
        unkIds := unkIds[id := nIds];
        forall j | 0 <= j < id ensures Numbered(s, unkIds, tried, j) { assert Numbered(s, before, tried, j); }
        var info := s.info[id];
        if (if tried then info.inTried else info.refCount != 0) {
          assert nIds != if tried then s.nTried else s.nNew;
          out := out + [Entry(Save(info))];
          nIds := nIds + 1;
        }
      }
      id := id + 1;
    }
    forall j ensures Numbered(s, unkIds, tried, j) { assert IdWritable(s, j); }
  }

  /** While an entry is still to be written, fewer than the total have been. */
  lemma NextEntry(s: State, tried: bool, id: nat)
    requires Writable(s) && id < s.idCount
    ensures var ids, ids' := IdsUpTo(s, tried, id), IdsUpTo(s, tried, id + 1);
      if (if tried then IsTried(s, id) else IsNew(s, id)) then
        && |ids'| == |ids| + 1 && |ids| < (if tried then s.nTried else s.nNew)
        && SaveAll(s, ids', |ids'|) == SaveAll(s, ids, |ids|) + [Entry(Save(s.info[id]))]
      else ids' == ids
  {
    if (if tried then IsTried(s, id) else IsNew(s, id)) { RankAt(s, tried, s.idCount, id); }
  }

  method WriteBucket(s: State, bucket: nat, unkIds: map<int, int>) returns (out: seq<Token>)
    requires Writable(s) && forall id {:trigger Numbered(s, unkIds, false, id)} :: Numbered(s, unkIds, false, id)
    ensures out == Bucket(s, bucket)
  {
    var nSize, i := 0, 0;
    while i < BUCKET_SIZE
      invariant 0 <= i <= BUCKET_SIZE && nSize == |Indices(s, bucket, i)|
    {
      if Slot(bucket, i) in s.newTable {
        nSize := nSize + 1;
      }
      i := i + 1;
    }
    out := [Num(nSize)];
    i := 0;
    while i < BUCKET_SIZE
      invariant 0 <= i <= BUCKET_SIZE && out == [Num(nSize)] + Indices(s, bucket, i)
    {
      if Slot(bucket, i) in s.newTable {
        var id := s.newTable[Slot(bucket, i)];
        assert SlotWritable(s, Slot(bucket, i)) && Numbered(s, unkIds, false, id);
        out := out + [Num(unkIds[id])];
      }
      i := i + 1;
    }
  }

  method WriteBuckets(s: State, unkIds: map<int, int>) returns (out: seq<Token>)
    requires Writable(s) && forall id {:trigger Numbered(s, unkIds, false, id)} :: Numbered(s, unkIds, false, id)
    ensures out == Buckets(s, NEW_BUCKETS)
  {
    out := [];
    var bucket := 0;
    while bucket < NEW_BUCKETS
      invariant 0 <= bucket <= NEW_BUCKETS && out == Buckets(s, bucket)
    {
      var b := WriteBucket(s, bucket, unkIds);
      out := out + b;
      bucket := bucket + 1;
    }
  }

  method Serialize(ghost h: Hasher, s: State, key: nat) returns (out: seq<Token>)
    requires Consistent(h, s)
    ensures out == Written(s, key)
  {
    ConsistentWritable(h, s);
    out := [Num(1), Num(32), Key(key), Num(s.nNew), Num(s.nTried), Num(Flip(NEW_BUCKETS))];
    var news, unkIds := WriteEntries(s, false);
    var trieds, unused := WriteEntries(s, true);
    var buckets := WriteBuckets(s, unkIds);
    out := out + news + trieds + buckets;
  }

  // ----- Reading -----

  method LoadNew(h: Hasher, toks: seq<Token>, usable: bool, r0: Reader) returns (r: Reader)
    requires r0.Reader?
    ensures r == ReadNew(h, toks, usable, 0, r0)
  {
    r := r0;
    var n := 0;
    while n < r0.s.nNew
      invariant r.Reader? && r.s.nNew == r0.s.nNew && ReadNew(h, toks, usable, n, r) == ReadNew(h, toks, usable, 0, r0)
    {
      if r.at >= |toks| || !toks[r.at].Entry? {
        return Failed;
      }
      r := Reader(PutNew(h, r.s, usable, n, toks[r.at].e), r.at + 1, 0);
      n := n + 1;
    }
  }

  method LoadTried(h: Hasher, toks: seq<Token>, r0: Reader) returns (r: Reader)
    requires r0.Reader?
    ensures r == ReadTried(h, toks, 0, r0)
  {
    r := r0;
    var n := 0;
    while n < r0.s.nTried
      invariant r.Reader? && r.s.nTried == r0.s.nTried && ReadTried(h, toks, n, r) == ReadTried(h, toks, 0, r0)
    {
      if r.at >= |toks| || !toks[r.at].Entry? {
        return Failed;
      }
      r := PutTried(h, r, toks[r.at].e);
      n := n + 1;
    }
  }

  method LoadIndices(h: Hasher, toks: seq<Token>, usable: bool, bucket: int, size: int, r0: Reader) returns (r: Reader)
    requires r0.Reader?
    ensures r == ReadIndices(h, toks, usable, bucket, 0, size, r0)
  {
    r := r0;
    var n := 0;
    while n < size
      invariant r.Reader? &&
        ReadIndices(h, toks, usable, bucket, n, size, r) == ReadIndices(h, toks, usable, bucket, 0, size, r0)
    {
      if r.at >= |toks| || !toks[r.at].Num? {
        return Failed;
      }
      r := r.(s := PutIndex(h, r.s, usable, bucket, toks[r.at].n), at := r.at + 1);
      n := n + 1;
    }
  }

  method LoadBuckets(h: Hasher, toks: seq<Token>, usable: bool, buckets: int, r0: Reader) returns (r: Reader)
    requires r0.Reader?
    ensures r == ReadBuckets(h, toks, usable, 0, buckets, r0)
  {
    r := r0;
    var bucket := 0;
    while bucket < buckets
      invariant r.Reader? &&
        ReadBuckets(h, toks, usable, bucket, buckets, r) == ReadBuckets(h, toks, usable, 0, buckets, r0)
    {
      if r.at >= |toks| || !toks[r.at].Num? {
        return Failed;
      }
      r := LoadIndices(h, toks, usable, bucket, toks[r.at].n, r.(at := r.at + 1));
      if r.Failed? {
        return;
      }
      bucket := bucket + 1;
    }
  }

  method Unserialize(hashers: nat -> Hasher, toks: seq<Token>) returns (r: Reader)
    ensures r == AddrManStream.Unserialize(hashers, toks)
  {
    if !HeaderOk(toks) {
      return Failed;
    }
    var h, nVersion, buckets := hashers(toks[2].key), toks[0].n, toks[5].n;
    if nVersion != 0 {
      buckets := Flip(buckets);
    }
    var usable := nVersion == 1 && buckets == NEW_BUCKETS;
    r := LoadNew(h, toks, usable, Reader(EMPTY.(nNew := toks[3].n, nTried := toks[4].n), 6, 0));
    if r.Failed? {
      return;
    }
    r := LoadRest(h, toks, usable, buckets, r);
  }

  /** Tried entries and buckets; entries without a place go. */
  method LoadRest(h: Hasher, toks: seq<Token>, usable: bool, buckets: int, r0: Reader) returns (r: Reader)
    requires r0.Reader?
    ensures r == AfterNew(h, toks, usable, buckets, r0)
  {
    r := LoadTried(h, toks, r0.(s := r0.s.(idCount := r0.s.nNew)));
    if r.Failed? {
      return;
    }
    r := LoadBuckets(h, toks, usable, buckets, r.(s := r.s.(nTried := r.s.nTried - r.lost)));
    if r.Failed? {
      return;
    }
    r := r.(s := Prune(r.s, 0, r.s.idCount));
  }

  /** What was saved can be loaded: the loops undo each other. */
  method SaveAndLoad(hashers: nat -> Hasher, s: State, key: nat) returns (r: Reader)
    requires Consistent(hashers(key), s)
    ensures r.Reader? && r.lost == 0 && Restored(s, r.s) && Consistent(hashers(key), r.s)
  {
    var toks := Serialize(hashers(key), s, key);
    r := Unserialize(hashers, toks);
    var expected := RoundTrip(hashers, s, key);
    RestoredConsistent(hashers(key), s, expected.s);
  }
}
