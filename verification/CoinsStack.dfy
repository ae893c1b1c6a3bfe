/**
 The coins of a stack of CCoinsViewCache objects over a data base.

 Each cache maps a txid to an entry flagged DIRTY (may differ from the parent)
 and FRESH (the parent has nothing unspent). Reads fill every cache on the way
 down. A pruned entry counts as absent.
 */
module CoinsStack {
  import opened Basics
  import opened CoinsTypes

  datatype CoinsEntry = CoinsEntry(coins: Coins, isDirty: bool, isFresh: bool)

  type CoinsMap = map<Uint256, CoinsEntry>
  type CoinsDb = map<Uint256, Coins>
  type CoinsStack = Stack<CoinsMap, CoinsDb>

  /** What GetCoins returns: possibly a pruned entry. */
  function Raw(s: CoinsStack, txid: Uint256): Option<Coins> {
    match s
    case Base(db) => if txid in db then Some(db[txid]) else None
    case Layer(top, below) => if txid in top then Some(top[txid].coins) else Raw(below, txid)
  }

  function Unpruned(r: Option<Coins>): Option<Coins> {
    if r.Some? && r.value.IsPruned() then None else r
  }

  /** The unspent coins a view shows for a txid. */
  function CoinsAt(s: CoinsStack, txid: Uint256): Option<Coins> {
    Unpruned(Raw(s, txid))
  }

  predicate Cached(s: CoinsStack, txid: Uint256) {
    s.Layer? ==> txid in s.top
  }

  ghost predicate EntryOk(txid: Uint256, e: CoinsEntry, below: CoinsStack) {
    && e.coins.IsClean()
    && (e.isFresh ==> CoinsAt(below, txid).None?)
    && (!e.isDirty ==> Unpruned(Some(e.coins)) == CoinsAt(below, txid))
    && (!e.isFresh ==> Cached(below, txid))
  }

  /** What every operation on a stack keeps. */
  ghost predicate Inv(s: CoinsStack) {
    match s
    case Base(db) => forall k :: k in db ==> !db[k].IsPruned() && db[k].IsClean()
    case Layer(top, below) => Inv(below) && forall k :: k in top ==> EntryOk(k, top[k], below)
  }

  ghost predicate SameCoins(s: CoinsStack, s': CoinsStack) {
    forall k :: CoinsAt(s, k) == CoinsAt(s', k)
  }

  /** The stack after FetchCoins(txid): every cache that lacked the entry pulls it in. */
  function Fetch(s: CoinsStack, txid: Uint256): CoinsStack {
    match s
    case Base(_) => s
    case Layer(top, below) =>
      if txid in top then s
      else match Raw(below, txid)
        case None => Layer(top, Fetch(below, txid))
        case Some(c) => Layer(top[txid := CoinsEntry(c, false, c.IsPruned())], Fetch(below, txid))
  }

  lemma {:induction false} FetchRaw(s: CoinsStack, txid: Uint256, k: Uint256)
    ensures Raw(Fetch(s, txid), k) == Raw(s, k)
    ensures Cached(s, k) ==> Cached(Fetch(s, txid), k)
    ensures Raw(s, txid).Some? ==> Cached(Fetch(s, txid), txid)
    ensures Depth(Fetch(s, txid)) == Depth(s)
  {
    if s.Layer? && txid !in s.top { FetchRaw(s.below, txid, k); }
  }

  lemma {:induction false} RawClean(s: CoinsStack, txid: Uint256)
    requires Inv(s)
    ensures Raw(s, txid).Some? ==> Raw(s, txid).value.IsClean()
  {
    if s.Layer? {
      if txid in s.top { assert EntryOk(txid, s.top[txid], s.below); } else { RawClean(s.below, txid); }
    }
  }

  /** Reads change neither the view nor the invariant, at any depth. */
  lemma {:induction false} FetchKeeps(s: CoinsStack, txid: Uint256)
    requires Inv(s)
    ensures Inv(Fetch(s, txid)) && SameCoins(s, Fetch(s, txid))
  {
    forall k ensures CoinsAt(s, k) == CoinsAt(Fetch(s, txid), k) { FetchRaw(s, txid, k); }
    if s.Layer? && txid !in s.top {
      FetchKeeps(s.below, txid);
      RawClean(s.below, txid);
      forall k | k in s.top ensures EntryOk(k, s.top[k], Fetch(s.below, txid)) {
        assert EntryOk(k, s.top[k], s.below);
        FetchRaw(s.below, txid, k);
      }
      FetchRaw(s.below, txid, txid);
    }
  }

  /** HaveCoins looks only at vout.empty(); on a kept stack that is exact. */
  lemma HaveCoinsExact(s: CoinsStack, txid: Uint256)
    requires Inv(s)
    ensures (Raw(s, txid).Some? && Raw(s, txid).value.vout != []) <==> CoinsAt(s, txid).Some?
  {
    RawClean(s, txid);
  }

  /** ModifyCoins up to the point where the caller holds the modifier. */
  function Open(s: CoinsStack, txid: Uint256): (r: CoinsStack)
    requires s.Layer?
    ensures r.Layer? && txid in r.top
  {
    if txid in s.top then
      Layer(s.top[txid := s.top[txid].(isDirty := true)], s.below)
    else
      var entry := match Raw(s.below, txid)
        case None => CoinsEntry(CLEARED, true, true)
        case Some(c) => CoinsEntry(c, true, c.IsPruned());
      Layer(s.top[txid := entry], Fetch(s.below, txid))
  }

  /** ModifyNewCoins: the base is not consulted. */
  function OpenNew(s: CoinsStack, txid: Uint256): (r: CoinsStack)
    requires s.Layer?
    ensures r.Layer? && txid in r.top
  {
    Layer(s.top[txid := CoinsEntry(CLEARED, true, true)], s.below)
  }

  /** The caller writes c through the modifier, then the modifier is destroyed. */
  function Close(s: CoinsStack, txid: Uint256, c: Coins): (r: CoinsStack)
    requires s.Layer? && txid in s.top
    ensures r.Layer?
  {
    var e := s.top[txid].(coins := Cleanup(c));
    if e.isFresh && e.coins.IsPruned() then Layer(s.top - {txid}, s.below)
    else Layer(s.top[txid := e], s.below)
  }

  function Modify(s: CoinsStack, txid: Uint256, c: Coins): CoinsStack
    requires s.Layer?
  {
    Close(Open(s, txid), txid, c)
  }

  function ModifyNew(s: CoinsStack, txid: Uint256, c: Coins): CoinsStack
    requires s.Layer?
  {
    Close(OpenNew(s, txid), txid, c)
  }

  /** The modifier shows the caller exactly what the view held, or nothing unspent. */
  lemma OpenShows(s: CoinsStack, txid: Uint256)
    requires s.Layer?
    ensures Unpruned(Some(Open(s, txid).top[txid].coins)) == CoinsAt(s, txid)
  {
  }

  /** A modification changes the view at one txid and leaves every other view in the stack alone. */
  lemma ModifyKeeps(s: CoinsStack, txid: Uint256, c: Coins)
    requires s.Layer? && Inv(s)
    ensures var s' := Modify(s, txid, c);
      && Inv(s') && s'.Layer? && Inv(s'.below) && SameCoins(s.below, s'.below) && Depth(s') == Depth(s)
      && CoinsAt(s', txid) == Unpruned(Some(Cleanup(c)))
      && forall k :: k != txid ==> CoinsAt(s', k) == CoinsAt(s, k)
  {
    var s' := Modify(s, txid, c);
    FetchKeeps(s.below, txid);
    FetchRaw(s.below, txid, txid);
    assert CoinsAt(s.below, txid) == CoinsAt(s'.below, txid);
    if txid in s.top { assert EntryOk(txid, s.top[txid], s.below); }
    forall k | k in s'.top ensures EntryOk(k, s'.top[k], s'.below) {
      if k != txid {
        assert EntryOk(k, s.top[k], s.below);
        FetchRaw(s.below, txid, k);
      }
    }
    forall k | k != txid ensures CoinsAt(s', k) == CoinsAt(s, k) { FetchRaw(s.below, txid, k); }
  }

  lemma ModifyNewKeeps(s: CoinsStack, txid: Uint256, c: Coins)
    requires s.Layer? && Inv(s)
    requires CoinsAt(s.below, txid).None?
    ensures var s' := ModifyNew(s, txid, c);
      && Inv(s') && s'.Layer? && s'.below == s.below
      && CoinsAt(s', txid) == Unpruned(Some(Cleanup(c)))
      && forall k :: k != txid ==> CoinsAt(s', k) == CoinsAt(s, k)
  {
    var s' := ModifyNew(s, txid, c);
    forall k | k in s'.top ensures EntryOk(k, s'.top[k], s'.below) {
      if k != txid { assert EntryOk(k, s.top[k], s.below); }
    }
  }

  /** The assumption of ModifyNewCoins is exactly what keeps the invariant. */
  lemma ModifyNewExact(s: CoinsStack, txid: Uint256, c: Coins)
    requires s.Layer? && Inv(s) && !c.IsPruned()
    ensures Inv(ModifyNew(s, txid, c)) <==> CoinsAt(s.below, txid).None?
  {
    if CoinsAt(s.below, txid).None? {
      ModifyNewKeeps(s, txid, c);
    } else {
      assert !EntryOk(txid, ModifyNew(s, txid, c).top[txid], s.below);
    }
  }

  /**
   Without the assumption, coins made by ModifyNewCoins and then spent in the same cache come
   back from the base: spending works if and only if the base had nothing unspent.
   */
  lemma SpendAfterModifyNew(s: CoinsStack, txid: Uint256, c: Coins, spent: Coins)
    requires s.Layer? && Inv(s) && !c.IsPruned() && spent.IsPruned()
    ensures CoinsAt(Modify(ModifyNew(s, txid, c), txid, spent), txid) == CoinsAt(s.below, txid)
  {
    assert Cleanup(spent).IsPruned();
  }

  /** The cache-to-cache half of BatchWrite, entry by entry. */
  function MergeEntry(parent: CoinsMap, k: Uint256, e: CoinsEntry): CoinsMap {
    if !e.isDirty then parent
    else if k !in parent then
      if e.coins.IsPruned() then parent else parent[k := CoinsEntry(e.coins, true, true)]
    else if parent[k].isFresh && e.coins.IsPruned() then parent - {k}
    else parent[k := CoinsEntry(e.coins, true, parent[k].isFresh)]
  }

  predicate Survives(parent: CoinsMap, child: CoinsMap, k: Uint256) {
    if k in child && child[k].isDirty then
      if k in parent then !(parent[k].isFresh && child[k].coins.IsPruned()) else !child[k].coins.IsPruned()
    else k in parent
  }

  /** The parent after it took over every dirty entry of the child, in any order. */
  function Merge(parent: CoinsMap, child: CoinsMap): CoinsMap {
    map k | k in parent.Keys + child.Keys && Survives(parent, child, k) ::
      if k in child && child[k].isDirty then
        CoinsEntry(child[k].coins, true, if k in parent then parent[k].isFresh else true)
      else parent[k]
  }

  /** CCoinsViewDB::BatchWrite. */
  function WriteDb(db: CoinsDb, child: CoinsMap): CoinsDb {
    map k | k in db.Keys + child.Keys
            && (if k in child && child[k].isDirty then !child[k].coins.IsPruned() else k in db) ::
      if k in child && child[k].isDirty then child[k].coins else db[k]
  }

  function Flush(s: CoinsStack): (r: CoinsStack)
    requires s.Layer?
    ensures r.Layer? && Depth(r) == Depth(s)
  {
    match s.below
    case Base(db) => Layer(map[], Base(WriteDb(db, s.top)))
    case Layer(parent, below) => Layer(map[], Layer(Merge(parent, s.top), below))
  }

  /** The assertion inside BatchWrite: a dirty unspent entry unknown to the parent is FRESH. */
  ghost predicate MergeAsserts(parent: CoinsMap, child: CoinsMap) {
    forall k :: k in child && child[k].isDirty && k !in parent && !child[k].coins.IsPruned() ==> child[k].isFresh
  }

  lemma AssertNeverFires(s: CoinsStack)
    requires Inv(s) && s.Layer? && s.below.Layer?
    ensures MergeAsserts(s.below.top, s.top)
  {
    forall k | k in s.top && s.top[k].isDirty && k !in s.below.top && !s.top[k].coins.IsPruned()
      ensures s.top[k].isFresh
    {
      assert EntryOk(k, s.top[k], s.below);
    }
  }

  lemma MergeShows(s: CoinsStack, k: Uint256)
    requires s.Layer? && s.below.Layer? && Inv(s)
    ensures CoinsAt(Layer(Merge(s.below.top, s.top), s.below.below), k) == CoinsAt(s, k)
  {
    var b := s.below;
    if k in s.top { assert EntryOk(k, s.top[k], b); }
    if k in b.top { assert EntryOk(k, b.top[k], b.below); }
    assert k !in s.top ==> Raw(s, k) == Raw(b, k);
    assert k !in b.top ==> Raw(b, k) == Raw(b.below, k);
  }

  lemma WriteDbShows(s: CoinsStack, k: Uint256)
    requires s.Layer? && s.below.Base? && Inv(s)
    ensures CoinsAt(Base(WriteDb(s.below.db, s.top)), k) == CoinsAt(s, k)
  {
    if k in s.top { assert EntryOk(k, s.top[k], s.below); }
    assert k !in s.top ==> Raw(s, k) == Raw(s.below, k);
  }

  /** Flushing gives the parent the child's view and keeps the invariant of the whole stack. */
  lemma FlushKeeps(s: CoinsStack)
    requires s.Layer? && Inv(s)
    ensures Inv(Flush(s))
    ensures SameCoins(Flush(s), s) && SameCoins(Flush(s).below, s)
    ensures s.below.Layer? ==> Flush(s).below.Layer? && Flush(s).below.below == s.below.below
  {
    forall k ensures CoinsAt(Flush(s).below, k) == CoinsAt(s, k) {
      if s.below.Base? { WriteDbShows(s, k); } else { MergeShows(s, k); }
    }
    var b' := Flush(s).below;
    if s.below.Base? {
      forall k | k in b'.db ensures !b'.db[k].IsPruned() && b'.db[k].IsClean() {
        if k in s.top { assert EntryOk(k, s.top[k], s.below); }
      }
    } else {
      forall k | k in b'.top ensures EntryOk(k, b'.top[k], b'.below) {
        if k in s.top { assert EntryOk(k, s.top[k], s.below); }
        if k in s.below.top { assert EntryOk(k, s.below.top[k], s.below.below); }
      }
    }
  }

  /** Every view in the stack, from the top down, shows the map at the same place in fs. */
  ghost predicate Refines(s: CoinsStack, fs: seq<map<Uint256, Coins>>)
    decreases s
  {
    && fs != []
    && (forall k :: CoinsAt(s, k) == Lookup(fs[0], k))
    && (if s.Base? then |fs| == 1 else Refines(s.below, fs[1..]))
  }

  lemma {:induction false} FetchRefines(s: CoinsStack, txid: Uint256, fs: seq<map<Uint256, Coins>>)
    requires Inv(s) && Refines(s, fs)
    ensures Refines(Fetch(s, txid), fs)
    decreases s
  {
    FetchKeeps(s, txid);
    if s.Layer? && txid !in s.top { FetchRefines(s.below, txid, fs[1..]); }
  }

  /** Writing c for txid into a plain map of unspent coins. */
  function Write(f: map<Uint256, Coins>, txid: Uint256, c: Coins): map<Uint256, Coins> {
    if c.IsPruned() then f - {txid} else f[txid := Cleanup(c)]
  }

  lemma ModifyRefines(s: CoinsStack, txid: Uint256, c: Coins, fs: seq<map<Uint256, Coins>>)
    requires s.Layer? && Inv(s) && Refines(s, fs)
    ensures Refines(Modify(s, txid, c), fs[0 := Write(fs[0], txid, c)])
  {
    ModifyKeeps(s, txid, c);
    FetchRefines(s.below, txid, fs[1..]);
    assert fs[0 := Write(fs[0], txid, c)][1..] == fs[1..];
  }

  lemma ModifyNewRefines(s: CoinsStack, txid: Uint256, c: Coins, fs: seq<map<Uint256, Coins>>)
    requires s.Layer? && Inv(s) && Refines(s, fs)
    requires CoinsAt(s.below, txid).None?
    ensures Refines(ModifyNew(s, txid, c), fs[0 := Write(fs[0], txid, c)])
  {
    ModifyNewKeeps(s, txid, c);
    assert fs[0 := Write(fs[0], txid, c)][1..] == fs[1..];
  }

  lemma FlushRefines(s: CoinsStack, fs: seq<map<Uint256, Coins>>)
    requires s.Layer? && Inv(s) && Refines(s, fs)
    ensures |fs| > 1 && Refines(Flush(s), fs[1 := fs[0]])
  {
    FlushKeeps(s);
    var gs := fs[1 := fs[0]];
    assert gs[1..][1..] == fs[1..][1..];
    assert Refines(Flush(s).below, gs[1..]);
  }
}
