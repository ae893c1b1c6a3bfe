/**
 The cache objects themselves: a CCoinsViewCache has a base view, which is the data base or
 another cache, and every method is proved to do to the whole stack of views what the
 corresponding operation of CoinsWorld does.
 */
module CoinsViewCache {
  import opened Basics
  import opened CoinsTypes
  import C = CoinsStack
  import N = NullifierStack
  import A = AnchorStack
  import B = HashStack
  import H = HistoryStack
  import W = CoinsWorld

  datatype Backend = Database(db: CoinsViewDB) | Parent(cache: CoinsViewCache)

  /** What a child hands to BatchWrite. */
  datatype Batch = Batch(
    coins: C.CoinsMap,
    nullifiers: N.NullifierMap,
    anchors: A.AnchorMap,
    bestAnchor: PerPool<Uint256>,
    bestBlock: Uint256,
    history: H.HistoryMap)

  function Over(b: Batch, below: W.World): W.World {
    W.World(Layer(b.coins, below.coins), Layer(b.nullifiers, below.nullifiers), Layer(b.anchors, below.anchors),
            PerPool(Layer(b.bestAnchor.sprout, below.bestAnchor.sprout),
                    Layer(b.bestAnchor.sapling, below.bestAnchor.sapling),
                    Layer(b.bestAnchor.orchard, below.bestAnchor.orchard)),
            Layer(b.bestBlock, below.bestBlock), Layer(b.history, below.history))
  }

  function MergeBatch(p: Batch, b: Batch): Batch {
    Batch(C.Merge(p.coins, b.coins), N.Merge(p.nullifiers, b.nullifiers), A.Merge(p.anchors, b.anchors),
          b.bestAnchor, b.bestBlock, H.Merge(p.history, b.history))
  }

  /** A cache right after its entries went to the base; the hashes stay. */
  function Emptied(b: Batch): Batch {
    b.(coins := map[], nullifiers := map[], anchors := map[], history := map[])
  }

  lemma FlushOver(b: Batch, p: Batch, below: W.World)
    ensures W.DoFlush(Over(b, Over(p, below))) == Over(Emptied(b), Over(MergeBatch(p, b), below))
  {
  }

  /** A null hash is not written. */
  function WriteHash(h: Uint256, written: Uint256): Uint256 { if written != NULL_HASH then written else h }

  function WriteHashes(h: PerPool<Uint256>, written: PerPool<Uint256>): PerPool<Uint256> {
    PerPool(WriteHash(h.sprout, written.sprout), WriteHash(h.sapling, written.sapling),
      WriteHash(h.orchard, written.orchard))
  }

  function OnDisk(coins: C.CoinsDb, spent: set<Key>, anchors: A.AnchorDb, bestAnchor: PerPool<Uint256>,
                  bestBlock: Uint256, history: H.HistoryDb): W.World
  {
    W.World(Base(coins), Base(spent), Base(anchors),
            PerPool(Base(bestAnchor.sprout), Base(bestAnchor.sapling), Base(bestAnchor.orchard)),
            Base(bestBlock), Base(history))
  }

  lemma FlushBase(b: Batch, coins: C.CoinsDb, spent: set<Key>, anchors: A.AnchorDb, bestAnchor: PerPool<Uint256>,
                  bestBlock: Uint256, history: H.HistoryDb)
    ensures W.DoFlush(Over(b, OnDisk(coins, spent, anchors, bestAnchor, bestBlock, history)))
      == Over(Emptied(b), OnDisk(C.WriteDb(coins, b.coins), N.WriteDb(spent, b.nullifiers),
                                 A.WriteDb(anchors, b.anchors),
              WriteHashes(bestAnchor, b.bestAnchor), WriteHash(bestBlock, b.bestBlock), H.WriteDb(history, b.history)))
  {
  }

  // ----- The loops of BatchWrite -----

  /** The part of a map whose keys were already handled. */
  ghost function Handled<K, V>(m: map<K, V>, todo: set<K>): map<K, V> {
    m - todo
  }

  lemma CoinsMergeOne(parent: C.CoinsMap, child: C.CoinsMap, todo: set<Uint256>, k: Uint256)
    requires k in todo && k in child
    ensures C.Merge(parent, Handled(child, todo - {k}))
      == C.MergeEntry(C.Merge(parent, Handled(child, todo)), k, child[k])
  {
  }

  method BatchWriteCoins(child: C.CoinsMap, parent: C.CoinsMap) returns (merged: C.CoinsMap)
    requires C.MergeAsserts(parent, child)
    ensures merged == C.Merge(parent, child)
  {
    merged := parent;
    var todo := child.Keys;
    assert Handled(child, todo) == map[];
    while todo != {}
      invariant todo <= child.Keys
      invariant merged == C.Merge(parent, Handled(child, todo))
      decreases |todo|
    {
      var k :| k in todo;
      var e := child[k];
      CoinsMergeOne(parent, child, todo, k);
      if e.isDirty {
        if k !in merged {
          if !e.coins.IsPruned() {
            assert e.isFresh;
            merged := merged[k := C.CoinsEntry(e.coins, true, true)];
          }
        } else if merged[k].isFresh && e.coins.IsPruned() {
          merged := merged - {k};
        } else {
          merged := merged[k := merged[k].(coins := e.coins, isDirty := true)];
        }
      }
      todo := todo - {k};
    }
    assert Handled(child, {}) == child;
  }

  lemma NullifierMergeOne(parent: N.NullifierMap, child: N.NullifierMap, todo: set<Key>, k: Key)
    requires k in todo && k in child
    ensures var m, e := N.Merge(parent, Handled(child, todo)), child[k];
      N.Merge(parent, Handled(child, todo - {k})) ==
      if e.isDirty && (k in m ==> m[k].entered != e.entered) then m[k := N.NullifierEntry(e.entered, true)] else m
  {
  }

  method BatchWriteNullifiers(child: N.NullifierMap, parent: N.NullifierMap) returns (merged: N.NullifierMap)
    ensures merged == N.Merge(parent, child)
  {
    merged := parent;
    var todo := child.Keys;
    assert Handled(child, todo) == map[];
    while todo != {}
      invariant todo <= child.Keys
      invariant merged == N.Merge(parent, Handled(child, todo))
      decreases |todo|
    {
      var k :| k in todo;
      var e := child[k];
      NullifierMergeOne(parent, child, todo, k);
      if e.isDirty {
        if k !in merged {
          merged := merged[k := N.NullifierEntry(e.entered, true)];
        } else if merged[k].entered != e.entered {
          merged := merged[k := N.NullifierEntry(e.entered, true)];
        }
      }
      todo := todo - {k};
    }
    assert Handled(child, {}) == child;
  }

  lemma AnchorMergeOne(parent: A.AnchorMap, child: A.AnchorMap, todo: set<Key>, k: Key)
    requires k in todo && k in child
    ensures var m, e := A.Merge(parent, Handled(child, todo)), child[k];
      A.Merge(parent, Handled(child, todo - {k})) ==
      if e.isDirty && k !in m then m[k := A.AnchorEntry(e.entered, e.tree, true)]
      else if e.isDirty && m[k].entered != e.entered then m[k := A.AnchorEntry(e.entered, m[k].tree, true)]
      else m
  {
  }

  method BatchWriteAnchors(child: A.AnchorMap, parent: A.AnchorMap) returns (merged: A.AnchorMap)
    ensures merged == A.Merge(parent, child)
  {
    merged := parent;
    var todo := child.Keys;
    assert Handled(child, todo) == map[];
    while todo != {}
      invariant todo <= child.Keys
      invariant merged == A.Merge(parent, Handled(child, todo))
      decreases |todo|
    {
      var k :| k in todo;
      var e := child[k];
      AnchorMergeOne(parent, child, todo, k);
      if e.isDirty {
        if k !in merged {
          merged := merged[k := A.AnchorEntry(e.entered, e.tree, true)];
        } else if merged[k].entered != e.entered {
          merged := merged[k := merged[k].(entered := e.entered, isDirty := true)];
        }
      }
      todo := todo - {k};
    }
    assert Handled(child, {}) == child;
  }

  /** The child's history caches hold every node from updateDepth on. */
  ghost predicate Complete(m: H.HistoryMap) {
    forall e :: e in m ==>
      m[e].updateDepth <= m[e].length && forall i :: m[e].updateDepth <= i < m[e].length ==> i in m[e].appends
  }

  lemma ExtendOne(c: H.HistoryCache, nodes: seq<H.Node>, node: H.Node)
    ensures H.Extend(c, nodes + [node]) ==
      var d := H.Extend(c, nodes); d.(appends := d.appends[d.length := node], length := d.length + 1)
    decreases |nodes|
  {
    if nodes == [] {
      assert ([] + [node])[1..] == [];
    } else {
      assert (nodes + [node])[1..] == nodes[1..] + [node];
      ExtendOne(c.(appends := c.appends[c.length := nodes[0]], length := c.length + 1), nodes[1..], node);
    }
  }

  lemma ReplaySplit(c: H.HistoryCache, from: nat, i: nat, nodes: seq<H.Node>)
    requires from <= i <= c.length && forall j :: from <= j < c.length ==> j in c.appends
    requires |nodes| == i - from && forall j :: from <= j < i ==> nodes[j - from] == c.appends[j]
    ensures H.Replay(c, from) == nodes + H.Replay(c, i)
    decreases i - from
  {
    if from < i { ReplaySplit(c, from + 1, i, nodes[1..]); }
  }

  method ReplayHistory(p: H.HistoryCache, c: H.HistoryCache) returns (r: H.HistoryCache)
    requires c.updateDepth <= c.length && forall i :: c.updateDepth <= i < c.length ==> i in c.appends
    ensures r == H.MergeCache(p, c)
  {
    r := H.Truncate(p, c.updateDepth);
    ghost var done: seq<H.Node> := [];
    var i := c.updateDepth;
    while i < c.length
      invariant c.updateDepth <= i <= c.length
      invariant |done| == i - c.updateDepth && r.length == i
      invariant forall j :: c.updateDepth <= j < i ==> done[j - c.updateDepth] == c.appends[j]
      invariant r == H.Extend(H.Truncate(p, c.updateDepth), done)
    {
      ExtendOne(H.Truncate(p, c.updateDepth), done, c.appends[i]);
      r := r.(appends := r.appends[r.length := c.appends[i]], length := r.length + 1);
      done := done + [c.appends[i]];
      i := i + 1;
    }
    ReplaySplit(c, c.updateDepth, c.length, done);
    assert done + [] == done;
    assert r.length == c.length;
    r := r.(root := c.root);
  }

  lemma HistoryMergeOne(parent: H.HistoryMap, child: H.HistoryMap, todo: set<nat>, e: nat)
    requires e in todo && e in child
    ensures var m := H.Merge(parent, Handled(child, todo));
      && (e in m <==> e in parent) && (e in m ==> m[e] == parent[e])
      && H.Merge(parent, Handled(child, todo - {e})) ==
         m[e := if e in parent then H.MergeCache(parent[e], child[e]) else child[e]]
  {
  }

  method BatchWriteHistory(child: H.HistoryMap, parent: H.HistoryMap) returns (merged: H.HistoryMap)
    requires Complete(child)
    ensures merged == H.Merge(parent, child)
  {
    merged := parent;
    var todo := child.Keys;
    assert Handled(child, todo) == map[];
    while todo != {}
      invariant todo <= child.Keys
      invariant merged == H.Merge(parent, Handled(child, todo))
      decreases |todo|
    {
      var e :| e in todo;
      HistoryMergeOne(parent, child, todo, e);
      if e in merged {
        var c := ReplayHistory(merged[e], child[e]);
        merged := merged[e := c];
      } else {
        merged := merged[e := child[e]];
      }
      todo := todo - {e};
    }
    assert Handled(child, {}) == child;
  }

  // ----- The data base -----

  class CoinsViewDB {
    var coins: C.CoinsDb
    var spent: set<Key>
    var anchors: A.AnchorDb
    var bestAnchor: PerPool<Uint256>
    var bestBlock: Uint256
    var history: H.HistoryDb

    ghost function View(): W.World
      reads this
    {
      OnDisk(coins, spent, anchors, bestAnchor, bestBlock, history)
    }

    /** A missing best anchor reads as the root of the empty tree, which is never null. */
    constructor (emptyRoot: PerPool<Uint256>)
      ensures View() == W.NewWorld(emptyRoot)
    {
      coins, spent, anchors := map[], {}, A.AnchorDb(map[], emptyRoot);
      bestAnchor, bestBlock, history := emptyRoot, NULL_HASH, map[];
    }

    method BatchWrite(b: Batch)
      modifies this
      ensures Over(Emptied(b), View()) == W.DoFlush(Over(b, old(View())))
    {
      FlushBase(b, coins, spent, anchors, bestAnchor, bestBlock, history);
      coins := C.WriteDb(coins, b.coins);
      spent := N.WriteDb(spent, b.nullifiers);
      anchors := A.WriteDb(anchors, b.anchors);
      history := H.WriteDb(history, b.history);
      bestBlock := WriteHash(bestBlock, b.bestBlock);
      bestAnchor := WriteHashes(bestAnchor, b.bestAnchor);
    }
  }

  // ----- The cache -----

  class CoinsViewCache {
    const base: Backend
    ghost const repr: set<object>
    ghost const height: nat

    var hasModifier: bool
    var cacheCoins: C.CoinsMap
    var cacheNullifiers: N.NullifierMap
    var cacheAnchors: A.AnchorMap
    var hashAnchor: PerPool<Uint256>
    var hashBlock: Uint256
    var historyCacheMap: H.HistoryMap

    /** The chain of views below this one is finite and made of distinct objects. */
    ghost predicate Shape()
      decreases height
    {
      this in repr &&
      match base
      case Database(db) => repr == {this, db}
      case Parent(c) => c.height < height && repr == {this} + c.repr && this !in c.repr && c.Shape()
    }

    ghost function Below(): W.World
      requires Shape()
      reads repr - {this}
    {
      match base case Database(db) => db.View() case Parent(c) => c.View()
    }

    /** The whole stack of views, this one on top. */
    ghost function View(): W.World
      requires Shape()
      reads repr
      decreases height
    {
      Over(Content(), match base case Database(db) => db.View() case Parent(c) => c.View())
    }

    function Content(): Batch
      reads this
    {
      Batch(cacheCoins, cacheNullifiers, cacheAnchors, hashAnchor, hashBlock, historyCacheMap)
    }

    constructor (base: Backend)
      requires base.Parent? ==> base.cache.Shape()
      ensures Shape() && !hasModifier && this.base == base
      ensures View() == W.Cover(old(if base.Parent? then base.cache.View() else base.db.View()))
    {
      this.base := base;
      this.repr := {this} + if base.Parent? then base.cache.repr else {base.db};
      this.height := if base.Parent? then base.cache.height + 1 else 0;
      hasModifier := false;
      cacheCoins, cacheNullifiers, cacheAnchors := map[], map[], map[];
      hashAnchor, hashBlock := PerPool(NULL_HASH, NULL_HASH, NULL_HASH), NULL_HASH;
      historyCacheMap := map[];
    }

    // ----- Coins -----

    /* The calls on the base view, wherever it lies. */

    method BaseGetCoins(txid: Uint256) returns (r: Option<Coins>)
      requires Shape()
      modifies repr - {this}
      ensures Below() == old(Below()).(coins := C.Fetch(old(Below()).coins, txid))
      ensures r == C.Raw(old(Below()).coins, txid)
      decreases height, 0
    {
      match base {
        case Database(db) => r := Lookup(db.coins, txid);
        case Parent(c) => r := c.GetCoins(txid);
      }
    }

    method BaseGetNullifier(k: Key) returns (spent: bool)
      requires Shape()
      modifies repr - {this}
      ensures Below() == old(Below()).(nullifiers := N.Fetch(old(Below()).nullifiers, k))
      ensures spent == N.Spent(old(Below()).nullifiers, k)
      decreases height, 0
    {
      match base {
        case Database(db) => spent := k in db.spent;
        case Parent(c) => spent := c.GetNullifier(k);
      }
    }

    method BaseGetBestBlock() returns (h: Uint256)
      requires Shape()
      modifies repr - {this}
      ensures Below() == old(Below()).(bestBlock := B.Fetch(old(Below()).bestBlock))
      ensures h == B.Best(old(Below()).bestBlock)
      decreases height, 0
    {
      match base {
        case Database(db) => h := db.bestBlock;
        case Parent(c) => h := c.GetBestBlock();
      }
    }

    method BaseGetBestAnchor(p: Pool) returns (h: Uint256)
      requires Shape()
      modifies repr - {this}
      ensures Below() == W.FetchBestAnchor(old(Below()), p)
      ensures h == B.Best(old(Below()).bestAnchor.Get(p))
      decreases height, 0
    {
      match base {
        case Database(db) => h := db.bestAnchor.Get(p);
        case Parent(c) => h := c.GetBestAnchor(p);
      }
    }

    method BaseGetAnchorAt(k: Key) returns (r: Option<A.Tree>)
      requires Shape()
      modifies repr - {this}
      ensures Below() == old(Below()).(anchors := A.Fetch(old(Below()).anchors, k))
      ensures r == A.AnchorAt(old(Below()).anchors, k)
      decreases height, 0
    {
      match base {
        case Database(db) => r := if db.anchors.IsEmptyRoot(k) then Some(A.EMPTY_TREE) else Lookup(db.anchors.trees, k);
        case Parent(c) => r := c.GetAnchorAt(k);
      }
    }

    method BaseGetHistory(e: nat) returns (length: nat, root: Uint256)
      requires Shape() && H.Inv(Below().history)
      modifies repr - {this}
      ensures Below() == old(Below()).(history := H.Fetch(old(Below()).history, e))
      ensures length == |H.HistoryOf(old(Below()).history, e).nodes|
      ensures root == H.HistoryOf(old(Below()).history, e).root
      decreases height, 0
    {
      match base {
        case Database(db) =>
          var h := H.Recorded(db.history, e);
          length, root := |h.nodes|, h.root;
        case Parent(c) =>
          H.FetchSame(c.View().history, e);
          c.SelectHistoryCache(e);
          length, root := c.historyCacheMap[e].length, c.historyCacheMap[e].root;
      }
    }

    method BaseGetHistoryAt(e: nat, i: nat) returns (r: Option<H.Node>)
      requires Shape() && H.Inv(Below().history)
      modifies repr - {this}
      ensures Below() == old(Below()).(history := H.Read(old(Below()).history, e, i))
      ensures r == H.NodeAt(old(Below()).history, e, i)
      decreases height, 0
    {
      match base {
        case Database(db) =>
          var nodes := H.Recorded(db.history, e).nodes;
          r := if i < |nodes| then Some(nodes[i]) else None;
        case Parent(c) => r := c.GetHistoryAt(e, i);
      }
    }

    /** FetchCoins and GetCoins. */
    method GetCoins(txid: Uint256) returns (r: Option<Coins>)
      requires Shape()
      modifies repr
      ensures hasModifier == old(hasModifier)
      ensures View() == W.Apply(old(View()), W.GetCoins(txid))
      ensures r == C.Raw(old(View()).coins, txid)
      decreases height, 1
    {
      if txid in cacheCoins {
        return Some(cacheCoins[txid].coins);
      }
      assert View() == Over(Content(), Below());
      r := BaseGetCoins(txid);
      assert View() == Over(Content(), Below());
      if r.Some? {
        cacheCoins := cacheCoins[txid := C.CoinsEntry(r.value, false, r.value.IsPruned())];
      }
      assert View() == Over(Content(), Below());
    }

    method HaveCoins(txid: Uint256) returns (have: bool)
      requires Shape() && C.Inv(View().coins)
      modifies repr
      ensures View() == W.Apply(old(View()), W.GetCoins(txid))
      ensures have <==> C.CoinsAt(old(View()).coins, txid).Some?
    {
      C.HaveCoinsExact(View().coins, txid);
      var r := GetCoins(txid);
      have := r.Some? && r.value.vout != [];
    }

    /** Opens a modifier; the caller sees the coins of the view, or nothing unspent. */
    method ModifyCoins(txid: Uint256) returns (coins: Coins)
      requires Shape() && !hasModifier
      modifies repr
      ensures hasModifier && txid in cacheCoins
      ensures View() == old(View()).(coins := C.Open(old(View()).coins, txid))
      ensures C.Unpruned(Some(coins)) == C.CoinsAt(old(View()).coins, txid)
    {
      assert View() == Over(Content(), Below());
      if txid !in cacheCoins {
        var r := BaseGetCoins(txid);
        if r.None? {
          cacheCoins := cacheCoins[txid := C.CoinsEntry(CLEARED, false, true)];
        } else {
          cacheCoins := cacheCoins[txid := C.CoinsEntry(r.value, false, r.value.IsPruned())];
        }
      }
      cacheCoins := cacheCoins[txid := cacheCoins[txid].(isDirty := true)];
      hasModifier := true;
      coins := cacheCoins[txid].coins;
      assert cacheCoins == old(cacheCoins)[txid := cacheCoins[txid]];
      assert C.Open(old(View()).coins, txid) == Layer(cacheCoins, Below().coins);
      assert View() == Over(Content(), Below());
    }

    method ModifyNewCoins(txid: Uint256)
      requires Shape() && !hasModifier
      modifies this
      ensures hasModifier && txid in cacheCoins
      ensures View() == old(View()).(coins := C.OpenNew(old(View()).coins, txid))
    {
      cacheCoins := cacheCoins[txid := C.CoinsEntry(CLEARED, true, true)];
      hasModifier := true;
    }

    /** The caller's coins are written through the modifier, which then goes out of scope. */
    method FinishModify(txid: Uint256, coins: Coins)
      requires Shape() && hasModifier && txid in cacheCoins
      modifies this
      ensures !hasModifier
      ensures View() == old(View()).(coins := C.Close(old(View()).coins, txid, coins))
    {
      hasModifier := false;
      var e := cacheCoins[txid].(coins := Cleanup(coins));
      if e.isFresh && e.coins.IsPruned() {
        cacheCoins := cacheCoins - {txid};
      } else {
        cacheCoins := cacheCoins[txid := e];
      }
    }

    // ----- Nullifiers -----

    method GetNullifier(k: Key) returns (spent: bool)
      requires Shape()
      modifies repr
      ensures View() == W.Apply(old(View()), W.GetNullifier(k))
      ensures spent == N.Spent(old(View()).nullifiers, k)
      decreases height, 1
    {
      if k in cacheNullifiers {
        return cacheNullifiers[k].entered;
      }
      assert View() == Over(Content(), Below());
      spent := BaseGetNullifier(k);
      cacheNullifiers := cacheNullifiers[k := N.NullifierEntry(spent, false)];
      assert View() == Over(Content(), Below());
    }

    /** One pool's part of SetNullifiers. */
    method MarkPool(p: Pool, hashes: seq<Uint256>, spent: bool)
      requires Shape()
      modifies this`cacheNullifiers
      ensures View() == old(View()).(nullifiers := N.MarkAll(old(View()).nullifiers, N.OfPool(p, hashes), spent))
    {
      ghost var ks := N.OfPool(p, hashes);
      for i := 0 to |hashes|
        invariant View() == old(View()).(nullifiers := N.MarkAll(old(View()).nullifiers, ks[..i], spent))
      {
        assert View() == Over(Content(), Below());
        cacheNullifiers := cacheNullifiers[(p, hashes[i]) := N.NullifierEntry(spent, true)];
        assert View() == Over(Content(), Below());
        assert ks[..i + 1][..i] == ks[..i];
      }
      assert ks[..|hashes|] == ks;
    }

    method SetNullifiers(tx: N.Spends, spent: bool)
      requires Shape()
      modifies this`cacheNullifiers
      ensures View() == old(View()).(nullifiers := N.MarkAll(old(View()).nullifiers, N.AllSpends(tx), spent))
    {
      ghost var s, js := View().nullifiers, tx.joinSplits;
      for i := 0 to |tx.joinSplits|
        invariant View() == old(View()).(nullifiers := N.MarkAll(s, N.OfJoinSplits(js[..i]), spent))
      {
        MarkPool(Sprout, tx.joinSplits[i], spent);
        assert js[..i + 1][..i] == js[..i];
        N.MarkBoth(s, N.OfJoinSplits(js[..i]), N.OfPool(Sprout, js[i]), spent);
      }
      assert js[..|js|] == js;
      MarkPool(Sapling, tx.sapling, spent);
      MarkPool(Orchard, tx.orchard, spent);
      ghost var a := N.OfJoinSplits(js);
      N.MarkBoth(s, a, N.OfPool(Sapling, tx.sapling), spent);
      N.MarkBoth(s, a + N.OfPool(Sapling, tx.sapling), N.OfPool(Orchard, tx.orchard), spent);
    }

    // ----- Best block and anchors -----

    method GetBestBlock() returns (h: Uint256)
      requires Shape()
      modifies repr
      ensures View() == W.Apply(old(View()), W.GetBestBlock)
      ensures h == B.Best(old(View()).bestBlock)
      decreases height, 1
    {
      if hashBlock == NULL_HASH {
        assert View() == Over(Content(), Below());
        hashBlock := BaseGetBestBlock();
        assert View() == Over(Content(), Below());
      }
      h := hashBlock;
    }

    method SetBestBlock(h: Uint256)
      requires Shape()
      modifies this
      ensures View() == W.Apply(old(View()), W.SetBestBlock(h))
    {
      hashBlock := h;
    }

    method GetBestAnchor(p: Pool) returns (h: Uint256)
      requires Shape()
      modifies repr
      ensures View() == W.Apply(old(View()), W.GetBestAnchor(p))
      ensures h == B.Best(old(View()).bestAnchor.Get(p)) && hashAnchor.Get(p) == h
      decreases height, 1
    {
      if hashAnchor.Get(p) == NULL_HASH {
        assert View() == Over(Content(), Below());
        var g := BaseGetBestAnchor(p);
        hashAnchor := hashAnchor.Set(p, g);
        assert View() == Over(Content(), Below());
      }
      h := hashAnchor.Get(p);
    }

    method GetAnchorAt(k: Key) returns (r: Option<A.Tree>)
      requires Shape()
      modifies repr
      ensures View() == W.Apply(old(View()), W.GetAnchor(k))
      ensures hashAnchor == old(hashAnchor)
      ensures r == A.AnchorAt(old(View()).anchors, k)
      decreases height, 1
    {
      if k in cacheAnchors {
        return if cacheAnchors[k].entered then Some(cacheAnchors[k].tree) else None;
      }
      assert View() == Over(Content(), Below());
      r := BaseGetAnchorAt(k);
      if r.Some? {
        cacheAnchors := cacheAnchors[k := A.AnchorEntry(true, r.value, false)];
      }
      assert View() == Over(Content(), Below());
    }

    method PushAnchor(p: Pool, root: Uint256, tree: A.Tree)
      requires Shape()
      modifies repr
      ensures View() == W.Apply(old(View()), W.PushAnchor(p, root, tree))
    {
      var currentRoot := GetBestAnchor(p);
      if currentRoot != root {
        cacheAnchors := cacheAnchors[(p, root) := A.AnchorEntry(true, tree, true)];
        hashAnchor := hashAnchor.Set(p, root);
      }
    }

    /** Brings a known anchor into this cache and marks it as removed. */
    method Unenter(k: Key)
      requires Shape() && A.AnchorAt(View().anchors, k).Some?
      modifies repr
      ensures hashAnchor == old(hashAnchor)
      ensures k in A.Fetch(old(View()).anchors, k).top
      ensures View() == old(View()).(anchors := A.Remove(A.Fetch(old(View()).anchors, k), k))
    {
      A.FetchAt(View().anchors, k, k);
      var found := GetAnchorAt(k);
      assert found.Some?;
      assert View() == Over(Content(), Below());
      cacheAnchors := cacheAnchors[k := cacheAnchors[k].(entered := false, isDirty := true)];
      assert View() == Over(Content(), Below());
    }

    /** Orchard anchors cannot be popped: the source throws, and nothing changes. */
    method PopAnchor(p: Pool, root: Uint256) returns (ok: bool)
      requires Shape()
      requires p == Orchard || B.Best(View().bestAnchor.Get(p)) == root
        || A.AnchorAt(View().anchors, (p, B.Best(View().bestAnchor.Get(p)))).Some?
      modifies repr
      ensures ok <==> p != Orchard
      ensures View() == if ok then W.DoPopAnchor(old(View()), p, root) else old(View())
    {
      if p == Orchard {
        return false;
      }
      var currentRoot := GetBestAnchor(p);
      if currentRoot != root {
        Unenter((p, currentRoot));
        hashAnchor := hashAnchor.Set(p, root);
      }
      ok := true;
    }

    // ----- History -----

    method SelectHistoryCache(e: nat)
      requires Shape() && H.Inv(View().history)
      modifies repr
      ensures View() == W.Apply(old(View()), W.GetHistory(e))
      ensures e in historyCacheMap
      decreases height, 1
    {
      if e !in historyCacheMap {
        assert View() == Over(Content(), Below());
        var length, root := BaseGetHistory(e);
        historyCacheMap := historyCacheMap[e := H.HistoryCache(map[], length, length, root)];
        assert View() == Over(Content(), Below());
      }
    }

    /** A node of the history tree; the source throws when the index is beyond its length. */
    method GetHistoryAt(e: nat, i: nat) returns (r: Option<H.Node>)
      requires Shape() && H.Inv(View().history)
      modifies repr
      ensures View() == old(View()).(history := H.Read(old(View()).history, e, i))
      ensures r == H.NodeAt(old(View()).history, e, i)
      decreases height, 2
    {
      H.ReadFinds(View().history, e, i);
      SelectHistoryCache(e);
      assert View() == Over(Content(), Below());
      var c := historyCacheMap[e];
      if i >= c.length {
        r := None;
      } else if i >= c.updateDepth {
        r := Some(c.appends[i]);
      } else {
        r := BaseGetHistoryAt(e, i);
        assert View() == Over(Content(), Below());
      }
    }

    /** PushHistoryNode, given the nodes and the root the tree library computed. */
    method PushHistory(e: nat, nodes: seq<H.Node>, root: Uint256)
      requires Shape() && H.Inv(View().history)
      modifies repr
      ensures View() == W.Apply(old(View()), W.PushHistory(e, nodes, root))
    {
      SelectHistoryCache(e);
      historyCacheMap := historyCacheMap[e := H.Extend(historyCacheMap[e], nodes).(root := root)];
    }

    /** PopHistoryNode, given the new length and root. */
    method PopHistory(e: nat, length: nat, root: Uint256)
      requires Shape() && H.Inv(View().history)
      modifies repr
      ensures View() == W.Apply(old(View()), W.PopHistory(e, length, root))
    {
      SelectHistoryCache(e);
      historyCacheMap := historyCacheMap[e := H.Truncate(historyCacheMap[e], length).(root := root)];
    }

    // ----- Writing back -----

    method BatchWrite(b: Batch)
      requires Shape() && !hasModifier
      requires C.MergeAsserts(cacheCoins, b.coins) && Complete(b.history)
      modifies this
      ensures Content() == MergeBatch(old(Content()), b)
      ensures Below() == old(Below()) && !hasModifier
    {
      var coins := BatchWriteCoins(b.coins, cacheCoins);
      var anchors := BatchWriteAnchors(b.anchors, cacheAnchors);
      var nullifiers := BatchWriteNullifiers(b.nullifiers, cacheNullifiers);
      var history := BatchWriteHistory(b.history, historyCacheMap);
      cacheCoins, cacheAnchors, cacheNullifiers, historyCacheMap := coins, anchors, nullifiers, history;
      hashAnchor, hashBlock := b.bestAnchor, b.bestBlock;
    }

    /** Flush: by FlushStep of CoinsWorld the parent then shows what this cache showed. */
    method Flush()
      requires Shape() && C.Inv(View().coins) && H.Inv(View().history)
      requires base.Parent? ==> !base.cache.hasModifier
      modifies repr
      ensures View() == W.DoFlush(old(View()))
    {
      ghost var flushed := Emptied(Content());
      match base {
        case Database(db) => db.BatchWrite(Content());
        case Parent(c) =>
          assert View() == Over(Content(), c.View()) && c.View() == Over(c.Content(), c.Below());
          C.AssertNeverFires(View().coins);
          FlushOver(Content(), c.Content(), c.Below());
          c.BatchWrite(Content());
          assert c.View() == Over(c.Content(), c.Below());
      }
      assert Over(flushed, Below()) == W.DoFlush(old(View()));
      cacheCoins, cacheAnchors, cacheNullifiers, historyCacheMap := map[], map[], map[], map[];
      assert Content() == flushed && View() == Over(Content(), Below());
    }
  }
}
