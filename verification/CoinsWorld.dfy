/**
 A whole stack of CCoinsViewCache objects, proved to behave like a stack of plain snapshots.

 The reference holds, for each kind of data, one plain value for each cache and one for the
 data base, top first: a new cache copies the top snapshot, an operation changes only the top
 one, a flush overwrites the second with the top, and dropping a cache drops the top.
 */
module CoinsWorld {
  import opened Basics
  import opened CoinsTypes
  import C = CoinsStack
  import N = NullifierStack
  import A = AnchorStack
  import B = HashStack
  import H = HistoryStack

  datatype World = World(
    coins: C.CoinsStack,
    nullifiers: N.NullifierStack,
    anchors: A.AnchorStack,
    bestAnchor: PerPool<B.HashStack>,
    bestBlock: B.HashStack,
    history: H.HistoryStack)

  datatype Op =
    | GetCoins(txid: Uint256)
    | ModifyCoins(txid: Uint256, coins: Coins)
    | ModifyNewCoins(txid: Uint256, coins: Coins)
    | GetNullifier(key: Key)
    | SetNullifier(key: Key, spent: bool)
    | GetAnchor(key: Key)
    | PushAnchor(pool: Pool, root: Uint256, tree: A.Tree)
    | PopAnchor(pool: Pool, root: Uint256)
    | GetBestAnchor(pool: Pool)
    | GetBestBlock
    | SetBestBlock(root: Uint256)
    | GetHistory(epoch: nat)
    | GetHistoryAt(epoch: nat, index: nat)
    | PushHistory(epoch: nat, nodes: seq<H.Node>, root: Uint256)
    | PopHistory(epoch: nat, length: nat, root: Uint256)
    | NewCache
    | Flush
    | Discard

  predicate Aligned(w: World) {
    && Depth(w.nullifiers) == Depth(w.coins)
    && Depth(w.anchors) == Depth(w.coins)
    && (forall p :: Depth(w.bestAnchor.Get(p)) == Depth(w.coins))
    && Depth(w.bestBlock) == Depth(w.coins)
    && Depth(w.history) == Depth(w.coins)
  }

  /** The view on top of the stack is a cache, not the data base. */
  predicate HasCache(w: World) {
    && w.coins.Layer? && w.nullifiers.Layer? && w.anchors.Layer?
    && (forall p :: w.bestAnchor.Get(p).Layer?)
    && w.bestBlock.Layer? && w.history.Layer?
  }

  ghost predicate Inv(w: World, t: A.Trees) {
    && Aligned(w)
    && C.Inv(w.coins) && N.Inv(w.nullifiers) && A.Inv(w.anchors, t) && H.Inv(w.history)
  }

  // ----- The operations -----

  function Map3<X, Y>(m: PerPool<X>, f: X -> Y): (r: PerPool<Y>)
    ensures forall p :: r.Get(p) == f(m.Get(p))
  {
    PerPool(f(m.sprout), f(m.sapling), f(m.orchard))
  }

  function FlushHash(s: B.HashStack): B.HashStack { if s.Layer? then B.Flush(s) else s }

  function DropHash(s: B.HashStack): B.HashStack { if s.Layer? then s.below else s }

  function CoverHash(s: B.HashStack): B.HashStack { Layer(NULL_HASH, s) }

  function FetchBestAnchor(w: World, p: Pool): World {
    w.(bestAnchor := w.bestAnchor.Set(p, B.Fetch(w.bestAnchor.Get(p))))
  }

  function DoPushAnchor(w: World, p: Pool, root: Uint256, tree: A.Tree): World
    requires HasCache(w)
  {
    if B.Best(w.bestAnchor.Get(p)) == root then FetchBestAnchor(w, p)
    else w.(anchors := A.Enter(w.anchors, (p, root), tree),
            bestAnchor := w.bestAnchor.Set(p, B.Set(B.Fetch(w.bestAnchor.Get(p)), root)))
  }

  function DoPopAnchor(w: World, p: Pool, root: Uint256): World
    requires HasCache(w)
  {
    var best := B.Best(w.bestAnchor.Get(p));
    var found := A.Fetch(w.anchors, (p, best));
    if best == root then FetchBestAnchor(w, p)
    else if (p, best) !in found.top then w     // the assertion in BringBestAnchorIntoCache fails
    else w.(anchors := A.Remove(found, (p, best)),
            bestAnchor := w.bestAnchor.Set(p, B.Set(B.Fetch(w.bestAnchor.Get(p)), root)))
  }

  function DoFlush(w: World): World
    requires HasCache(w)
  {
    World(C.Flush(w.coins), N.Flush(w.nullifiers), A.Flush(w.anchors),
          Map3(w.bestAnchor, FlushHash), B.Flush(w.bestBlock), H.Flush(w.history))
  }

  function Below(w: World): World
    requires HasCache(w)
  {
    World(w.coins.below, w.nullifiers.below, w.anchors.below,
          Map3(w.bestAnchor, DropHash), w.bestBlock.below, w.history.below)
  }

  function Cover(w: World): World {
    World(Layer(map[], w.coins), Layer(map[], w.nullifiers), Layer(map[], w.anchors),
          Map3(w.bestAnchor, CoverHash), Layer(NULL_HASH, w.bestBlock), Layer(map[], w.history))
  }

  function Apply(w: World, op: Op): World
    requires op.NewCache? || HasCache(w)
  {
    match op
    case GetCoins(txid) => w.(coins := C.Fetch(w.coins, txid))
    case ModifyCoins(txid, c) => w.(coins := C.Modify(w.coins, txid, c))
    case ModifyNewCoins(txid, c) => w.(coins := C.ModifyNew(w.coins, txid, c))
    case GetNullifier(k) => w.(nullifiers := N.Fetch(w.nullifiers, k))
    case SetNullifier(k, spent) => w.(nullifiers := N.Mark(w.nullifiers, k, spent))
    case GetAnchor(k) => w.(anchors := A.Fetch(w.anchors, k))
    case PushAnchor(p, root, tree) => DoPushAnchor(w, p, root, tree)
    case PopAnchor(p, root) => DoPopAnchor(w, p, root)
    case GetBestAnchor(p) => FetchBestAnchor(w, p)
    case GetBestBlock => w.(bestBlock := B.Fetch(w.bestBlock))
    case SetBestBlock(h) => w.(bestBlock := B.Set(w.bestBlock, h))
    case GetHistory(e) => w.(history := H.Fetch(w.history, e))
    case GetHistoryAt(e, i) => w.(history := H.Read(w.history, e, i))
    case PushHistory(e, nodes, root) => w.(history := H.Push(w.history, e, nodes, root))
    case PopHistory(e, n, root) => w.(history := H.Pop(w.history, e, n, root))
    case NewCache => Cover(w)
    case Flush => DoFlush(w)
    case Discard => Below(w)
  }

  /** What the source leaves to its callers. */
  ghost predicate Enabled(w: World, op: Op, t: A.Trees) {
    (op.NewCache? || HasCache(w)) &&
    match op
    case ModifyNewCoins(txid, _) => C.CoinsAt(w.coins.below, txid).None?
    case PushAnchor(p, root, tree) => root != NULL_HASH && tree == t((p, root))
    case PopAnchor(p, root) =>
      && root != NULL_HASH && p != Orchard
      && A.AnchorAt(w.anchors, (p, root)).Some?
      && (root == B.Best(w.bestAnchor.Get(p)) || !A.Bottom(w.anchors).IsEmptyRoot((p, B.Best(w.bestAnchor.Get(p)))))
    case SetBestBlock(h) => h != NULL_HASH
    case PopHistory(e, n, _) => n <= |H.HistoryOf(w.history, e).nodes|
    case Flush => B.FlushOk(w.bestBlock) && forall p :: B.FlushOk(w.bestAnchor.Get(p))
    case _ => true
  }

  /** The assertions met on the way. */
  ghost predicate AssertsHold(w: World, op: Op)
    requires op.NewCache? || HasCache(w)
  {
    match op
    case PopAnchor(p, _) => A.AnchorAt(w.anchors, (p, B.Best(w.bestAnchor.Get(p)))).Some?
    case Flush =>
      && (w.coins.below.Layer? ==> C.MergeAsserts(w.coins.below.top, w.coins.top))
      && (w.history.below.Layer? ==> H.MergeAsserts(w.history.below.top, w.history.top))
    case _ => true
  }

  // ----- The reference: stacks of plain snapshots -----

  datatype Snapshots = Snapshots(
    coins: seq<map<Uint256, Coins>>,
    spent: seq<set<Key>>,
    anchors: seq<map<Key, A.Tree>>,
    bestAnchor: PerPool<seq<Uint256>>,
    bestBlock: seq<Uint256>,
    history: seq<H.HistoryDb>)

  function Copied<T>(s: seq<T>): seq<T> { if s == [] then s else [s[0]] + s }

  function Dropped<T>(s: seq<T>): seq<T> { if s == [] then s else s[1..] }

  function Flushed<T>(s: seq<T>): seq<T> { if |s| < 2 then s else s[1 := s[0]] }

  predicate Nonempty(f: Snapshots) {
    && f.coins != [] && f.spent != [] && f.anchors != []
    && (forall p :: f.bestAnchor.Get(p) != [])
    && f.bestBlock != [] && f.history != []
  }

  function SpecApply(f: Snapshots, op: Op): Snapshots
    requires Nonempty(f)
  {
    match op
    case ModifyCoins(txid, c) => f.(coins := f.coins[0 := C.Write(f.coins[0], txid, c)])
    case ModifyNewCoins(txid, c) => f.(coins := f.coins[0 := C.Write(f.coins[0], txid, c)])
    case SetNullifier(k, spent) =>
      f.(spent := f.spent[0 := if spent then f.spent[0] + {k} else f.spent[0] - {k}])
    case PushAnchor(p, root, tree) =>
      var bs := f.bestAnchor.Get(p);
      if bs[0] == root then f
      else f.(anchors := f.anchors[0 := f.anchors[0][(p, root) := tree]],
              bestAnchor := f.bestAnchor.Set(p, bs[0 := root]))
    case PopAnchor(p, root) =>
      var bs := f.bestAnchor.Get(p);
      if bs[0] == root then f
      else f.(anchors := f.anchors[0 := f.anchors[0] - {(p, bs[0])}],
              bestAnchor := f.bestAnchor.Set(p, bs[0 := root]))
    case SetBestBlock(h) => f.(bestBlock := f.bestBlock[0 := h])
    case PushHistory(e, nodes, root) =>
      var grown := H.Recorded(f.history[0], e).nodes + nodes;
      f.(history := f.history[0 := H.Record(f.history[0], e, H.History(grown, root))])
    case PopHistory(e, n, root) =>
      var nodes := H.Recorded(f.history[0], e).nodes;
      var cut := if n <= |nodes| then nodes[..n] else nodes;
      f.(history := f.history[0 := H.Record(f.history[0], e, H.History(cut, root))])
    case NewCache =>
      Snapshots(Copied(f.coins), Copied(f.spent), Copied(f.anchors),
                Map3(f.bestAnchor, bs => Copied(bs)), Copied(f.bestBlock), Copied(f.history))
    case Flush =>
      Snapshots(Flushed(f.coins), Flushed(f.spent), Flushed(f.anchors),
                Map3(f.bestAnchor, bs => Flushed(bs)), Flushed(f.bestBlock), Flushed(f.history))
    case Discard =>
      Snapshots(Dropped(f.coins), Dropped(f.spent), Dropped(f.anchors),
                Map3(f.bestAnchor, bs => Dropped(bs)), Dropped(f.bestBlock), Dropped(f.history))
    case _ => f
  }

  /** Every view of the stack shows exactly its snapshot. */
  ghost predicate Refines(w: World, f: Snapshots) {
    && C.Refines(w.coins, f.coins)
    && N.Refines(w.nullifiers, f.spent)
    && A.Refines(w.anchors, f.anchors)
    && (forall p :: B.Refines(w.bestAnchor.Get(p), f.bestAnchor.Get(p)))
    && B.Refines(w.bestBlock, f.bestBlock)
    && H.Refines(w.history, f.history)
  }

  /** The best anchor of every pool is an anchor, in every view. */
  predicate BestAnchorsKnown(f: Snapshots) {
    forall p :: |f.bestAnchor.Get(p)| == |f.anchors|
      && forall i :: 0 <= i < |f.anchors| ==> (p, f.bestAnchor.Get(p)[i]) in f.anchors[i]
  }

  // ----- Proofs -----

  lemma CoinsStep(w: World, op: Op, t: A.Trees, f: Snapshots)
    requires Inv(w, t) && Enabled(w, op, t) && Refines(w, f)
    requires op.GetCoins? || op.ModifyCoins? || op.ModifyNewCoins?
    ensures Inv(Apply(w, op), t) && Refines(Apply(w, op), SpecApply(f, op))
  {
    match op {
      case GetCoins(txid) =>
        C.FetchKeeps(w.coins, txid);
        C.FetchRaw(w.coins, txid, 0);
        C.FetchRefines(w.coins, txid, f.coins);
      case ModifyCoins(txid, c) =>
        C.ModifyKeeps(w.coins, txid, c);
        C.ModifyRefines(w.coins, txid, c, f.coins);
      case ModifyNewCoins(txid, c) =>
        C.ModifyNewKeeps(w.coins, txid, c);
        C.ModifyNewRefines(w.coins, txid, c, f.coins);
    }
  }

  lemma NullifierStep(w: World, op: Op, t: A.Trees, f: Snapshots)
    requires Inv(w, t) && Enabled(w, op, t) && Refines(w, f)
    requires op.GetNullifier? || op.SetNullifier?
    ensures Inv(Apply(w, op), t) && Refines(Apply(w, op), SpecApply(f, op))
  {
    if op.GetNullifier? {
      N.FetchKeeps(w.nullifiers, op.key, f.spent);
    } else {
      N.MarkKeeps(w.nullifiers, op.key, op.spent, f.spent);
    }
  }

  lemma HashStep(w: World, op: Op, t: A.Trees, f: Snapshots)
    requires Inv(w, t) && Enabled(w, op, t) && Refines(w, f)
    requires op.GetBestAnchor? || op.GetBestBlock? || op.SetBestBlock?
    ensures Inv(Apply(w, op), t) && Refines(Apply(w, op), SpecApply(f, op))
  {
    match op {
      case GetBestAnchor(p) => B.FetchKeeps(w.bestAnchor.Get(p), f.bestAnchor.Get(p));
      case GetBestBlock => B.FetchKeeps(w.bestBlock, f.bestBlock);
      case SetBestBlock(h) => B.SetKeeps(w.bestBlock, h, f.bestBlock);
    }
  }

  lemma HistoryStep(w: World, op: Op, t: A.Trees, f: Snapshots)
    requires Inv(w, t) && Enabled(w, op, t) && Refines(w, f)
    requires op.GetHistory? || op.GetHistoryAt? || op.PushHistory? || op.PopHistory?
    ensures Inv(Apply(w, op), t) && Refines(Apply(w, op), SpecApply(f, op))
  {
    match op {
      case GetHistory(e) => H.FetchKeeps(w.history, e, f.history);
      case GetHistoryAt(e, i) => H.ReadKeeps(w.history, e, i, f.history);
      case PushHistory(e, nodes, root) => H.PushKeeps(w.history, e, nodes, root, f.history);
      case PopHistory(e, n, root) => H.PopKeeps(w.history, e, n, root, f.history);
    }
  }

  lemma PushAnchorStep(w: World, op: Op, t: A.Trees, f: Snapshots)
    requires Inv(w, t) && Enabled(w, op, t) && Refines(w, f)
    requires op.GetAnchor? || op.PushAnchor?
    ensures Inv(Apply(w, op), t) && Refines(Apply(w, op), SpecApply(f, op))
  {
    if op.GetAnchor? {
      A.FetchAt(w.anchors, op.key, op.key);
      A.FetchKeeps(w.anchors, op.key, t, f.anchors);
    } else {
      var s, bs := w.bestAnchor.Get(op.pool), f.bestAnchor.Get(op.pool);
      B.FetchKeeps(s, bs);
      B.SetKeeps(B.Fetch(s), op.root, bs);
      A.EnterKeeps(w.anchors, (op.pool, op.root), t, f.anchors);
    }
  }

  lemma PopAnchorStep(w: World, op: Op, t: A.Trees, f: Snapshots)
    requires Inv(w, t) && Enabled(w, op, t) && Refines(w, f) && BestAnchorsKnown(f)
    requires op.PopAnchor?
    ensures AssertsHold(w, op)
    ensures Inv(Apply(w, op), t) && Refines(Apply(w, op), SpecApply(f, op))
  {
    var s, bs := w.bestAnchor.Get(op.pool), f.bestAnchor.Get(op.pool);
    B.FetchKeeps(s, bs);
    B.SetKeeps(B.Fetch(s), op.root, bs);
    var k := (op.pool, bs[0]);
    assert k in f.anchors[0];
    A.FetchAt(w.anchors, k, k);
    A.FetchKeeps(w.anchors, k, t, f.anchors);
    if op.root != bs[0] { A.RemoveKeeps(A.Fetch(w.anchors, k), k, t, f.anchors); }
  }

  /** A pop keeps the best anchors known exactly when it goes to a known one. */
  lemma PopToKnown(f: Snapshots, op: Op)
    requires Nonempty(f) && BestAnchorsKnown(f) && op.PopAnchor?
    ensures BestAnchorsKnown(SpecApply(f, op)) <==> (op.pool, op.root) in f.anchors[0]
  {
    var g, bs := SpecApply(f, op), f.bestAnchor.Get(op.pool);
    assert (op.pool, bs[0]) in f.anchors[0];
    if op.root != bs[0] && (op.pool, op.root) !in f.anchors[0] {
      assert g.bestAnchor.Get(op.pool)[0] == op.root && (op.pool, op.root) !in g.anchors[0];
    } else {
      BestAnchorsStayKnown(f, op);
    }
  }

  /** The reference keeps its best anchors known, as long as callers pop to a known anchor. */
  lemma BestAnchorsStayKnown(f: Snapshots, op: Op)
    requires Nonempty(f) && BestAnchorsKnown(f)
    requires op.PopAnchor? ==> (op.pool, op.root) in f.anchors[0]
    ensures BestAnchorsKnown(SpecApply(f, op))
  {
  }

  lemma FlushStep(w: World, t: A.Trees, f: Snapshots)
    requires Inv(w, t) && Enabled(w, Flush, t) && Refines(w, f)
    ensures AssertsHold(w, Flush)
    ensures Inv(Apply(w, Flush), t) && Refines(Apply(w, Flush), SpecApply(f, Flush))
  {
    if w.coins.below.Layer? { C.AssertNeverFires(w.coins); }
    if w.history.below.Layer? { H.LengthsMatch(w.history); }
    C.FlushKeeps(w.coins);
    C.FlushRefines(w.coins, f.coins);
    N.FlushKeeps(w.nullifiers, f.spent);
    A.FlushKeeps(w.anchors, t, f.anchors);
    forall p { B.FlushKeeps(w.bestAnchor.Get(p), f.bestAnchor.Get(p)); }
    B.FlushKeeps(w.bestBlock, f.bestBlock);
    H.FlushKeeps(w.history, f.history);
  }

  lemma LayerStep(w: World, op: Op, t: A.Trees, f: Snapshots)
    requires op.NewCache? || op.Discard?
    requires Inv(w, t) && Enabled(w, op, t) && Refines(w, f)
    ensures Inv(Apply(w, op), t) && Refines(Apply(w, op), SpecApply(f, op))
  {
    if op.NewCache? {
      assert Copied(f.coins)[1..] == f.coins && Copied(f.spent)[1..] == f.spent;
      assert Copied(f.anchors)[1..] == f.anchors && Copied(f.history)[1..] == f.history;
      assert Copied(f.bestBlock)[1..] == f.bestBlock;
      forall p ensures Copied(f.bestAnchor.Get(p))[1..] == f.bestAnchor.Get(p) {}
    }
  }

  /** Every operation: no assertion fires, the invariant stays, the snapshots follow. */
  lemma StepRefines(w: World, op: Op, t: A.Trees, f: Snapshots)
    requires Inv(w, t) && Enabled(w, op, t) && Refines(w, f) && BestAnchorsKnown(f)
    ensures AssertsHold(w, op) && Inv(Apply(w, op), t)
    ensures Nonempty(f) && Refines(Apply(w, op), SpecApply(f, op)) && BestAnchorsKnown(SpecApply(f, op))
  {
    BestAnchorsStayKnown(f, op);
    match op
    case GetCoins(_) => CoinsStep(w, op, t, f);
    case ModifyCoins(_, _) => CoinsStep(w, op, t, f);
    case ModifyNewCoins(_, _) => CoinsStep(w, op, t, f);
    case GetNullifier(_) => NullifierStep(w, op, t, f);
    case SetNullifier(_, _) => NullifierStep(w, op, t, f);
    case GetAnchor(_) => PushAnchorStep(w, op, t, f);
    case PushAnchor(_, _, _) => PushAnchorStep(w, op, t, f);
    case PopAnchor(_, _) => PopAnchorStep(w, op, t, f);
    case GetBestAnchor(_) => HashStep(w, op, t, f);
    case GetBestBlock => HashStep(w, op, t, f);
    case SetBestBlock(_) => HashStep(w, op, t, f);
    case GetHistory(_) => HistoryStep(w, op, t, f);
    case GetHistoryAt(_, _) => HistoryStep(w, op, t, f);
    case PushHistory(_, _, _) => HistoryStep(w, op, t, f);
    case PopHistory(_, _, _) => HistoryStep(w, op, t, f);
    case NewCache => LayerStep(w, op, t, f);
    case Flush => FlushStep(w, t, f);
    case Discard => LayerStep(w, op, t, f);
  }

  // ----- Runs -----

  ghost predicate IsRun(w: World, ops: seq<Op>, t: A.Trees)
    decreases |ops|
  {
    ops != [] ==> Enabled(w, ops[0], t) && IsRun(Apply(w, ops[0]), ops[1..], t)
  }

  ghost predicate NoAssertFires(w: World, ops: seq<Op>, t: A.Trees)
    requires IsRun(w, ops, t)
    decreases |ops|
  {
    ops != [] ==> AssertsHold(w, ops[0]) && NoAssertFires(Apply(w, ops[0]), ops[1..], t)
  }

  ghost function Run(w: World, ops: seq<Op>, t: A.Trees): World
    requires IsRun(w, ops, t)
    decreases |ops|
  {
    if ops == [] then w else Run(Apply(w, ops[0]), ops[1..], t)
  }

  function SpecRun(f: Snapshots, ops: seq<Op>): Snapshots
    decreases |ops|
  {
    if ops == [] || !Nonempty(f) then f else SpecRun(SpecApply(f, ops[0]), ops[1..])
  }

  /** The main theorem: every run of a stack of caches of any depth agrees with the snapshots. */
  lemma {:induction false} RunRefines(w: World, ops: seq<Op>, t: A.Trees, f: Snapshots)
    requires Inv(w, t) && IsRun(w, ops, t) && Refines(w, f) && BestAnchorsKnown(f)
    ensures NoAssertFires(w, ops, t)
    ensures Inv(Run(w, ops, t), t) && Refines(Run(w, ops, t), SpecRun(f, ops))
    decreases |ops|
  {
    if ops != [] {
      StepRefines(w, ops[0], t, f);
      RunRefines(Apply(w, ops[0]), ops[1..], t, SpecApply(f, ops[0]));
    }
  }

  // ----- From a new data base on -----

  /** The view of a new data base: no coins, and the empty tree as the best anchor of every pool. */
  function NewWorld(emptyRoot: PerPool<Uint256>): World {
    World(Base(map[]), Base({}), Base(A.AnchorDb(map[], emptyRoot)),
          PerPool(Base(emptyRoot.sprout), Base(emptyRoot.sapling), Base(emptyRoot.orchard)),
          Base(NULL_HASH), Base(map[]))
  }

  function NewSnapshots(emptyRoot: PerPool<Uint256>): Snapshots {
    Snapshots([map[]], [{}],
              [map[(Sprout, emptyRoot.sprout) := A.EMPTY_TREE, (Sapling, emptyRoot.sapling) := A.EMPTY_TREE,
                   (Orchard, emptyRoot.orchard) := A.EMPTY_TREE]],
              PerPool([emptyRoot.sprout], [emptyRoot.sapling], [emptyRoot.orchard]),
              [NULL_HASH], [map[]])
  }

  lemma NewRefines(emptyRoot: PerPool<Uint256>, t: A.Trees)
    requires forall p :: t((p, emptyRoot.Get(p))) == A.EMPTY_TREE
    ensures Inv(NewWorld(emptyRoot), t) && Refines(NewWorld(emptyRoot), NewSnapshots(emptyRoot))
    ensures BestAnchorsKnown(NewSnapshots(emptyRoot))
  {
    var w, f := NewWorld(emptyRoot), NewSnapshots(emptyRoot);
    forall k ensures A.AnchorAt(w.anchors, k) == Lookup(f.anchors[0], k) {
      assert k == (k.0, k.1);
    }
    forall p ensures (p, f.bestAnchor.Get(p)[0]) in f.anchors[0] { }
  }

  /** Every run of caches over a new data base agrees with the snapshots, and no assertion fires. */
  lemma AlwaysRefines(emptyRoot: PerPool<Uint256>, ops: seq<Op>, t: A.Trees)
    requires forall p :: t((p, emptyRoot.Get(p))) == A.EMPTY_TREE
    requires IsRun(NewWorld(emptyRoot), ops, t)
    ensures var w := Run(NewWorld(emptyRoot), ops, t);
      && NoAssertFires(NewWorld(emptyRoot), ops, t)
      && Inv(w, t) && Refines(w, SpecRun(NewSnapshots(emptyRoot), ops))
  {
    NewRefines(emptyRoot, t);
    RunRefines(NewWorld(emptyRoot), ops, t, NewSnapshots(emptyRoot));
  }

  /** Popping to the empty root while it is the best anchor, as every disconnect of a block without notes does. */
  lemma PopOfEmptyRuns(emptyRoot: PerPool<Uint256>, p: Pool, t: A.Trees)
    requires p != Orchard && emptyRoot.Get(p) != NULL_HASH
    ensures IsRun(NewWorld(emptyRoot), [NewCache, PopAnchor(p, emptyRoot.Get(p)), Flush], t)
  {
    var w0 := NewWorld(emptyRoot);
    var w1 := Apply(w0, NewCache);
    var w2 := Apply(w1, PopAnchor(p, emptyRoot.Get(p)));
    assert w2 == FetchBestAnchor(w1, p);
    assert Enabled(w2, Flush, t);
    var last, rest := [Flush], [PopAnchor(p, emptyRoot.Get(p)), Flush];
    assert last[1..] == [] && rest[1..] == last && ([NewCache] + rest)[1..] == rest;
    assert IsRun(Apply(w2, Flush), [], t);
    assert IsRun(w2, last, t);
    assert IsRun(w1, rest, t);
    assert IsRun(w0, [NewCache] + rest, t);
    assert [NewCache] + rest == [NewCache, PopAnchor(p, emptyRoot.Get(p)), Flush];
  }
}
