/**
 The commitment tree anchors of a stack of CCoinsViewCache objects over a data base.

 A tree is listed under its root. The data base always knows the empty tree of each pool.
 The parameter t names the one tree that has a given root; when a flush meets an anchor the
 parent already knows, it copies the entered flag and not the tree, so it relies on t.
 */
module AnchorStack {
  import opened Basics
  import opened CoinsTypes

  /** A note commitment tree, as its list of commitments. */
  type Tree = seq<Uint256>
  const EMPTY_TREE: Tree := []

  type Trees = Key -> Tree

  datatype AnchorEntry = AnchorEntry(entered: bool, tree: Tree, isDirty: bool)

  type AnchorMap = map<Key, AnchorEntry>
  datatype AnchorDb = AnchorDb(trees: map<Key, Tree>, emptyRoot: PerPool<Uint256>) {
    predicate IsEmptyRoot(k: Key) { k.1 == emptyRoot.Get(k.0) }
  }
  type AnchorStack = Stack<AnchorMap, AnchorDb>

  function AnchorAt(s: AnchorStack, k: Key): Option<Tree> {
    match s
    case Base(db) => if db.IsEmptyRoot(k) then Some(EMPTY_TREE) else Lookup(db.trees, k)
    case Layer(top, below) =>
      if k in top then if top[k].entered then Some(top[k].tree) else None
      else AnchorAt(below, k)
  }

  function Bottom(s: AnchorStack): AnchorDb {
    if s.Base? then s.db else Bottom(s.below)
  }

  ghost predicate EntryOk(k: Key, e: AnchorEntry, below: AnchorStack, t: Trees) {
    && e.tree == t(k)
    && (!e.isDirty ==> e.entered && AnchorAt(below, k) == Some(e.tree))
    && (!e.entered ==> !Bottom(below).IsEmptyRoot(k))
  }

  ghost predicate Inv(s: AnchorStack, t: Trees) {
    match s
    case Base(db) =>
      && (forall k :: k in db.trees ==> db.trees[k] == t(k))
      && (forall p :: t((p, db.emptyRoot.Get(p))) == EMPTY_TREE)
    case Layer(top, below) => Inv(below, t) && forall k :: k in top ==> EntryOk(k, top[k], below, t)
  }

  /** The stack after a lookup of anchor k. */
  function Fetch(s: AnchorStack, k: Key): AnchorStack {
    if s.Base? || k in s.top then s
    else match AnchorAt(s.below, k)
      case None => Layer(s.top, Fetch(s.below, k))
      case Some(tree) => Layer(s.top[k := AnchorEntry(true, tree, false)], Fetch(s.below, k))
  }

  function Enter(s: AnchorStack, k: Key, tree: Tree): AnchorStack
    requires s.Layer?
  {
    Layer(s.top[k := AnchorEntry(true, tree, true)], s.below)
  }

  /** Marks an anchor that was just looked up as no longer entered. */
  function Remove(s: AnchorStack, k: Key): AnchorStack
    requires s.Layer? && k in s.top
  {
    Layer(s.top[k := AnchorEntry(false, s.top[k].tree, true)], s.below)
  }

  /** BatchWriteAnchors: when the parent has the anchor, only the entered flag is copied. */
  function Merge(parent: AnchorMap, child: AnchorMap): AnchorMap {
    map k | k in parent.Keys + child.Keys && (k in parent || child[k].isDirty) ::
      if k in child && child[k].isDirty then
        if k !in parent then AnchorEntry(child[k].entered, child[k].tree, true)
        else if parent[k].entered != child[k].entered
        then AnchorEntry(child[k].entered, parent[k].tree, true) else parent[k]
      else parent[k]
  }

  function WriteDb(db: AnchorDb, child: AnchorMap): AnchorDb {
    db.(trees := map k | k in db.trees.Keys + child.Keys
        && (if k in child && child[k].isDirty
            then child[k].entered && (db.IsEmptyRoot(k) ==> k in db.trees)
            else k in db.trees) ::
      if k in child && child[k].isDirty && !db.IsEmptyRoot(k) then child[k].tree else db.trees[k])
  }

  function Flush(s: AnchorStack): (r: AnchorStack)
    requires s.Layer?
    ensures r.Layer? && Depth(r) == Depth(s)
  {
    match s.below
    case Base(db) => Layer(map[], Base(WriteDb(db, s.top)))
    case Layer(parent, below) => Layer(map[], Layer(Merge(parent, s.top), below))
  }

  ghost predicate Refines(s: AnchorStack, fs: seq<map<Key, Tree>>)
    decreases s
  {
    && fs != []
    && (forall k :: AnchorAt(s, k) == Lookup(fs[0], k))
    && (if s.Base? then |fs| == 1 else Refines(s.below, fs[1..]))
  }

  lemma {:induction false} TreeByRoot(s: AnchorStack, k: Key, t: Trees)
    requires Inv(s, t)
    ensures AnchorAt(s, k).Some? ==> AnchorAt(s, k).value == t(k)
    ensures Bottom(s).IsEmptyRoot(k) ==> AnchorAt(s, k).Some?
  {
    if s.Layer? {
      TreeByRoot(s.below, k, t);
      if k in s.top { assert EntryOk(k, s.top[k], s.below, t); }
    }
  }

  lemma {:induction false} FetchAt(s: AnchorStack, k: Key, j: Key)
    ensures AnchorAt(Fetch(s, k), j) == AnchorAt(s, j)
    ensures Bottom(Fetch(s, k)) == Bottom(s)
    ensures Depth(Fetch(s, k)) == Depth(s)
    ensures s.Layer? ==> Fetch(s, k).Layer? && (AnchorAt(s, k).Some? ==> k in Fetch(s, k).top)
  {
    if s.Layer? && k !in s.top { FetchAt(s.below, k, j); }
  }

  lemma {:induction false} FetchKeeps(s: AnchorStack, k: Key, t: Trees, fs: seq<map<Key, Tree>>)
    requires Inv(s, t) && Refines(s, fs)
    ensures Inv(Fetch(s, k), t) && Refines(Fetch(s, k), fs)
    decreases s
  {
    if s.Layer? && k !in s.top {
      FetchKeeps(s.below, k, t, fs[1..]);
      TreeByRoot(s.below, k, t);
      forall j | j in Fetch(s, k).top ensures EntryOk(j, Fetch(s, k).top[j], Fetch(s.below, k), t) {
        FetchAt(s.below, k, j);
        if j in s.top { assert EntryOk(j, s.top[j], s.below, t); }
      }
      forall j ensures AnchorAt(Fetch(s, k), j) == Lookup(fs[0], j) { FetchAt(s, k, j); }
    }
  }

  lemma EnterKeeps(s: AnchorStack, k: Key, t: Trees, fs: seq<map<Key, Tree>>)
    requires s.Layer? && Inv(s, t) && Refines(s, fs)
    ensures Inv(Enter(s, k, t(k)), t) && Refines(Enter(s, k, t(k)), fs[0 := fs[0][k := t(k)]])
  {
    var s', gs := Enter(s, k, t(k)), fs[0 := fs[0][k := t(k)]];
    assert gs[1..] == fs[1..];
    forall j | j in s.top ensures EntryOk(j, s.top[j], s.below, t) {}
    forall j ensures AnchorAt(s', j) == Lookup(gs[0], j) { assert AnchorAt(s, j) == Lookup(fs[0], j); }
  }

  lemma RemoveKeeps(s: AnchorStack, k: Key, t: Trees, fs: seq<map<Key, Tree>>)
    requires s.Layer? && k in s.top && Inv(s, t) && Refines(s, fs)
    requires !Bottom(s).IsEmptyRoot(k)
    ensures Inv(Remove(s, k), t) && Refines(Remove(s, k), fs[0 := fs[0] - {k}])
  {
    var s', gs := Remove(s, k), fs[0 := fs[0] - {k}];
    assert gs[1..] == fs[1..];
    forall j | j in s.top ensures EntryOk(j, s.top[j], s.below, t) {}
    forall j ensures AnchorAt(s', j) == Lookup(gs[0], j) { assert AnchorAt(s, j) == Lookup(fs[0], j); }
  }

  /** Removing an anchor keeps the invariant exactly when it is not the empty root, which the data base always knows. */
  lemma RemoveExact(s: AnchorStack, k: Key, t: Trees)
    requires s.Layer? && k in s.top && Inv(s, t)
    ensures Inv(Remove(s, k), t) <==> !Bottom(s).IsEmptyRoot(k)
  {
    forall j | j in s.top ensures EntryOk(j, s.top[j], s.below, t) {}
    assert EntryOk(k, s.top[k], s.below, t);
    if Bottom(s).IsEmptyRoot(k) { assert !EntryOk(k, Remove(s, k).top[k], s.below, t); }
  }

  /** A cache over the data base that removed the empty root shows it no more; once flushed, it is back. */
  lemma EmptyRootReturns(s: AnchorStack, k: Key)
    requires s.Layer? && s.below.Base? && k in s.top
    ensures AnchorAt(Remove(s, k), k) == None
    ensures AnchorAt(Flush(Remove(s, k)), k) == if s.below.db.IsEmptyRoot(k) then Some(EMPTY_TREE) else None
  {
  }

  /** Flushing gives the parent the child's anchors, although trees are not always copied. */
  lemma FlushKeeps(s: AnchorStack, t: Trees, fs: seq<map<Key, Tree>>)
    requires s.Layer? && Inv(s, t) && Refines(s, fs)
    ensures Inv(Flush(s), t) && |fs| > 1 && Refines(Flush(s), fs[1 := fs[0]])
    ensures Bottom(Flush(s)).emptyRoot == Bottom(s).emptyRoot
  {
    var gs := fs[1 := fs[0]];
    var b, b' := s.below, Flush(s).below;
    forall k ensures AnchorAt(b', k) == AnchorAt(s, k) {
      if k in s.top { assert EntryOk(k, s.top[k], b, t); }
      if b.Layer? && k in b.top { assert EntryOk(k, b.top[k], b.below, t); }
      TreeByRoot(b, k, t);
    }
    if b.Layer? {
      forall k | k in b'.top ensures EntryOk(k, b'.top[k], b'.below, t) {
        if k in s.top { assert EntryOk(k, s.top[k], b, t); }
        if k in b.top { assert EntryOk(k, b.top[k], b.below, t); }
      }
    } else {
      forall k | k in b'.db.trees ensures b'.db.trees[k] == t(k) {
        if k in s.top { assert EntryOk(k, s.top[k], b, t); }
      }
    }
    assert gs[1..][1..] == fs[1..][1..];
    assert Refines(Flush(s).below, gs[1..]);
  }

  /**
   Without the one-tree-per-root assumption the parent keeps its own tree: when child and
   parent both hold an entered anchor, the flush shows the child's tree iff the trees agree.
   */
  lemma FlushKeepsParentTree(s: AnchorStack, k: Key)
    requires s.Layer? && s.below.Layer? && k in s.top && k in s.below.top
    requires s.top[k].isDirty && s.top[k].entered && s.below.top[k].entered
    ensures AnchorAt(Flush(s).below, k) == AnchorAt(s, k) <==> s.top[k].tree == s.below.top[k].tree
  {
  }
}
