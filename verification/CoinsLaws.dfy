/**
 What a cache is for: whatever happens in it reaches the view below when it is flushed, and
 nothing does when it is dropped. These are laws of the snapshots, which every run of caches
 agrees with.
 */
module CoinsLaws {
  import opened Basics
  import opened CoinsTypes
  import opened CoinsWorld
  import A = AnchorStack
  import C = CoinsStack
  import H = HistoryStack

  /** An operation within one view. */
  predicate Plain(op: Op) { !op.NewCache? && !op.Flush? && !op.Discard? }

  function Stacked<T>(a: seq<T>, b: seq<T>): seq<T> { if a == [] then b else [a[0]] + b }

  /** The top of g on all of f. */
  function Over(g: Snapshots, f: Snapshots): Snapshots {
    Snapshots(Stacked(g.coins, f.coins), Stacked(g.spent, f.spent), Stacked(g.anchors, f.anchors),
              PerPool(Stacked(g.bestAnchor.sprout, f.bestAnchor.sprout),
                      Stacked(g.bestAnchor.sapling, f.bestAnchor.sapling),
                      Stacked(g.bestAnchor.orchard, f.bestAnchor.orchard)),
              Stacked(g.bestBlock, f.bestBlock), Stacked(g.history, f.history))
  }

  predicate SameTail<T(==)>(a: seq<T>, b: seq<T>) { a != [] && b != [] && a[1..] == b[1..] }

  /** Two stacks that differ at most in their tops. */
  predicate SameTails(g: Snapshots, f: Snapshots) {
    && SameTail(g.coins, f.coins) && SameTail(g.spent, f.spent) && SameTail(g.anchors, f.anchors)
    && SameTail(g.bestAnchor.sprout, f.bestAnchor.sprout) && SameTail(g.bestAnchor.sapling, f.bestAnchor.sapling)
    && SameTail(g.bestAnchor.orchard, f.bestAnchor.orchard)
    && SameTail(g.bestBlock, f.bestBlock) && SameTail(g.history, f.history)
  }

  lemma TailsNonempty(g: Snapshots, f: Snapshots)
    requires SameTails(g, f)
    ensures Nonempty(g) && Nonempty(f)
  {
  }

  lemma NonemptyTails(f: Snapshots)
    requires Nonempty(f)
    ensures SameTails(f, f)
  {
    assert f.bestAnchor.Get(Sprout) != [] && f.bestAnchor.Get(Sapling) != [] && f.bestAnchor.Get(Orchard) != [];
  }

  lemma StackedUpdate<T>(a: seq<T>, b: seq<T>, x: T)
    requires a != []
    ensures Stacked(a[0 := x], b) == Stacked(a, b)[0 := x] && SameTail(a[0 := x], a)
  {
  }

  lemma OverNonempty(g: Snapshots, f: Snapshots)
    requires SameTails(g, g)
    ensures Nonempty(g) && Nonempty(Over(g, f))
  {
  }

  lemma CoinsTop(g: Snapshots, f: Snapshots, op: Op)
    requires (op.ModifyCoins? || op.ModifyNewCoins?) && SameTails(g, g) && Nonempty(g) && Nonempty(Over(g, f))
    ensures SpecApply(Over(g, f), op) == Over(SpecApply(g, op), f) && SameTails(SpecApply(g, op), g)
  {
    StackedUpdate(g.coins, f.coins, C.Write(g.coins[0], op.txid, op.coins));
  }

  lemma NullifierTop(g: Snapshots, f: Snapshots, op: Op)
    requires op.SetNullifier? && SameTails(g, g) && Nonempty(g) && Nonempty(Over(g, f))
    ensures SpecApply(Over(g, f), op) == Over(SpecApply(g, op), f) && SameTails(SpecApply(g, op), g)
  {
    StackedUpdate(g.spent, f.spent, SpecApply(g, op).spent[0]);
  }

  lemma BlockTop(g: Snapshots, f: Snapshots, op: Op)
    requires op.SetBestBlock? && SameTails(g, g) && Nonempty(g) && Nonempty(Over(g, f))
    ensures SpecApply(Over(g, f), op) == Over(SpecApply(g, op), f) && SameTails(SpecApply(g, op), g)
  {
    StackedUpdate(g.bestBlock, f.bestBlock, op.root);
  }

  lemma HistoryTop(g: Snapshots, f: Snapshots, op: Op)
    requires (op.PushHistory? || op.PopHistory?) && SameTails(g, g) && Nonempty(g) && Nonempty(Over(g, f))
    ensures SpecApply(Over(g, f), op) == Over(SpecApply(g, op), f) && SameTails(SpecApply(g, op), g)
  {
    StackedUpdate(g.history, f.history, SpecApply(g, op).history[0]);
  }

  lemma AnchorTop(g: Snapshots, f: Snapshots, op: Op)
    requires (op.PushAnchor? || op.PopAnchor?) && SameTails(g, g) && Nonempty(g) && Nonempty(Over(g, f))
    ensures SpecApply(Over(g, f), op) == Over(SpecApply(g, op), f) && SameTails(SpecApply(g, op), g)
  {
    var bs, cs := g.bestAnchor.Get(op.pool), f.bestAnchor.Get(op.pool);
    assert Over(g, f).bestAnchor.Get(op.pool) == Stacked(bs, cs);
    StackedUpdate(g.anchors, f.anchors, SpecApply(g, op).anchors[0]);
    StackedUpdate(bs, cs, op.root);
  }

  /** An operation looks at the top and changes only the top. */
  lemma OnlyTop(g: Snapshots, f: Snapshots, op: Op)
    requires Plain(op) && SameTails(g, g)
    ensures Nonempty(g) && Nonempty(Over(g, f))
    ensures SpecApply(Over(g, f), op) == Over(SpecApply(g, op), f)
    ensures SameTails(SpecApply(g, op), g)
  {
    OverNonempty(g, f);
    match op {
      case ModifyCoins(_, _) => CoinsTop(g, f, op);
      case ModifyNewCoins(_, _) => CoinsTop(g, f, op);
      case SetNullifier(_, _) => NullifierTop(g, f, op);
      case SetBestBlock(_) => BlockTop(g, f, op);
      case PushHistory(_, _, _) => HistoryTop(g, f, op);
      case PopHistory(_, _, _) => HistoryTop(g, f, op);
      case PushAnchor(_, _, _) => AnchorTop(g, f, op);
      case PopAnchor(_, _) => AnchorTop(g, f, op);
      case _ =>
    }
  }

  lemma {:induction false} RunTop(g: Snapshots, f: Snapshots, ops: seq<Op>)
    requires SameTails(g, g) && forall i :: 0 <= i < |ops| ==> Plain(ops[i])
    ensures SpecRun(Over(g, f), ops) == Over(SpecRun(g, ops), f)
    ensures SameTails(SpecRun(g, ops), g)
    decreases |ops|
  {
    if ops != [] {
      OnlyTop(g, f, ops[0]);
      var h := SpecApply(g, ops[0]);
      RunTop(h, f, ops[1..]);
    }
  }

  lemma CopyIsOver(f: Snapshots)
    requires SameTails(f, f) && Nonempty(f)
    ensures SpecApply(f, NewCache) == Over(f, f)
  {
  }

  lemma DropOver(g: Snapshots, f: Snapshots)
    requires SameTails(g, f) && Nonempty(Over(g, f))
    ensures SpecApply(Over(g, f), Discard) == f
  {
  }

  lemma FlushStacked<T>(a: seq<T>, b: seq<T>)
    requires a != [] && b != [] && a[1..] == b[1..]
    ensures Flushed(Stacked(a, b)) != [] && CoinsWorld.Dropped(Flushed(Stacked(a, b))) == a
  {
    assert a == [a[0]] + b[1..];
  }

  lemma FlushOver(g: Snapshots, f: Snapshots)
    requires SameTails(g, f) && Nonempty(Over(g, f))
    ensures Nonempty(SpecApply(Over(g, f), Flush))
    ensures SpecApply(SpecApply(Over(g, f), Flush), Discard) == g
  {
    FlushStacked(g.coins, f.coins);
    FlushStacked(g.spent, f.spent);
    FlushStacked(g.anchors, f.anchors);
    FlushStacked(g.bestAnchor.sprout, f.bestAnchor.sprout);
    FlushStacked(g.bestAnchor.sapling, f.bestAnchor.sapling);
    FlushStacked(g.bestAnchor.orchard, f.bestAnchor.orchard);
    FlushStacked(g.bestBlock, f.bestBlock);
    FlushStacked(g.history, f.history);
  }

  /** A cache that is dropped leaves no trace, whatever was done in it. */
  lemma Abandoned(f: Snapshots, ops: seq<Op>)
    requires Nonempty(f) && forall i :: 0 <= i < |ops| ==> Plain(ops[i])
    ensures var g := SpecRun(SpecApply(f, NewCache), ops); Nonempty(g) && SpecApply(g, Discard) == f
  {
    NonemptyTails(f);
    CopyIsOver(f);
    RunTop(f, f, ops);
    DropOver(SpecRun(f, ops), f);
  }

  /** A cache that is flushed and dropped leaves what its operations would have left without it. */
  lemma Committed(f: Snapshots, ops: seq<Op>)
    requires Nonempty(f) && forall i :: 0 <= i < |ops| ==> Plain(ops[i])
    ensures var g := SpecRun(SpecApply(f, NewCache), ops);
      && Nonempty(g) && Nonempty(SpecApply(g, Flush))
      && SpecApply(SpecApply(g, Flush), Discard) == SpecRun(f, ops)
  {
    NonemptyTails(f);
    CopyIsOver(f);
    RunTop(f, f, ops);
    FlushOver(SpecRun(f, ops), f);
  }

  // ----- Taking a block back -----

  /** Popping to the anchor before a new one was pushed takes the push back. */
  lemma PopUndoesPush(f: Snapshots, p: Pool, root: Uint256, tree: A.Tree)
    requires Nonempty(f) && (p, root) !in f.anchors[0]
    ensures var g := SpecApply(f, PushAnchor(p, root, tree));
      Nonempty(g) && SpecApply(g, PopAnchor(p, f.bestAnchor.Get(p)[0])) == f
  {
    var bs := f.bestAnchor.Get(p);
    if bs[0] != root {
      assert f.anchors[0][(p, root) := tree] - {(p, root)} == f.anchors[0];
      assert bs[0 := root][0 := bs[0]] == bs;
      var g := SpecApply(f, PushAnchor(p, root, tree));
      assert g.anchors[0 := f.anchors[0]] == f.anchors;
      SetBack(f.bestAnchor, p, bs[0 := root]);
    }
  }

  lemma SetBack<T>(m: PerPool<T>, p: Pool, t: T)
    ensures m.Set(p, t).Set(p, m.Get(p)) == m && m.Set(p, t).Get(p) == t
  {
  }

  /** Cutting a history to its former length and root takes the appended nodes back. */
  lemma CutUndoesAppend(f: Snapshots, e: nat, nodes: seq<H.Node>, root: Uint256)
    requires Nonempty(f) && e in f.history[0]
    ensures var g, was := SpecApply(f, PushHistory(e, nodes, root)), f.history[0][e];
      Nonempty(g) && SpecApply(g, PopHistory(e, |was.nodes|, was.root)) == f
  {
    var db, was := f.history[0], f.history[0][e];
    var g := SpecApply(f, PushHistory(e, nodes, root));
    assert (was.nodes + nodes)[..|was.nodes|] == was.nodes;
    assert g.history[0][e := was] == db;
    assert g.history[0 := db] == f.history;
  }

  lemma UnspendUndoesSpend(f: Snapshots, k: Key)
    requires Nonempty(f) && k !in f.spent[0]
    ensures var g := SpecApply(f, SetNullifier(k, true));
      Nonempty(g) && k in g.spent[0] && SpecApply(g, SetNullifier(k, false)) == f
  {
    var g := SpecApply(f, SetNullifier(k, true));
    assert g.spent[0] - {k} == f.spent[0] && g.spent[0 := f.spent[0]] == f.spent;
  }
}
