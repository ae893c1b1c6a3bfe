/**
 The chain history trees of a stack of CCoinsViewCache objects over a data base.

 A HistoryCache records the nodes that differ from the parent: everything from updateDepth on
 is in appends, everything before it is read from the parent.
 */
module HistoryStack {
  import opened Basics
  import opened CoinsTypes

  /** A serialized history tree node. */
  type Node = seq<int>

  datatype History = History(nodes: seq<Node>, root: Uint256)
  const NO_HISTORY := History([], NULL_HASH)

  datatype HistoryCache = HistoryCache(appends: map<nat, Node>, length: nat, updateDepth: nat, root: Uint256)

  type HistoryMap = map<nat, HistoryCache>
  type HistoryDb = map<nat, History>
  type HistoryStack = Stack<HistoryMap, HistoryDb>

  predicate CacheOk(c: HistoryCache, base: History) {
    && c.updateDepth <= c.length
    && c.updateDepth <= |base.nodes|
    && (forall i :: i in c.appends ==> c.updateDepth <= i < c.length)
    && (forall i :: c.updateDepth <= i < c.length ==> i in c.appends)
  }

  /** The history a cache shows over its parent's. */
  function Shown(c: HistoryCache, base: History): History {
    if CacheOk(c, base) then
      History(base.nodes[..c.updateDepth]
              + seq(c.length - c.updateDepth,
                    i requires 0 <= i < c.length - c.updateDepth => c.appends[c.updateDepth + i]),
              c.root)
    else NO_HISTORY
  }

  function Recorded(db: HistoryDb, e: nat): History {
    if e in db then db[e] else NO_HISTORY
  }

  function Record(db: HistoryDb, e: nat, h: History): HistoryDb {
    db[e := h]
  }

  function HistoryOf(s: HistoryStack, e: nat): History {
    match s
    case Base(db) => Recorded(db, e)
    case Layer(top, below) => if e in top then Shown(top[e], HistoryOf(below, e)) else HistoryOf(below, e)
  }

  function NodeAt(s: HistoryStack, e: nat, i: nat): Option<Node> {
    var nodes := HistoryOf(s, e).nodes;
    if i < |nodes| then Some(nodes[i]) else None
  }

  ghost predicate Inv(s: HistoryStack) {
    s.Layer? ==>
      && Inv(s.below)
      && forall e :: e in s.top ==> CacheOk(s.top[e], HistoryOf(s.below, e))
  }

  function NewCache(h: History): HistoryCache {
    HistoryCache(map[], |h.nodes|, |h.nodes|, h.root)
  }

  /** SelectHistoryCache: each cache on the way down gets an entry for the epoch. */
  function Fetch(s: HistoryStack, e: nat): (r: HistoryStack)
    ensures s.Layer? ==> r.Layer? && e in r.top
  {
    if s.Base? || e in s.top then s
    else Layer(s.top[e := NewCache(HistoryOf(s.below, e))], Fetch(s.below, e))
  }

  /** The stack after GetHistoryAt(e, i): the lookup goes down until a cache has the node. */
  function Read(s: HistoryStack, e: nat, i: nat): HistoryStack
    decreases Depth(s)
  {
    if s.Base? then s
    else
      FetchDepth(s, e);
      var s1 := Fetch(s, e);
      if i < s1.top[e].length && i < s1.top[e].updateDepth then Layer(s1.top, Read(s1.below, e, i)) else s1
  }

  lemma {:induction false} FetchDepth(s: HistoryStack, e: nat)
    ensures Depth(Fetch(s, e)) == Depth(s)
  {
    if s.Layer? { FetchDepth(s.below, e); }
  }

  function Extend(c: HistoryCache, nodes: seq<Node>): HistoryCache
    decreases |nodes|
  {
    if nodes == [] then c
    else Extend(c.(appends := c.appends[c.length := nodes[0]], length := c.length + 1), nodes[1..])
  }

  function Truncate(c: HistoryCache, n: nat): HistoryCache {
    HistoryCache(
      if n > 0 then map i | i in c.appends && !(n <= i <= c.length) :: c.appends[i] else map[],
      n,
      if c.updateDepth > n then n else c.updateDepth,
      c.root)
  }

  /** PushHistoryNode: the nodes made by the tree library are appended and the root replaced. */
  function Push(s: HistoryStack, e: nat, nodes: seq<Node>, root: Uint256): HistoryStack
    requires s.Layer?
  {
    var s1 := Fetch(s, e);
    Layer(s1.top[e := Extend(s1.top[e], nodes).(root := root)], s1.below)
  }

  /** PopHistoryNode: the tree is cut to n nodes and the root replaced. */
  function Pop(s: HistoryStack, e: nat, n: nat, root: Uint256): HistoryStack
    requires s.Layer?
  {
    var s1 := Fetch(s, e);
    Layer(s1.top[e := Truncate(s1.top[e], n).(root := root)], s1.below)
  }

  /** The child's nodes from i on, in the order BatchWriteHistory replays them. */
  function Replay(c: HistoryCache, i: nat): seq<Node>
    requires i <= c.length && forall j :: i <= j < c.length ==> j in c.appends
    decreases c.length - i
  {
    if i == c.length then [] else [c.appends[i]] + Replay(c, i + 1)
  }

  function MergeCache(p: HistoryCache, c: HistoryCache): HistoryCache {
    if c.updateDepth <= c.length && forall j :: c.updateDepth <= j < c.length ==> j in c.appends then
      Extend(Truncate(p, c.updateDepth), Replay(c, c.updateDepth)).(root := c.root)
    else p
  }

  function Merge(parent: HistoryMap, child: HistoryMap): HistoryMap {
    map e | e in parent.Keys + child.Keys ::
      if e in child then if e in parent then MergeCache(parent[e], child[e]) else child[e]
      else parent[e]
  }

  function WriteDb(db: HistoryDb, child: HistoryMap): HistoryDb {
    map e | e in db.Keys + child.Keys ::
      if e in child then Shown(child[e], Recorded(db, e)) else db[e]
  }

  function Flush(s: HistoryStack): (r: HistoryStack)
    requires s.Layer?
    ensures r.Layer? && Depth(r) == Depth(s)
  {
    match s.below
    case Base(db) => Layer(map[], Base(WriteDb(db, s.top)))
    case Layer(parent, below) => Layer(map[], Layer(Merge(parent, s.top), below))
  }

  lemma {:induction false} AppendShows(c: HistoryCache, node: Node, base: History)
    requires CacheOk(c, base)
    ensures var d := c.(appends := c.appends[c.length := node], length := c.length + 1);
      CacheOk(d, base) && Shown(d, base).nodes == Shown(c, base).nodes + [node]
  {
  }

  lemma {:induction false} ExtendShows(c: HistoryCache, nodes: seq<Node>, base: History)
    requires CacheOk(c, base)
    ensures CacheOk(Extend(c, nodes), base)
    ensures Extend(c, nodes).length == c.length + |nodes| && Extend(c, nodes).root == c.root
    ensures Shown(Extend(c, nodes), base).nodes == Shown(c, base).nodes + nodes
    decreases |nodes|
  {
    if nodes != [] {
      var c1 := c.(appends := c.appends[c.length := nodes[0]], length := c.length + 1);
      AppendShows(c, nodes[0], base);
      ExtendShows(c1, nodes[1..], base);
      assert Shown(c, base).nodes + [nodes[0]] + nodes[1..] == Shown(c, base).nodes + nodes;
    }
  }

  lemma TruncateShows(c: HistoryCache, n: nat, base: History)
    requires CacheOk(c, base) && n <= c.length
    ensures CacheOk(Truncate(c, n), base)
    ensures Shown(Truncate(c, n), base).nodes == Shown(c, base).nodes[..n]
  {
  }

  lemma {:induction false} ReplayIs(c: HistoryCache, i: nat, base: History)
    requires CacheOk(c, base) && c.updateDepth <= i <= c.length
    ensures Replay(c, i) == Shown(c, base).nodes[i..]
    decreases c.length - i
  {
    if i < c.length {
      ReplayIs(c, i + 1, base);
      assert Shown(c, base).nodes[i..] == [Shown(c, base).nodes[i]] + Shown(c, base).nodes[i + 1..];
    }
  }

  /** Replaying a child's changes gives the parent the child's history; the lengths agree. */
  lemma MergeShows(p: HistoryCache, c: HistoryCache, base: History)
    requires CacheOk(p, base) && CacheOk(c, Shown(p, base))
    ensures CacheOk(MergeCache(p, c), base)
    ensures MergeCache(p, c).length == c.length
    ensures Shown(MergeCache(p, c), base) == Shown(c, Shown(p, base))
  {
    var before, replay := Shown(p, base), Replay(c, c.updateDepth);
    var after := Shown(c, before).nodes;
    TruncateShows(p, c.updateDepth, base);
    ExtendShows(Truncate(p, c.updateDepth), replay, base);
    assert Shown(MergeCache(p, c), base).nodes == before.nodes[..c.updateDepth] + replay;
    ReplayIs(c, c.updateDepth, before);
    assert after == after[..c.updateDepth] + after[c.updateDepth..];
    assert after[..c.updateDepth] == before.nodes[..c.updateDepth];
  }

  ghost predicate Refines(s: HistoryStack, fs: seq<HistoryDb>)
    decreases s
  {
    && fs != []
    && (forall e :: HistoryOf(s, e) == Recorded(fs[0], e))
    && (if s.Base? then |fs| == 1 else Refines(s.below, fs[1..]))
  }

  lemma {:induction false} FetchSame(s: HistoryStack, e: nat)
    requires Inv(s)
    ensures Inv(Fetch(s, e)) && Depth(Fetch(s, e)) == Depth(s)
    ensures forall j :: HistoryOf(Fetch(s, e), j) == HistoryOf(s, j)
    ensures s.Layer? ==> Fetch(s, e).top[e].length == |HistoryOf(s, e).nodes|
                         && Fetch(s, e).top[e].root == HistoryOf(s, e).root
  {
    if s.Layer? && e !in s.top {
      FetchSame(s.below, e);
      var h := HistoryOf(s.below, e);
      assert Shown(NewCache(h), h) == h;
    }
  }

  /** Where GetHistoryAt finds its answer. */
  lemma ReadFinds(s: HistoryStack, e: nat, i: nat)
    requires s.Layer? && Inv(s)
    ensures var s1 := Fetch(s, e); var c := s1.top[e];
      && Inv(s1.below)
      && (c.updateDepth <= i < c.length ==> i in c.appends)
      && NodeAt(s, e, i) ==
         if i >= c.length then None
         else if i >= c.updateDepth then Some(c.appends[i]) else NodeAt(s1.below, e, i)
  {
    FetchSame(s, e);
    var s1 := Fetch(s, e);
    assert HistoryOf(s, e) == HistoryOf(s1, e) == Shown(s1.top[e], HistoryOf(s1.below, e));
  }

  lemma {:induction false} ReadSame(s: HistoryStack, e: nat, i: nat)
    requires Inv(s)
    ensures Inv(Read(s, e, i)) && Depth(Read(s, e, i)) == Depth(s)
    ensures forall j :: HistoryOf(Read(s, e, i), j) == HistoryOf(s, j)
    decreases Depth(s)
  {
    FetchSame(s, e);
    if s.Layer? { ReadSame(Fetch(s, e).below, e, i); }
  }

  lemma {:induction false} ReadKeeps(s: HistoryStack, e: nat, i: nat, fs: seq<HistoryDb>)
    requires Inv(s) && Refines(s, fs)
    ensures Inv(Read(s, e, i)) && Refines(Read(s, e, i), fs) && Depth(Read(s, e, i)) == Depth(s)
    decreases Depth(s)
  {
    FetchSame(s, e);
    ReadSame(s, e, i);
    FetchKeeps(s, e, fs);
    if s.Layer? { ReadKeeps(Fetch(s, e).below, e, i, fs[1..]); }
  }

  lemma {:induction false} FetchKeeps(s: HistoryStack, e: nat, fs: seq<HistoryDb>)
    requires Inv(s) && Refines(s, fs)
    ensures Inv(Fetch(s, e)) && Refines(Fetch(s, e), fs) && Depth(Fetch(s, e)) == Depth(s)
    decreases s
  {
    FetchSame(s, e);
    if s.Layer? && e !in s.top { FetchKeeps(s.below, e, fs[1..]); }
  }

  lemma PushKeeps(s: HistoryStack, e: nat, nodes: seq<Node>, root: Uint256, fs: seq<HistoryDb>)
    requires s.Layer? && Inv(s) && Refines(s, fs)
    ensures Inv(Push(s, e, nodes, root)) && Depth(Push(s, e, nodes, root)) == Depth(s)
    ensures Refines(Push(s, e, nodes, root),
                    fs[0 := Record(fs[0], e, History(Recorded(fs[0], e).nodes + nodes, root))])
  {
    FetchKeeps(s, e, fs);
    var s1 := Fetch(s, e);
    var base := HistoryOf(s1.below, e);
    ExtendShows(s1.top[e], nodes, base);
    var c := Extend(s1.top[e], nodes).(root := root);
    assert Recorded(fs[0], e) == HistoryOf(s1, e) == Shown(s1.top[e], base);
    assert Shown(c, base) == History(Recorded(fs[0], e).nodes + nodes, root);
    Replaced(s1, e, c, fs);
  }

  lemma PopKeeps(s: HistoryStack, e: nat, n: nat, root: Uint256, fs: seq<HistoryDb>)
    requires s.Layer? && Inv(s) && Refines(s, fs)
    requires n <= |HistoryOf(s, e).nodes|
    ensures Inv(Pop(s, e, n, root)) && Depth(Pop(s, e, n, root)) == Depth(s)
    ensures n <= |Recorded(fs[0], e).nodes|
    ensures Refines(Pop(s, e, n, root),
                    fs[0 := Record(fs[0], e, History(Recorded(fs[0], e).nodes[..n], root))])
  {
    FetchKeeps(s, e, fs);
    var s1 := Fetch(s, e);
    TruncateShows(s1.top[e], n, HistoryOf(s1.below, e));
    Replaced(s1, e, Truncate(s1.top[e], n).(root := root), fs);
  }

  lemma Replaced(s: HistoryStack, e: nat, c: HistoryCache, fs: seq<HistoryDb>)
    requires s.Layer? && Inv(s) && Refines(s, fs) && CacheOk(c, HistoryOf(s.below, e))
    ensures var s' := Layer(s.top[e := c], s.below);
      Inv(s') && Refines(s', fs[0 := Record(fs[0], e, Shown(c, HistoryOf(s.below, e)))])
  {
    var gs := fs[0 := Record(fs[0], e, Shown(c, HistoryOf(s.below, e)))];
    assert gs[1..] == fs[1..];
    var s' := Layer(s.top[e := c], s.below);
    forall j ensures HistoryOf(s', j) == Recorded(gs[0], j) { assert HistoryOf(s, j) == Recorded(fs[0], j); }
  }

  /** The assertion of BatchWriteHistory: after the replay the parent's length is the child's. */
  ghost predicate MergeAsserts(parent: HistoryMap, child: HistoryMap) {
    forall e :: e in child && e in parent ==> MergeCache(parent[e], child[e]).length == child[e].length
  }

  lemma LengthsMatch(s: HistoryStack)
    requires s.Layer? && s.below.Layer? && Inv(s)
    ensures MergeAsserts(s.below.top, s.top)
  {
    forall e | e in s.top && e in s.below.top
      ensures MergeCache(s.below.top[e], s.top[e]).length == s.top[e].length
    {
      MergeShows(s.below.top[e], s.top[e], HistoryOf(s.below.below, e));
    }
  }

  /** Flushing gives the parent the child's history of every epoch. */
  lemma FlushKeeps(s: HistoryStack, fs: seq<HistoryDb>)
    requires s.Layer? && Inv(s) && Refines(s, fs)
    ensures Inv(Flush(s)) && |fs| > 1 && Refines(Flush(s), fs[1 := fs[0]])
  {
    var gs := fs[1 := fs[0]];
    var b, b' := s.below, Flush(s).below;
    forall e ensures HistoryOf(b', e) == HistoryOf(s, e)
             ensures b'.Layer? && e in b'.top ==> CacheOk(b'.top[e], HistoryOf(b'.below, e))
    {
      if b.Layer? && e in s.top && e in b.top {
        MergeShows(b.top[e], s.top[e], HistoryOf(b.below, e));
      }
    }
    assert gs[1..][1..] == fs[1..][1..];
    assert Refines(b', gs[1..]);
  }
}
