/** The spent nullifiers of a stack of CCoinsViewCache objects over a data base. */
module NullifierStack {
  import opened CoinsTypes

  datatype NullifierEntry = NullifierEntry(entered: bool, isDirty: bool)

  type NullifierMap = map<Key, NullifierEntry>
  type NullifierStack = Stack<NullifierMap, set<Key>>

  predicate Spent(s: NullifierStack, k: Key) {
    match s
    case Base(db) => k in db
    case Layer(top, below) => if k in top then top[k].entered else Spent(below, k)
  }

  ghost predicate Inv(s: NullifierStack) {
    s.Layer? ==>
      && Inv(s.below)
      && forall k :: k in s.top && !s.top[k].isDirty ==> s.top[k].entered == Spent(s.below, k)
  }

  /** The stack after GetNullifier(k): every cache on the way down remembers the answer. */
  function Fetch(s: NullifierStack, k: Key): NullifierStack {
    if s.Base? || k in s.top then s
    else Layer(s.top[k := NullifierEntry(Spent(s.below, k), false)], Fetch(s.below, k))
  }

  function Mark(s: NullifierStack, k: Key, spent: bool): NullifierStack
    requires s.Layer?
  {
    Layer(s.top[k := NullifierEntry(spent, true)], s.below)
  }

  /** The nullifiers a transaction reveals, in each pool. */
  datatype Spends = Spends(joinSplits: seq<seq<Uint256>>, sapling: seq<Uint256>, orchard: seq<Uint256>) {

    predicate Reveals(k: Key) {
      match k.0
      case Sprout => exists i :: 0 <= i < |joinSplits| && k.1 in joinSplits[i]
      case Sapling => k.1 in sapling
      case Orchard => k.1 in orchard
    }
  }

  function OfPool(p: Pool, hashes: seq<Uint256>): (ks: seq<Key>)
    ensures forall k :: k in ks <==> k.0 == p && k.1 in hashes
  {
    var ks := seq(|hashes|, i requires 0 <= i < |hashes| => (p, hashes[i]));
    assert forall i :: 0 <= i < |hashes| ==> ks[i] == (p, hashes[i]);
    ks
  }

  function OfJoinSplits(js: seq<seq<Uint256>>): (ks: seq<Key>)
    ensures forall k :: k in ks <==> k.0 == Sprout && exists i :: 0 <= i < |js| && k.1 in js[i]
  {
    if js == [] then [] else OfJoinSplits(js[..|js| - 1]) + OfPool(Sprout, js[|js| - 1])
  }

  /** In the order in which SetNullifiers visits them. */
  function AllSpends(tx: Spends): (ks: seq<Key>)
    ensures forall k :: k in ks <==> tx.Reveals(k)
  {
    OfJoinSplits(tx.joinSplits) + OfPool(Sapling, tx.sapling) + OfPool(Orchard, tx.orchard)
  }

  /** Every nullifier of a list, in order. */
  function MarkAll(s: NullifierStack, ks: seq<Key>, spent: bool): (r: NullifierStack)
    requires s.Layer?
    ensures r.Layer? && r.below == s.below
  {
    if ks == [] then s else Mark(MarkAll(s, ks[..|ks| - 1], spent), ks[|ks| - 1], spent)
  }

  /** Afterwards exactly the given nullifiers have the new status. */
  lemma {:induction false} MarkAllSets(s: NullifierStack, ks: seq<Key>, spent: bool, k: Key)
    requires s.Layer?
    ensures Spent(MarkAll(s, ks, spent), k) == if k in ks then spent else Spent(s, k)
  {
    if ks != [] {
      assert ks == ks[..|ks| - 1] + [ks[|ks| - 1]];
      MarkAllSets(s, ks[..|ks| - 1], spent, k);
    }
  }

  lemma {:induction false} MarkBoth(s: NullifierStack, a: seq<Key>, b: seq<Key>, spent: bool)
    requires s.Layer?
    ensures MarkAll(s, a + b, spent) == MarkAll(MarkAll(s, a, spent), b, spent)
  {
    if b == [] {
      assert a + b == a;
    } else {
      assert (a + b)[..|a + b| - 1] == a + b[..|b| - 1];
      MarkBoth(s, a, b[..|b| - 1], spent);
    }
  }

  /** SetNullifiers changes exactly what the transaction reveals, in each pool. */
  lemma SpendsSet(s: NullifierStack, tx: Spends, spent: bool, k: Key)
    requires s.Layer?
    ensures Spent(MarkAll(s, AllSpends(tx), spent), k) == if tx.Reveals(k) then spent else Spent(s, k)
  {
    MarkAllSets(s, AllSpends(tx), spent, k);
  }

  /** BatchWriteNullifiers: the parent after it took over every dirty entry of the child. */
  function Merge(parent: NullifierMap, child: NullifierMap): NullifierMap {
    map k | k in parent.Keys + child.Keys && (k in parent || child[k].isDirty) ::
      if k in child && child[k].isDirty && (k in parent ==> parent[k].entered != child[k].entered)
      then NullifierEntry(child[k].entered, true) else parent[k]
  }

  function WriteDb(db: set<Key>, child: NullifierMap): set<Key> {
    set k | k in db + child.Keys && (if k in child && child[k].isDirty then child[k].entered else k in db)
  }

  function Flush(s: NullifierStack): (r: NullifierStack)
    requires s.Layer?
    ensures r.Layer? && Depth(r) == Depth(s)
  {
    match s.below
    case Base(db) => Layer(map[], Base(WriteDb(db, s.top)))
    case Layer(parent, below) => Layer(map[], Layer(Merge(parent, s.top), below))
  }

  ghost predicate Refines(s: NullifierStack, fs: seq<set<Key>>)
    decreases s
  {
    && fs != []
    && (forall k :: Spent(s, k) <==> k in fs[0])
    && (if s.Base? then |fs| == 1 else Refines(s.below, fs[1..]))
  }

  lemma {:induction false} FetchKeeps(s: NullifierStack, k: Key, fs: seq<set<Key>>)
    requires Inv(s) && Refines(s, fs)
    ensures Inv(Fetch(s, k)) && Refines(Fetch(s, k), fs) && Depth(Fetch(s, k)) == Depth(s)
    decreases s
  {
    if s.Layer? && k !in s.top {
      FetchKeeps(s.below, k, fs[1..]);
      forall j ensures Spent(Fetch(s.below, k), j) == Spent(s.below, j) {
        assert Spent(s.below, j) <==> j in fs[1..][0];
      }
    }
  }

  lemma MarkKeeps(s: NullifierStack, k: Key, spent: bool, fs: seq<set<Key>>)
    requires s.Layer? && Inv(s) && Refines(s, fs)
    ensures Inv(Mark(s, k, spent))
    ensures Refines(Mark(s, k, spent), fs[0 := if spent then fs[0] + {k} else fs[0] - {k}])
  {
    var gs := fs[0 := if spent then fs[0] + {k} else fs[0] - {k}];
    assert gs[1..] == fs[1..];
  }

  /** Flushing gives the parent the child's set of spent nullifiers. */
  lemma FlushKeeps(s: NullifierStack, fs: seq<set<Key>>)
    requires s.Layer? && Inv(s) && Refines(s, fs)
    ensures Inv(Flush(s)) && |fs| > 1 && Refines(Flush(s), fs[1 := fs[0]])
  {
    var gs := fs[1 := fs[0]];
    forall k ensures Spent(Flush(s).below, k) == Spent(s, k) {}
    assert gs[1..][1..] == fs[1..][1..];
    assert Refines(Flush(s).below, gs[1..]);
  }
}
