/**
 One best hash (best block, or best anchor of a pool) in a stack of caches.

 A null hash in a cache means "ask the parent". Flush copies the child's hash to the parent
 even when it is null; the data base ignores a null hash.
 */
module HashStack {
  import opened CoinsTypes

  type HashStack = Stack<Uint256, Uint256>

  function Best(s: HashStack): Uint256 {
    match s
    case Base(h) => h
    case Layer(h, below) => if h != NULL_HASH then h else Best(below)
  }

  /** The stack after GetBestBlock or GetBestAnchor. */
  function Fetch(s: HashStack): HashStack {
    if s.Base? || s.top != NULL_HASH then s else Layer(Best(s.below), Fetch(s.below))
  }

  function Set(s: HashStack, h: Uint256): HashStack
    requires s.Layer?
  {
    Layer(h, s.below)
  }

  function Flush(s: HashStack): (r: HashStack)
    requires s.Layer?
    ensures r.Layer? && Depth(r) == Depth(s)
  {
    match s.below
    case Base(db) => Layer(s.top, Base(if s.top != NULL_HASH then s.top else db))
    case Layer(parent, below) => Layer(s.top, Layer(s.top, below))
  }

  /** When copying the hash up is harmless: it is set, or the parent holds nothing of its own. */
  predicate FlushOk(s: HashStack)
    requires s.Layer?
  {
    s.top != NULL_HASH || s.below.Base? || Best(s.below) == Best(s.below.below)
  }

  /** Flushing hands the child's best hash to the parent exactly when FlushOk holds. */
  lemma FlushExact(s: HashStack)
    requires s.Layer?
    ensures Best(Flush(s).below) == Best(s) <==> FlushOk(s)
  {
  }

  /** The failure: a child that never asked for the hash makes its parent forget it. */
  lemma FlushForgets(db: Uint256, h: Uint256)
    requires h != NULL_HASH && h != db
    ensures var s := Layer(NULL_HASH, Layer(h, Base(db)));
      Best(s) == h && Best(Flush(s).below) == db
  {
  }

  ghost predicate Refines(s: HashStack, fs: seq<Uint256>)
    decreases s
  {
    && fs != []
    && Best(s) == fs[0]
    && (if s.Base? then |fs| == 1 else Refines(s.below, fs[1..]))
  }

  lemma {:induction false} FetchKeeps(s: HashStack, fs: seq<Uint256>)
    requires Refines(s, fs)
    ensures Refines(Fetch(s), fs) && Depth(Fetch(s)) == Depth(s) && Best(Fetch(s)) == Best(s)
    decreases s
  {
    if s.Layer? && s.top == NULL_HASH { FetchKeeps(s.below, fs[1..]); }
  }

  lemma SetKeeps(s: HashStack, h: Uint256, fs: seq<Uint256>)
    requires s.Layer? && Refines(s, fs)
    requires h != NULL_HASH
    ensures Refines(Set(s, h), fs[0 := h])
  {
    assert fs[0 := h][1..] == fs[1..];
  }

  lemma FlushKeeps(s: HashStack, fs: seq<Uint256>)
    requires s.Layer? && Refines(s, fs) && FlushOk(s)
    ensures |fs| > 1 && Refines(Flush(s), fs[1 := fs[0]])
  {
    FlushExact(s);
    assert fs[1 := fs[0]][1..][1..] == fs[1..][1..];
  }
}
