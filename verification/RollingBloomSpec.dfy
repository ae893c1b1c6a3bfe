/**
 The rolling bloom filter. A cell of the filter remembers in two bits the generation in which it
 was last set; generations are numbered 1, 2, 3, 1, ... and starting one wipes the cells that
 still carry its number. The reference below keeps the whole history of inserted keys instead.
 */
module RollingBloomSpec {
  import opened Powers

  type Key = seq<int>

  const WORD_BITS := 64
  const UINT32 := 0x1_0000_0000

  /** The hash functions and the size of the filter, in words; the words come in pairs. */
  datatype Config = Config(hash: (nat, Key) -> nat, hashFuncs: nat, pairs: nat, perGeneration: nat)

  ghost predicate ConfigOk(c: Config) {
    c.pairs > 0 && c.perGeneration > 0
  }

  /** A bit position of a pair of words. */
  datatype Cell = Cell(pair: nat, bit: nat)

  function FastMod(x: nat, n: nat): nat {
    (x * n) / UINT32
  }

  lemma FastModInRange(x: nat, n: nat)
    requires x < UINT32 && n > 0
    ensures FastMod(x, n) < n
  {
    MulLt(x, UINT32, n);
    DivBound(x * n, UINT32);
  }

  /** The word a hash selects: the lowest bit of the position is ignored. */
  function PairOf(c: Config, x: nat): nat {
    FastMod(x % UINT32, 2 * c.pairs) / 2
  }

  function CellOf(c: Config, n: nat, key: Key): Cell {
    Cell(PairOf(c, c.hash(n, key)), c.hash(n, key) % WORD_BITS)
  }

  lemma CellInRange(c: Config, n: nat, key: Key)
    requires c.pairs > 0
    ensures InFilter(c, CellOf(c, n, key))
  {
    FastModInRange(c.hash(n, key) % UINT32, 2 * c.pairs);
  }

  /** The bit is the hash modulo 64, and the pair grows in proportion to the hash over the whole filter. */
  lemma CellExact(c: Config, n: nat, key: Key, x: nat)
    requires c.pairs > 0 && x == c.hash(n, key) % 0x1_0000_0000
    ensures CellOf(c, n, key).bit == x % 64
    ensures var pair := CellOf(c, n, key).pair;
      pair * 0x1_0000_0000 <= x * c.pairs < (pair + 1) * 0x1_0000_0000
  {
    LowBits(c.hash(n, key));
    PairShare(x * c.pairs, FastMod(x, 2 * c.pairs), x, c.pairs);
  }

  lemma LowBits(h: nat)
    ensures h % WORD_BITS == h % UINT32 % WORD_BITS
  {
    assert h == UINT32 * (h / UINT32) + h % UINT32;
  }

  lemma PairShare(p: nat, word: nat, x: nat, pairs: nat)
    requires p == x * pairs && word == FastMod(x, 2 * pairs)
    ensures word / 2 * UINT32 <= p < (word / 2 + 1) * UINT32
  {
    assert x * (2 * pairs) == 2 * p;
  }

  /** One of the first n hash functions selects the cell. */
  predicate HitsBelow(c: Config, n: nat, key: Key, cell: Cell) {
    exists m :: 0 <= m < n && CellOf(c, m, key) == cell
  }

  predicate Hits(c: Config, key: Key, cell: Cell) {
    HitsBelow(c, c.hashFuncs, key, cell)
  }

  predicate InFilter(c: Config, cell: Cell) {
    cell.pair < c.pairs && cell.bit < WORD_BITS
  }

  // ----- Generations -----

  /** The number of the generation, counted from 0, and its entries so far, after n insertions. */
  datatype Clock = Clock(generation: nat, entries: nat)

  function Tick(per: nat, k: Clock): Clock {
    if k.entries == per then Clock(k.generation + 1, 1) else k.(entries := k.entries + 1)
  }

  function ClockAt(per: nat, n: nat): Clock {
    if n == 0 then Clock(0, 0) else Tick(per, ClockAt(per, n - 1))
  }

  lemma {:induction false} ClockSum(per: nat, n: nat)
    requires per > 0
    ensures var k := ClockAt(per, n);
      k.entries <= per && Times(per, k.generation) + k.entries == n && (n > 0 ==> k.entries > 0)
  {
    if n > 0 { ClockSum(per, n - 1); }
  }

  lemma {:induction false} ClockMono(per: nat, m: nat, n: nat)
    requires m <= n
    ensures ClockAt(per, m).generation <= ClockAt(per, n).generation
    decreases n
  {
    if m < n { ClockMono(per, m, n - 1); }
  }

  /** The last two full generations and the entries of the current one are at most two generations old. */
  lemma RecentGeneration(per: nat, m: nat, n: nat)
    requires per > 0 && 0 < m <= n && m > n - 2 * per - ClockAt(per, n).entries
    ensures ClockAt(per, m).generation >= ClockAt(per, n).generation - 2
  {
    var e, f := ClockAt(per, m), ClockAt(per, n);
    ClockSum(per, m);
    ClockSum(per, n);
    if e.generation <= f.generation - 3 {
      TimesIs(per, e.generation);
      TimesIs(per, f.generation);
      MulLe(e.generation, f.generation - 3, per);
    }
  }

  // ----- The history -----

  /** The generation in which a cell was last set, or -1. */
  function LastSet(c: Config, keys: seq<Key>, cell: Cell): int {
    if keys == [] then -1
    else if Hits(c, keys[|keys| - 1], cell) then ClockAt(c.perGeneration, |keys|).generation
    else LastSet(c, keys[..|keys| - 1], cell)
  }

  /** The two-bit number of a generation. */
  function NumberOf(generation: int): int {
    generation % 3 + 1
  }

  /** The mark a cell carries: the number of its generation while that is at most two generations old. */
  function Mark(generation: int, lastSet: int): int {
    if lastSet < 0 || lastSet < generation - 2 then 0 else NumberOf(lastSet)
  }

  function MarkOf(c: Config, keys: seq<Key>, cell: Cell): int {
    Mark(ClockAt(c.perGeneration, |keys|).generation, LastSet(c, keys, cell))
  }

  /** All cells of a key are marked. */
  predicate Contained(c: Config, keys: seq<Key>, key: Key) {
    forall n :: 0 <= n < c.hashFuncs ==> MarkOf(c, keys, CellOf(c, n, key)) != 0
  }

  lemma {:induction false} LastSetBounds(c: Config, keys: seq<Key>, cell: Cell)
    ensures -1 <= LastSet(c, keys, cell) <= ClockAt(c.perGeneration, |keys|).generation
  {
    if keys != [] {
      LastSetBounds(c, keys[..|keys| - 1], cell);
      ClockMono(c.perGeneration, |keys| - 1, |keys|);
    }
  }

  /** A cell is not older than the last insertion of a key that sets it. */
  lemma {:induction false} SetSince(c: Config, keys: seq<Key>, i: nat, cell: Cell)
    requires i < |keys| && Hits(c, keys[i], cell)
    ensures LastSet(c, keys, cell) >= ClockAt(c.perGeneration, i + 1).generation
  {
    var n := |keys| - 1;
    if Hits(c, keys[n], cell) {
      ClockMono(c.perGeneration, i + 1, n + 1);
    } else {
      SetSince(c, keys[..n], i, cell);
    }
  }

  /** Whatever set a cell last is a key of that generation. */
  lemma {:induction false} LastSetBy(c: Config, keys: seq<Key>, cell: Cell) returns (i: nat)
    requires LastSet(c, keys, cell) >= 0
    ensures i < |keys| && Hits(c, keys[i], cell)
    ensures ClockAt(c.perGeneration, i + 1).generation == LastSet(c, keys, cell)
    decreases |keys|
  {
    var n := |keys| - 1;
    if Hits(c, keys[n], cell) {
      i := n;
    } else {
      i := LastSetBy(c, keys[..n], cell);
    }
  }

  /** Nothing is contained without a cause: each cell of the key was set by a key of the last three generations. */
  lemma ContainedCause(c: Config, keys: seq<Key>, key: Key, n: nat) returns (i: nat)
    requires Contained(c, keys, key) && n < c.hashFuncs
    ensures i < |keys| && Hits(c, keys[i], CellOf(c, n, key))
    ensures ClockAt(c.perGeneration, i + 1).generation >= ClockAt(c.perGeneration, |keys|).generation - 2
  {
    assert MarkOf(c, keys, CellOf(c, n, key)) != 0;
    i := LastSetBy(c, keys, CellOf(c, n, key));
  }

  /** The filter contains each of the keys of the last two full generations and of the current one. */
  lemma RecentContained(c: Config, keys: seq<Key>, i: nat)
    requires ConfigOk(c) && i < |keys|
    requires i >= |keys| - 2 * c.perGeneration - ClockAt(c.perGeneration, |keys|).entries
    ensures Contained(c, keys, keys[i])
  {
    forall n | 0 <= n < c.hashFuncs ensures MarkOf(c, keys, CellOf(c, n, keys[i])) != 0 {
      var cell := CellOf(c, n, keys[i]);
      assert Hits(c, keys[i], cell);
      SetSince(c, keys, i, cell);
      RecentGeneration(c.perGeneration, i + 1, |keys|);
    }
  }

  /** At least as many as promised when the filter was made. */
  lemma PromisedContained(c: Config, keys: seq<Key>, i: nat, nElements: nat)
    requires ConfigOk(c) && c.perGeneration == (nElements + 1) / 2 && i < |keys| && i >= |keys| - nElements
    ensures Contained(c, keys, keys[i])
  {
    RecentContained(c, keys, i);
  }

  // ----- How marks change -----

  /** Starting a generation wipes exactly the marks that carry its number. */
  lemma Wiped(generation: nat, lastSet: int)
    requires -1 <= lastSet <= generation
    ensures Mark(generation + 1, lastSet) ==
      if Mark(generation, lastSet) == NumberOf(generation + 1) then 0 else Mark(generation, lastSet)
  {
  }

  lemma LastSetNext(c: Config, keys: seq<Key>, key: Key, cell: Cell)
    ensures LastSet(c, keys + [key], cell) ==
      if Hits(c, key, cell) then ClockAt(c.perGeneration, |keys| + 1).generation else LastSet(c, keys, cell)
  {
    assert (keys + [key])[..|keys|] == keys;
  }

  /** The mark a cell gets from one more key: the current number, or a wipe if a generation starts. */
  function Remarked(mark: int, hit: bool, k: Clock, k': Clock): int {
    if hit then NumberOf(k'.generation)
    else if k'.generation != k.generation && mark == NumberOf(k'.generation) then 0
    else mark
  }

  lemma MarkNext(c: Config, keys: seq<Key>, key: Key, cell: Cell, k: Clock, k': Clock)
    requires k == ClockAt(c.perGeneration, |keys|) && k' == Tick(c.perGeneration, k)
    ensures MarkOf(c, keys + [key], cell) == Remarked(MarkOf(c, keys, cell), Hits(c, key, cell), k, k')
  {
    LastSetNext(c, keys, key, cell);
    LastSetBounds(c, keys, cell);
    Wiped(k.generation, LastSet(c, keys, cell));
  }
}
