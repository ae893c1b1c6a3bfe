/**
 The rolling bloom filter's own code: pairs of 64-bit words, updated in place with masks.
 A word is the sequence of its bits, so that the bitwise operators are pointwise.
 */
module RollingBloom {
  import opened RollingBloomSpec

  type Word = s: seq<bool> | |s| == 64 witness seq(64, i => false)

  function Fill(v: bool): Word { seq(64, i => v) }
  function And(a: Word, b: Word): Word { seq(64, i requires 0 <= i < 64 => a[i] && b[i]) }
  function Or(a: Word, b: Word): Word { seq(64, i requires 0 <= i < 64 => a[i] || b[i]) }
  function Xor(a: Word, b: Word): Word { seq(64, i requires 0 <= i < 64 => a[i] != b[i]) }
  function Not(a: Word): Word { seq(64, i requires 0 <= i < 64 => !a[i]) }

  /** The bit v, shifted left. */
  function Shifted(v: bool, bit: nat): Word { seq(64, i => v && i == bit) }

  /** The two bits of a generation number, and back. */
  function Low(g: int): bool { g % 2 == 1 }
  function High(g: int): bool { g / 2 == 1 }
  function Join(low: bool, high: bool): int { (if low then 1 else 0) + if high then 2 else 0 }

  /** The mark of a cell: one bit from each word of its pair. */
  function MarkIn(ws: seq<Word>, cell: Cell): int
    requires 2 * cell.pair + 1 < |ws| && cell.bit < 64
  {
    Join(ws[2 * cell.pair][cell.bit], ws[2 * cell.pair + 1][cell.bit])
  }

  /** The masks leave a bit of both words unless the two spell the generation's number. */
  lemma MaskWipes(p1: Word, p2: Word, g: int, bit: nat)
    requires 1 <= g <= 3 && bit < 64
    ensures var mask := Or(Xor(p1, Fill(Low(g))), Xor(p2, Fill(High(g))));
      Join(And(p1, mask)[bit], And(p2, mask)[bit]) == if Join(p1[bit], p2[bit]) == g then 0 else Join(p1[bit], p2[bit])
  {
  }

  lemma SettingBit(w: Word, v: bool, bit: nat, b: nat)
    requires bit < 64 && b < 64
    ensures Or(And(w, Not(Shifted(true, bit))), Shifted(v, bit))[b] == if b == bit then v else w[b]
  {
  }

  class RollingBloomFilter {
    var config: Config
    const data: array<Word>
    var nEntriesThisGeneration: nat
    var nGeneration: int
    /** The keys inserted since the last reset. */
    ghost var keys: seq<Key>

    ghost predicate Shape()
      reads this
    {
      ConfigOk(config) && data.Length == 2 * config.pairs
    }

    ghost predicate CellOk(cell: Cell)
      requires Shape()
      reads this, data
    {
      InFilter(config, cell) ==> MarkIn(data[..], cell) == MarkOf(config, keys, cell)
    }

    ghost predicate Valid()
      reads this, data
    {
      && Shape()
      && ClockAt(config.perGeneration, |keys|).entries == nEntriesThisGeneration
      && nGeneration == NumberOf(ClockAt(config.perGeneration, |keys|).generation)
      && forall cell {:trigger CellOk(cell)} :: CellOk(cell)
    }

    /** A filter of the given size; the sizes are computed from a rate that is not modelled. */
    constructor (config: Config)
      requires ConfigOk(config)
      ensures Valid() && this.config == config && fresh(data) && keys == []
    {
      this.config := config;
      data := new Word[2 * config.pairs](i => Fill(false));
      nEntriesThisGeneration, nGeneration, keys := 0, 1, [];
      new;
      forall cell ensures CellOk(cell) {
      }
    }

    /** Empties the filter and draws a new tweak, which gives other hash functions. */
    method Reset(hash: (nat, Key) -> nat)
      requires Shape()
      modifies this, data
      ensures Valid() && keys == [] && config == old(config).(hash := hash)
    {
      config := config.(hash := hash);
      nEntriesThisGeneration := 0;
      nGeneration := 1;
      keys := [];
      var i := 0;
      while i < data.Length
        invariant 0 <= i <= data.Length && config == old(config).(hash := hash)
        invariant nEntriesThisGeneration == 0 && nGeneration == 1 && keys == []
        invariant forall j :: 0 <= j < i ==> data[j] == Fill(false)
      {
        data[i] := Fill(false);
        i := i + 1;
      }
      forall cell ensures CellOk(cell) {
      }
    }

    /** Clears the cells marked with a generation's number. */
    method Wipe(g: int)
      requires Shape() && 1 <= g <= 3
      modifies data
      ensures forall cell :: InFilter(config, cell) ==>
        MarkIn(data[..], cell) == if MarkIn(old(data[..]), cell) == g then 0 else MarkIn(old(data[..]), cell)
    {
      ghost var ws := data[..];
      var p, q := 0, 0;
      while p < data.Length
        invariant p == 2 * q && q <= config.pairs
        invariant forall i :: p <= i < data.Length ==> data[i] == ws[i]
        invariant forall cell :: InFilter(config, cell) && cell.pair < q ==>
          MarkIn(data[..], cell) == if MarkIn(ws, cell) == g then 0 else MarkIn(ws, cell)
      {
        var p1, p2 := data[p], data[p + 1];
        var mask := Or(Xor(p1, Fill(Low(g))), Xor(p2, Fill(High(g))));
        data[p] := And(p1, mask);
        data[p + 1] := And(p2, mask);
        forall bit: nat | bit < 64
          ensures Join(data[p][bit], data[p + 1][bit]) ==
            if Join(p1[bit], p2[bit]) == g then 0 else Join(p1[bit], p2[bit])
        {
          MaskWipes(p1, p2, g, bit);
        }
        p := p + 2;
        q := q + 1;
      }
    }

    /** Marks the cell that one hash function selects. */
    method SetCell(n: nat, key: Key, g: int)
      requires Shape() && 1 <= g <= 3
      modifies data
      ensures forall cell :: InFilter(config, cell) ==>
        MarkIn(data[..], cell) == if cell == CellOf(config, n, key) then g else MarkIn(old(data[..]), cell)
    {
      ghost var ws := data[..];
      var h := config.hash(n, key);
      var bit := h % 64;
      FastModInRange(h % UINT32, data.Length);
      var pos := FastMod(h % UINT32, data.Length);
      var even, odd := pos - pos % 2, pos - pos % 2 + 1;
      data[even] := Or(And(data[even], Not(Shifted(true, bit))), Shifted(Low(g), bit));
      data[odd] := Or(And(data[odd], Not(Shifted(true, bit))), Shifted(High(g), bit));
      forall cell | InFilter(config, cell)
        ensures MarkIn(data[..], cell) == if cell == CellOf(config, n, key) then g else MarkIn(ws, cell)
      {
        SettingBit(ws[even], Low(g), bit, cell.bit);
        SettingBit(ws[odd], High(g), bit, cell.bit);
      }
    }

    /** Counts one more entry and starts a generation when the current one is full. */
    method Advance()
      requires Valid()
      modifies this`nEntriesThisGeneration, this`nGeneration, data
      ensures var k := ClockAt(config.perGeneration, |keys|);
        var k' := Tick(config.perGeneration, k);
        && nEntriesThisGeneration == k'.entries && nGeneration == NumberOf(k'.generation)
        && forall cell :: InFilter(config, cell) ==>
             MarkIn(data[..], cell) == Remarked(MarkOf(config, keys, cell), false, k, k')
    {
      forall cell | InFilter(config, cell) ensures MarkIn(data[..], cell) == MarkOf(config, keys, cell) {
        assert CellOk(cell);
      }
      if nEntriesThisGeneration == config.perGeneration {
        nEntriesThisGeneration := 0;
        nGeneration := nGeneration + 1;
        if nGeneration == 4 {
          nGeneration := 1;
        }
        Wipe(nGeneration);
      }
      nEntriesThisGeneration := nEntriesThisGeneration + 1;
    }

    method Insert(key: Key)
      requires Valid()
      modifies this`nEntriesThisGeneration, this`nGeneration, this`keys, data
      ensures Valid() && keys == old(keys) + [key]
    {
      ghost var k := ClockAt(config.perGeneration, |keys|);
      ghost var k' := Tick(config.perGeneration, k);
      Advance();
      var n := 0;
      while n < config.hashFuncs
        invariant n <= config.hashFuncs && keys == old(keys)
        invariant nGeneration == NumberOf(k'.generation) && nEntriesThisGeneration == k'.entries
        invariant forall cell :: InFilter(config, cell) ==>
          MarkIn(data[..], cell) == Remarked(MarkOf(config, keys, cell), HitsBelow(config, n, key, cell), k, k')
      {
        SetCell(n, key, nGeneration);
        n := n + 1;
      }
      forall cell | InFilter(config, cell) ensures MarkIn(data[..], cell) == MarkOf(config, keys + [key], cell) {
        MarkNext(config, keys, key, cell, k, k');
      }
      keys := keys + [key];
      forall cell ensures CellOk(cell) {
      }
    }

    /** Exactly the keys whose cells are all marked. */
    method Contains(key: Key) returns (r: bool)
      requires Valid()
      ensures r == Contained(config, keys, key)
    {
      var n := 0;
      while n < config.hashFuncs
        invariant n <= config.hashFuncs
        invariant forall m :: 0 <= m < n ==> MarkOf(config, keys, CellOf(config, m, key)) != 0
      {
        var h := config.hash(n, key);
        var bit := h % 64;
        FastModInRange(h % UINT32, data.Length);
        var pos := FastMod(h % UINT32, data.Length);
        assert InFilter(config, CellOf(config, n, key)) && CellOk(CellOf(config, n, key));
        if !Or(data[pos - pos % 2], data[pos - pos % 2 + 1])[bit] {
          return false;
        }
        n := n + 1;
      }
      return true;
    }
  }
}
