/** The block index with its skip list, and the active chain as an array of blocks by height. */
module Chain {
  import opened Basics
  import opened Powers

  // ----- Skip heights -----

  /** Bitwise and. */
  function And(x: nat, y: nat): nat {
    if x == 0 || y == 0 then 0 else 2 * And(x / 2, y / 2) + if x % 2 == 1 && y % 2 == 1 then 1 else 0
  }

  /** Turns the lowest set bit of a number into a zero. */
  function InvertLowestOne(n: nat): nat {
    if n == 0 then 0 else And(n, n - 1)
  }

  function SkipHeight(height: nat): nat {
    if height < 2 then 0
    else if height % 2 == 1 then InvertLowestOne(InvertLowestOne(height - 1)) + 1
    else InvertLowestOne(height)
  }

  lemma {:induction false} AndSelf(x: nat)
    ensures And(x, x) == x
  {
    if x > 0 { AndSelf(x / 2); }
  }

  /** The result is smaller, and even numbers stay even. */
  lemma {:induction false} InvertBelow(n: nat)
    requires n > 0
    ensures InvertLowestOne(n) < n && (n % 2 == 0 ==> InvertLowestOne(n) % 2 == 0)
  {
    if n % 2 == 1 {
      AndSelf(n / 2);
    } else {
      InvertBelow(n / 2);
    }
  }

  lemma InvertDouble(half: nat, n: nat)
    requires half > 0 && n == 2 * half
    ensures InvertLowestOne(n) == 2 * InvertLowestOne(half)
  {
    assert n / 2 == half && (n - 1) / 2 == half - 1;
  }

  lemma InvertOdd(n: nat)
    requires n % 2 == 1
    ensures InvertLowestOne(n) == n - 1
  {
    AndSelf(n / 2);
    assert (n - 1) / 2 == n / 2;
  }

  /** Exactly the lowest set bit is cleared. */
  lemma {:induction false} InvertExact(n: nat, k: nat, m: nat)
    requires n == Doubled(2 * m + 1, k)
    ensures InvertLowestOne(n) == Doubled(2 * m, k)
    decreases k
  {
    if k == 0 {
      InvertOdd(n);
    } else {
      var half := Doubled(2 * m + 1, k - 1);
      DoubledLess(0, 2 * m + 1, k - 1);
      DoubledIs(0, k - 1);
      InvertDouble(half, n);
      InvertExact(half, k - 1, m);
    }
  }

  /** An even height skips its lowest set bit; an odd one the two lowest of the height below it. */
  lemma SkipExact(height: nat, k: nat, m: nat, rest: nat)
    requires k > 0 && rest == Doubled(2 * m, k)
    ensures height == Doubled(2 * m + 1, k) ==> SkipHeight(height) == rest
    ensures height == Doubled(2 * m + 1, k) + 1 ==> SkipHeight(height) == InvertLowestOne(rest) + 1
  {
    DoubledLess(0, 2 * m + 1, k);
    DoubledIs(0, k);
    InvertExact(Doubled(2 * m + 1, k), k, m);
  }

  lemma SkipBelow(height: nat)
    requires height > 0
    ensures SkipHeight(height) < height
  {
    if height >= 2 {
      if height % 2 == 1 {
        InvertBelow(height - 1);
        if InvertLowestOne(height - 1) > 0 { InvertBelow(InvertLowestOne(height - 1)); }
      } else {
        InvertBelow(height);
      }
    }
  }

  // ----- Blocks -----

  /** A block of the index; its links are set when it is added and stay. */
  class BlockIndex {
    const pprev: BlockIndex?
    const nHeight: nat
    const pskip: BlockIndex?

    /** Genesis has no links. */
    constructor Genesis()
      ensures Linked(this) && nHeight == 0
    {
      pprev, nHeight, pskip := null, 0, null;
    }

    /** A block on top of another; BuildSkip finds its skip pointer. */
    constructor (prev: BlockIndex)
      requires Linked(prev)
      ensures Linked(this) && pprev == prev && nHeight == prev.nHeight + 1
      ensures SkipHeight(nHeight) < nHeight && pskip == Back(this, SkipHeight(nHeight))
    {
      SkipBelow(prev.nHeight + 1);
      var skip := prev.GetAncestor(SkipHeight(prev.nHeight + 1));
      pprev, nHeight, pskip := prev, prev.nHeight + 1, skip;
    }

    /** The ancestor at a height over skip pointers is the one a walk back finds; there is none out of range. */
    method GetAncestor(height: int) returns (r: BlockIndex?)
      requires Linked(this)
      ensures 0 <= height <= nHeight ==> r == Back(this, height)
      ensures !(0 <= height <= nHeight) ==> r == null
    {
      if height > nHeight || height < 0 {
        return null;
      }
      var pindexWalk: BlockIndex, heightWalk := this, nHeight;
      while heightWalk > height
        invariant height <= heightWalk == pindexWalk.nHeight && Linked(pindexWalk)
        invariant Back(pindexWalk, height) == Back(this, height)
      {
        SkipBelow(heightWalk);
        var heightSkip := SkipHeight(heightWalk);
        var heightSkipPrev := SkipHeight(heightWalk - 1);
        if pindexWalk.pskip != null &&
           (heightSkip == height ||
             (heightSkip > height && !(heightSkipPrev < heightSkip - 2 && heightSkipPrev >= height)))
        {
          BackBack(pindexWalk, heightSkip, height);
          BackLinked(pindexWalk, heightSkip);
          pindexWalk := pindexWalk.pskip;
          heightWalk := heightSkip;
        } else {
          assert pindexWalk.pprev != null;
          pindexWalk := pindexWalk.pprev;
          heightWalk := heightWalk - 1;
        }
      }
      r := pindexWalk;
    }
  }

  /** Heights count the blocks below. */
  ghost predicate Rooted(b: BlockIndex)
    decreases b.nHeight
  {
    if b.pprev == null then b.nHeight == 0 else b.nHeight == b.pprev.nHeight + 1 && Rooted(b.pprev)
  }

  /** The ancestor at a height, by walking back block by block. */
  ghost function Back(b: BlockIndex, h: nat): (r: BlockIndex)
    requires Rooted(b) && h <= b.nHeight
    ensures Rooted(r) && r.nHeight == h
    decreases b.nHeight
  {
    if b.nHeight == h then b else Back(b.pprev, h)
  }

  /** Also, a skip pointer leads to the ancestor at the skip height. */
  ghost predicate Linked(b: BlockIndex)
    decreases b.nHeight
  {
    && Rooted(b)
    && (b.pprev != null ==> Linked(b.pprev))
    && (b.pskip != null ==> SkipHeight(b.nHeight) < b.nHeight && b.pskip == Back(b, SkipHeight(b.nHeight)))
  }

  lemma {:induction false} BackLinked(b: BlockIndex, h: nat)
    requires Linked(b) && h <= b.nHeight
    ensures Linked(Back(b, h))
    decreases b.nHeight
  {
    if h < b.nHeight { BackLinked(b.pprev, h); }
  }

  lemma {:induction false} BackBack(b: BlockIndex, h: nat, k: nat)
    requires Rooted(b) && k <= h <= b.nHeight
    ensures Back(Back(b, h), k) == Back(b, k)
    decreases b.nHeight
  {
    if h < b.nHeight { BackBack(b.pprev, h, k); }
  }

  // ----- The active chain -----

  /** The blocks from genesis to b, by height. */
  ghost function Path(b: BlockIndex): (r: seq<BlockIndex?>)
    requires Rooted(b)
    ensures |r| == b.nHeight + 1
    decreases b.nHeight
  {
    if b.pprev == null then [b] else Path(b.pprev) + [b]
  }

  lemma {:induction false} PathAt(b: BlockIndex, h: nat)
    requires Rooted(b) && h <= b.nHeight
    ensures Path(b)[h] == Back(b, h)
    decreases b.nHeight
  {
    if h < b.nHeight { PathAt(b.pprev, h); }
  }

  class Chain {
    var vChain: seq<BlockIndex?>

    /** The chain is empty or holds the ancestors of its last block. */
    ghost predicate Valid()
      reads this
    {
      vChain != [] ==>
        var tip := vChain[|vChain| - 1]; tip != null && Linked(tip) && vChain == Path(tip)
    }

    constructor ()
      ensures Valid() && vChain == []
    {
      vChain := [];
    }

    function Height(): int
      reads this
    {
      |vChain| - 1
    }

    function At(nHeight: int): BlockIndex?
      reads this
    {
      if nHeight < 0 || nHeight >= |vChain| then null else vChain[nHeight]
    }

    predicate Contains(pindex: BlockIndex)
      reads this
    {
      At(pindex.nHeight) == pindex
    }

    function Tip(): BlockIndex?
      reads this
    {
      if |vChain| > 0 then vChain[|vChain| - 1] else null
    }

    /** A block is in the chain exactly when it is the tip's ancestor at its height. */
    lemma ContainsIff(pindex: BlockIndex)
      requires Valid() && Linked(pindex)
      ensures Contains(pindex) <==>
        Tip() != null && pindex.nHeight <= Tip().nHeight && Back(Tip(), pindex.nHeight) == pindex
    {
      if vChain != [] && pindex.nHeight < |vChain| { PathAt(Tip(), pindex.nHeight); }
    }

    /** Stops as soon as it meets a block that is already in place; the whole chain is right all the same. */
    method SetTip(pindex: BlockIndex?)
      requires Valid() && (pindex != null ==> Linked(pindex))
      modifies this
      ensures Valid()
      ensures pindex == null ==> vChain == []
      ensures pindex != null ==> vChain == Path(pindex)
    {
      if pindex == null {
        vChain := [];
        return;
      }
      ghost var was := vChain;
      var n := pindex.nHeight + 1;
      vChain := if |vChain| >= n then vChain[..n] else vChain + seq(n - |vChain|, i => null);
      var walk: BlockIndex? := pindex;
      ghost var todo := n;
      while walk != null && vChain[walk.nHeight] != walk
        invariant |vChain| == n && 0 <= todo <= n
        invariant if walk == null then todo == 0
          else todo == walk.nHeight + 1 && Linked(walk) && walk == Back(pindex, walk.nHeight)
        invariant forall h: nat :: todo <= h < n ==> vChain[h] == Back(pindex, h)
        invariant forall h :: 0 <= h < todo ==> vChain[h] == if h < |was| then was[h] else null
        decreases todo
      {
        if walk.nHeight > 0 { BackBack(pindex, walk.nHeight, walk.nHeight - 1); }
        vChain := vChain[walk.nHeight := walk];
        todo := walk.nHeight;
        walk := walk.pprev;
      }
      if walk != null {
        Joined(was, walk, pindex, vChain);
      } else {
        AllBack(pindex, vChain);
      }
    }

    /** Below a block that the old chain holds, the old chain is already the new one. */
    static lemma Joined(was: seq<BlockIndex?>, walk: BlockIndex, pindex: BlockIndex, now: seq<BlockIndex?>)
      requires Linked(pindex) && Linked(walk) && walk.nHeight <= pindex.nHeight && walk == Back(pindex, walk.nHeight)
      requires was != [] && was[|was| - 1] != null && Linked(was[|was| - 1]) && was == Path(was[|was| - 1])
      requires walk.nHeight < |was| && was[walk.nHeight] == walk
      requires |now| == pindex.nHeight + 1
      requires forall h: nat :: h < |now| ==> now[h] == if h <= walk.nHeight then was[h] else Back(pindex, h)
      ensures now == Path(pindex)
    {
      var tip := was[|was| - 1];
      PathAt(tip, walk.nHeight);
      forall h: nat | h < |now| ensures now[h] == Back(pindex, h) {
        if h <= walk.nHeight {
          PathAt(tip, h);
          BackBack(tip, walk.nHeight, h);
          BackBack(pindex, walk.nHeight, h);
        }
      }
      AllBack(pindex, now);
    }

    static lemma AllBack(pindex: BlockIndex, now: seq<BlockIndex?>)
      requires Linked(pindex) && |now| == pindex.nHeight + 1
      requires forall h: nat :: h < |now| ==> now[h] == Back(pindex, h)
      ensures now == Path(pindex)
    {
      forall h: nat | h < |now| ensures now[h] == Path(pindex)[h] { PathAt(pindex, h); }
    }

    /** The chain and the branch of a block agree at a height. */
    ghost predicate Common(pindex: BlockIndex, h: nat)
      requires Rooted(pindex) && h <= pindex.nHeight
      reads this
    {
      At(h) == Back(pindex, h)
    }

    /** The last block that the chain and the branch of a block have in common, if there is one. */
    method FindFork(pindex: BlockIndex) returns (r: BlockIndex?)
      requires Valid() && Linked(pindex)
      ensures r != null ==> r.nHeight <= pindex.nHeight && r == Back(pindex, r.nHeight) && Contains(r)
      ensures forall h: nat :: (if r == null then 0 else r.nHeight + 1) <= h <= pindex.nHeight ==> !Common(pindex, h)
    {
      r := pindex;
      if pindex.nHeight > Height() {
        r := pindex.GetAncestor(Height());
      }
      while r != null && !Contains(r)
        invariant r != null ==> r.nHeight <= pindex.nHeight && Rooted(r) && r == Back(pindex, r.nHeight)
        invariant forall h: nat :: (if r == null then 0 else r.nHeight + 1) <= h <= pindex.nHeight ==>
          !Common(pindex, h)
        decreases if r == null then 0 else r.nHeight + 1
      {
        if r.nHeight > 0 { BackBack(pindex, r.nHeight, r.nHeight - 1); }
        r := r.pprev;
      }
    }

    /** Strictly falling ancestors of a block, from itself down to genesis. */
    static ghost predicate Descends(start: BlockIndex, have: seq<BlockIndex>) {
      && Rooted(start) && have != [] && have[0] == start
      && (forall i :: 0 <= i < |have| ==> have[i].nHeight <= start.nHeight && have[i] == Back(start, have[i].nHeight))
      && (forall i, j :: 0 <= i < j < |have| ==> have[i].nHeight > have[j].nHeight)
    }

    /** The height of entry i: ten single steps, then steps that double, down to genesis. */
    static ghost function StepHeight(height: nat, i: nat): int {
      if i <= 10 then height - i else Max(height - 9 - Pow2(i - 10), 0)
    }

    static ghost predicate EntryAt(start: BlockIndex, have: seq<BlockIndex>, i: nat)
      requires Rooted(start)
    {
      i < |have| ==>
        && have[i].nHeight <= start.nHeight && have[i] == Back(start, have[i].nHeight)
        && have[i].nHeight == StepHeight(start.nHeight, i) && (i + 1 < |have| ==> have[i].nHeight > 0)
    }

    /** The ancestors of a block at these heights, genesis at most the last of them. */
    static ghost predicate Located(start: BlockIndex, have: seq<BlockIndex>) {
      Rooted(start) && forall i: nat {:trigger EntryAt(start, have, i)} :: EntryAt(start, have, i)
    }

    static lemma StepsFall(height: nat, i: nat, j: nat)
      requires i < j && StepHeight(height, i) > 0
      ensures StepHeight(height, i) > StepHeight(height, j)
    {
      if i > 10 {
        Pow2Mono(i - 10 + 1, j - 10);
      } else if j > 10 {
        Pow2AtLeast(j - 10);
        assert Pow2(1) == 2;
        Pow2Mono(1, j - 10);
      }
    }

    /** The entries of a locator are strictly falling ancestors, and few. */
    static lemma LocatedEnds(start: BlockIndex, have: seq<BlockIndex>)
      requires Located(start, have) && have != [] && have[|have| - 1].nHeight == 0
      ensures Descends(start, have) && |have| <= 12 + Log2(start.nHeight + 1)
      ensures forall i :: 0 <= i < |have| ==> have[i].nHeight == StepHeight(start.nHeight, i)
    {
      assert EntryAt(start, have, 0);
      forall i | 0 <= i < |have|
        ensures have[i].nHeight <= start.nHeight && have[i] == Back(start, have[i].nHeight)
        ensures have[i].nHeight == StepHeight(start.nHeight, i)
      {
        assert EntryAt(start, have, i);
      }
      forall i: nat, j: nat | i < j < |have| ensures have[i].nHeight > have[j].nHeight {
        assert EntryAt(start, have, i) && EntryAt(start, have, j);
        StepsFall(start.nHeight, i, j);
      }
      if |have| > 12 {
        assert EntryAt(start, have, |have| - 2);
        LocatorLength(start.nHeight, |have| - 2);
      }
    }

    /** Blocks by which a peer can find where its chain leaves this one: few, for any height. */
    method GetLocator(pindex: BlockIndex?) returns (vHave: seq<BlockIndex>)
      requires Valid() && (pindex != null ==> Linked(pindex))
      ensures var start := if pindex != null then pindex else Tip();
        if start == null then vHave == []
        else
          && Descends(start, vHave)
          && vHave[|vHave| - 1].nHeight == 0
          && (forall i :: 0 <= i < |vHave| ==>
              vHave[i].nHeight == if i <= 10 then start.nHeight - i else Max(start.nHeight - 9 - Pow2(i - 10), 0))
          && |vHave| <= 12 + Log2(start.nHeight + 1)
    {
      vHave := [];
      var start := if pindex != null then pindex else Tip();
      if start == null {
        return;
      }
      vHave := LocatorFrom(start);
    }

    method LocatorFrom(start: BlockIndex) returns (vHave: seq<BlockIndex>)
      requires Valid() && Linked(start)
      ensures Descends(start, vHave) && vHave[|vHave| - 1].nHeight == 0
      ensures forall i :: 0 <= i < |vHave| ==> vHave[i].nHeight == StepHeight(start.nHeight, i)
      ensures |vHave| <= 12 + Log2(start.nHeight + 1)
    {
      vHave := [];
      var nStep := 1;
      var walk: BlockIndex := start;
      while true
        invariant Linked(walk) && walk.nHeight <= start.nHeight && walk == Back(start, walk.nHeight)
        invariant Located(start, vHave) && (vHave != [] ==> vHave[|vHave| - 1].nHeight > 0)
        invariant walk.nHeight == StepHeight(start.nHeight, |vHave|)
        invariant nStep == if |vHave| <= 10 then 1 else Pow2(|vHave| - 10)
        decreases walk.nHeight
      {
        OneMore(start, vHave, walk);
        vHave := vHave + [walk];
        if walk.nHeight == 0 {
          LocatedEnds(start, vHave);
          return;
        }
        StepOn(start.nHeight, |vHave| - 1, walk.nHeight, nStep);
        var nHeight := Max(walk.nHeight - nStep, 0);
        BackBack(start, walk.nHeight, nHeight);
        BackLinked(walk, nHeight);
        walk := JumpTo(walk, nHeight);
        if |vHave| > 10 {
          nStep := nStep * 2;
        }
      }
    }

    static lemma OneMore(start: BlockIndex, have: seq<BlockIndex>, walk: BlockIndex)
      requires Located(start, have) && (have != [] ==> have[|have| - 1].nHeight > 0)
      requires walk.nHeight <= start.nHeight && walk == Back(start, walk.nHeight)
      requires walk.nHeight == StepHeight(start.nHeight, |have|)
      ensures Located(start, have + [walk])
    {
      forall i: nat ensures EntryAt(start, have + [walk], i) { assert EntryAt(start, have, i); }
    }

    /** The ancestor at a height: by the array if the block is in the chain, else over skip pointers. */
    method JumpTo(walk: BlockIndex, nHeight: nat) returns (next: BlockIndex)
      requires Valid() && Linked(walk) && nHeight <= walk.nHeight
      ensures next == Back(walk, nHeight)
    {
      if Contains(walk) {
        ContainsIff(walk);
        PathAt(Tip(), nHeight);
        BackBack(Tip(), walk.nHeight, nHeight);
        next := At(nHeight);
      } else {
        next := walk.GetAncestor(nHeight);
      }
    }

    static lemma StepOn(height: nat, n: nat, at: int, step: int)
      requires at == StepHeight(height, n) && at > 0 && step == if n <= 10 then 1 else Pow2(n - 10)
      ensures Max(at - step, 0) == StepHeight(height, n + 1) && step > 0
      ensures (if n + 1 > 10 then step * 2 else step) == if n + 1 <= 10 then 1 else Pow2(n + 1 - 10)
    {
      if n == 10 { assert Pow2(1) == 2; }
    }

    static lemma LocatorLength(height: nat, n: nat)
      requires StepHeight(height, n) > 0
      ensures n <= 10 + Log2(height + 1)
    {
      if n > 10 { Log2AtLeast(height + 1, n - 10); }
    }
  }
}
