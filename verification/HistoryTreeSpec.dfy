/**
 The history tree of ZIP 221: a Merkle mountain range stored as an array of nodes. A leaf is
 appended at the end; then, while the last two peaks have the same altitude, their parent is.
 This module is the reference: it stores real child links and keeps the list of peaks.
 */
module HistoryTreeSpec {
  import opened Powers

  datatype Node = Leaf | Parent(left: nat, right: nat)

  datatype Peak = Peak(pos: nat, alt: nat)

  datatype Mmr = Mmr(nodes: seq<Node>, peaks: seq<Peak>)

  /** The last two peaks have the same altitude. */
  predicate Mergeable(peaks: seq<Peak>) {
    |peaks| >= 2 && peaks[|peaks| - 2].alt == peaks[|peaks| - 1].alt
  }

  /** The parent of the last two peaks is stored and takes their place. */
  function MergeLast(m: Mmr): Mmr
    requires Mergeable(m.peaks)
  {
    var n := |m.peaks|;
    Mmr(m.nodes + [Parent(m.peaks[n - 2].pos, m.peaks[n - 1].pos)],
        m.peaks[..n - 2] + [Peak(|m.nodes|, m.peaks[n - 1].alt + 1)])
  }

  function MergeAll(m: Mmr): Mmr
    decreases |m.peaks|
  {
    if Mergeable(m.peaks) then MergeAll(MergeLast(m)) else m
  }

  function PushLeaf(m: Mmr): Mmr {
    Mmr(m.nodes + [Leaf], m.peaks + [Peak(|m.nodes|, 0)])
  }

  /** The tree with the given number of leaves. */
  function Grown(leaves: nat): Mmr {
    if leaves == 0 then Mmr([], []) else MergeAll(PushLeaf(Grown(leaves - 1)))
  }

  /** Appends, level by level, both children of the nodes on the right slope below a node. */
  function Slope(nodes: seq<Node>, pos: nat, before: seq<nat>): seq<nat>
    requires pos < |nodes|
    decreases pos
  {
    match nodes[pos]
    case Leaf => before
    case Parent(left, right) => if right < pos then Slope(nodes, right, before + [left] + [right]) else before
  }

  // ----- The shape of the stored tree -----

  /** The number of nodes of a perfect tree. */
  function Size(alt: nat): (r: nat)
    ensures r > 0
  {
    2 * Pow2(alt) - 1
  }

  /** The nodes of the first k peaks' trees. */
  function Start(peaks: seq<Peak>, k: nat): nat
    requires k <= |peaks|
  {
    if k == 0 then 0 else Start(peaks, k - 1) + Size(peaks[k - 1].alt)
  }

  function Leaves(peaks: seq<Peak>, k: nat): nat
    requires k <= |peaks|
  {
    if k == 0 then 0 else Leaves(peaks, k - 1) + Pow2(peaks[k - 1].alt)
  }

  /** A perfect tree is stored up to position pos, children before parents. */
  predicate Perfect(nodes: seq<Node>, pos: nat, alt: nat)
    decreases alt
  {
    && Size(alt) <= pos + 1 <= |nodes|
    && if alt == 0 then nodes[pos] == Leaf
       else
         && nodes[pos] == Parent(pos - Pow2(alt), pos - 1)
         && Perfect(nodes, pos - Pow2(alt), alt - 1)
         && Perfect(nodes, pos - 1, alt - 1)
  }

  /** Peak k tops a perfect tree that starts where the previous one ends. */
  predicate PeakOk(m: Mmr, k: nat)
    requires k < |m.peaks|
  {
    && m.peaks[k].pos + 1 == Start(m.peaks, k) + Size(m.peaks[k].alt)
    && Perfect(m.nodes, m.peaks[k].pos, m.peaks[k].alt)
  }

  predicate Falls(peaks: seq<Peak>, k: nat) {
    k + 1 < |peaks| ==> peaks[k].alt > peaks[k + 1].alt
  }

  /** The peaks are perfect trees side by side that fill the array, falling except perhaps at the end. */
  ghost predicate Stacked(m: Mmr) {
    && Start(m.peaks, |m.peaks|) == |m.nodes|
    && (forall k: nat {:trigger PeakOk(m, k)} :: k < |m.peaks| ==> PeakOk(m, k))
    && (forall k: nat {:trigger Falls(m.peaks, k)} :: k + 2 < |m.peaks| ==> Falls(m.peaks, k))
    && (|m.peaks| >= 2 ==> m.peaks[|m.peaks| - 2].alt >= m.peaks[|m.peaks| - 1].alt)
  }

  /** As above, and falling throughout. */
  ghost predicate Shaped(m: Mmr) {
    Stacked(m) && forall k: nat {:trigger Falls(m.peaks, k)} :: Falls(m.peaks, k)
  }

  lemma {:induction false} SumsSame(p: seq<Peak>, q: seq<Peak>, k: nat)
    requires k <= |p| && k <= |q| && forall i :: 0 <= i < k ==> p[i] == q[i]
    ensures Start(p, k) == Start(q, k) && Leaves(p, k) == Leaves(q, k)
  {
    if k > 0 { SumsSame(p, q, k - 1); }
  }

  lemma {:induction false} PerfectGrows(nodes: seq<Node>, nodes': seq<Node>, pos: nat, alt: nat)
    requires Perfect(nodes, pos, alt) && nodes <= nodes'
    ensures Perfect(nodes', pos, alt)
    decreases alt
  {
    if alt > 0 {
      PerfectGrows(nodes, nodes', pos - Pow2(alt), alt - 1);
      PerfectGrows(nodes, nodes', pos - 1, alt - 1);
    }
  }

  /** Old peaks that stay in place stay right when nodes are added. */
  lemma PeaksStay(m: Mmr, m': Mmr, n: nat)
    requires Stacked(m) && m.nodes <= m'.nodes
    requires n <= |m.peaks| && n <= |m'.peaks| && forall i :: 0 <= i < n ==> m.peaks[i] == m'.peaks[i]
    ensures forall k: nat {:trigger PeakOk(m', k)} :: k < n ==> PeakOk(m', k)
  {
    forall k: nat | k < n ensures PeakOk(m', k) {
      assert PeakOk(m, k);
      SumsSame(m.peaks, m'.peaks, k);
      PerfectGrows(m.nodes, m'.nodes, m.peaks[k].pos, m.peaks[k].alt);
    }
  }

  lemma FallsStay(p: seq<Peak>, q: seq<Peak>, n: nat)
    requires n <= |p| && n <= |q| && forall i :: 0 <= i < n ==> p[i] == q[i]
    requires forall k: nat {:trigger Falls(p, k)} :: k + 1 < n ==> Falls(p, k)
    ensures forall k: nat {:trigger Falls(q, k)} :: k + 1 < n ==> Falls(q, k)
  {
    forall k: nat | k + 1 < n ensures Falls(q, k) { assert Falls(p, k); }
  }

  lemma PushLeafStacked(m: Mmr)
    requires Shaped(m)
    ensures Stacked(PushLeaf(m))
    ensures Leaves(PushLeaf(m).peaks, |m.peaks| + 1) == Leaves(m.peaks, |m.peaks|) + 1
  {
    var m', n := PushLeaf(m), |m.peaks|;
    PeaksStay(m, m', n);
    FallsStay(m.peaks, m'.peaks, n);
    SumsSame(m.peaks, m'.peaks, n);
    assert PeakOk(m', n);
  }

  lemma MergeLastStacked(m: Mmr)
    requires Stacked(m) && Mergeable(m.peaks)
    ensures Stacked(MergeLast(m))
    ensures Leaves(MergeLast(m).peaks, |m.peaks| - 1) == Leaves(m.peaks, |m.peaks|)
  {
    var m', n := MergeLast(m), |m.peaks|;
    PeaksStay(m, m', n - 2);
    assert forall k: nat {:trigger Falls(m.peaks, k)} :: k + 1 < n - 2 ==> Falls(m.peaks, k);
    FallsStay(m.peaks, m'.peaks, n - 2);
    SumsSame(m.peaks, m'.peaks, n - 2);
    MergedPeak(m);
    if n > 2 { assert Falls(m.peaks, n - 3); }
  }

  /** The new parent tops a perfect tree. */
  lemma MergedPeak(m: Mmr)
    requires Stacked(m) && Mergeable(m.peaks)
    ensures PeakOk(MergeLast(m), |m.peaks| - 2)
  {
    var m', n := MergeLast(m), |m.peaks|;
    var p, q := m.peaks[n - 2], m.peaks[n - 1];
    assert PeakOk(m, n - 2) && PeakOk(m, n - 1);
    SumsSame(m.peaks, m'.peaks, n - 2);
    PerfectGrows(m.nodes, m'.nodes, p.pos, p.alt);
    PerfectGrows(m.nodes, m'.nodes, q.pos, q.alt);
  }

  lemma {:induction false} MergeAllShaped(m: Mmr)
    requires Stacked(m)
    ensures Shaped(MergeAll(m))
    ensures Leaves(MergeAll(m).peaks, |MergeAll(m).peaks|) == Leaves(m.peaks, |m.peaks|)
    decreases |m.peaks|
  {
    if Mergeable(m.peaks) {
      MergeLastStacked(m);
      MergeAllShaped(MergeLast(m));
    }
  }

  /** Every grown tree is a row of perfect trees of strictly falling altitude that hold its leaves. */
  lemma {:induction false} GrownShaped(leaves: nat)
    ensures Shaped(Grown(leaves))
    ensures Leaves(Grown(leaves).peaks, |Grown(leaves).peaks|) == leaves
  {
    if leaves > 0 {
      GrownShaped(leaves - 1);
      PushLeafStacked(Grown(leaves - 1));
      MergeAllShaped(PushLeaf(Grown(leaves - 1)));
    }
  }

  // ----- The number of nodes and the altitudes -----

  function PopCount(n: nat): nat {
    if n == 0 then 0 else n % 2 + PopCount(n / 2)
  }

  predicate HasBit(n: nat, k: nat) {
    if k == 0 then n % 2 == 1 else HasBit(n / 2, k - 1)
  }

  /** The sum of the powers of two with the given exponents. */
  function Sum(alts: seq<nat>): nat {
    if alts == [] then 0 else Sum(alts[..|alts| - 1]) + Pow2(alts[|alts| - 1])
  }

  ghost predicate Falling(alts: seq<nat>) {
    forall i, j :: 0 <= i < j < |alts| ==> alts[i] > alts[j]
  }

  function Lowered(alts: seq<nat>): seq<nat>
    requires forall i :: 0 <= i < |alts| ==> alts[i] > 0
  {
    seq(|alts|, i requires 0 <= i < |alts| => alts[i] - 1)
  }

  lemma {:induction false} SumLowered(alts: seq<nat>)
    requires forall i :: 0 <= i < |alts| ==> alts[i] > 0
    ensures Sum(alts) == 2 * Sum(Lowered(alts))
    decreases |alts|
  {
    if alts != [] {
      var n := |alts| - 1;
      SumLowered(alts[..n]);
      assert Lowered(alts)[..n] == Lowered(alts[..n]);
    }
  }

  /** Different exponents are exactly the set bits of the sum of their powers. */
  lemma {:induction false} SumBits(alts: seq<nat>, top: nat)
    requires Falling(alts) && forall i :: 0 <= i < |alts| ==> alts[i] < top
    ensures PopCount(Sum(alts)) == |alts|
    ensures forall k: nat :: k in alts <==> HasBit(Sum(alts), k)
    decreases top
  {
    var n := |alts|;
    if n == 0 {
      forall k: nat ensures !HasBit(0, k) { NoBits(k); }
    } else {
      var odd := alts[n - 1] == 0;
      var high := if odd then alts[..n - 1] else alts;
      var low := Lowered(high);
      SumBits(low, top - 1);
      SumLowered(high);
      assert Sum(alts) == 2 * Sum(low) + if odd then 1 else 0;
      forall k: nat ensures k in alts <==> HasBit(Sum(alts), k) {
        if k > 0 {
          assert k - 1 in low <==> HasBit(Sum(low), k - 1);
          RaisedIn(high, k);
        }
      }
    }
  }

  lemma {:induction false} NoBits(k: nat)
    ensures !HasBit(0, k)
  {
    if k > 0 { NoBits(k - 1); }
  }

  lemma RaisedIn(high: seq<nat>, k: nat)
    requires k > 0 && forall i :: 0 <= i < |high| ==> high[i] > 0
    ensures k - 1 in Lowered(high) <==> k in high
  {
    if k in high {
      var i :| 0 <= i < |high| && high[i] == k;
      assert Lowered(high)[i] == k - 1;
    }
  }

  function Alts(peaks: seq<Peak>): seq<nat> {
    seq(|peaks|, i requires 0 <= i < |peaks| => peaks[i].alt)
  }

  lemma {:induction false} AltsFall(peaks: seq<Peak>, i: nat, j: nat)
    requires i < j < |peaks| && forall k: nat {:trigger Falls(peaks, k)} :: Falls(peaks, k)
    ensures peaks[i].alt > peaks[j].alt
    decreases j
  {
    assert Falls(peaks, j - 1);
    if i < j - 1 { AltsFall(peaks, i, j - 1); }
  }

  lemma {:induction false} SumsAre(peaks: seq<Peak>, k: nat)
    requires k <= |peaks|
    ensures Leaves(peaks, k) == Sum(Alts(peaks)[..k])
    ensures Start(peaks, k) + k == 2 * Leaves(peaks, k)
  {
    if k > 0 {
      SumsAre(peaks, k - 1);
      assert Alts(peaks)[..k][..k - 1] == Alts(peaks)[..k - 1];
    }
  }

  lemma PeaksAreBits(m: Mmr)
    requires Shaped(m)
    ensures Falling(Alts(m.peaks))
    ensures var leaves := Leaves(m.peaks, |m.peaks|);
      && |m.nodes| + |m.peaks| == 2 * leaves
      && |m.peaks| == PopCount(leaves)
      && forall k: nat :: k in Alts(m.peaks) <==> HasBit(leaves, k)
  {
    var n, alts := |m.peaks|, Alts(m.peaks);
    forall i, j | 0 <= i < j < n ensures alts[i] > alts[j] { AltsFall(m.peaks, i, j); }
    SumsAre(m.peaks, n);
    assert alts[..n] == alts;
    SumBits(alts, if n == 0 then 0 else alts[0] + 1);
  }

  /**
   A tree with n leaves has 2n - popcount(n) nodes and one peak for each set bit of n, whose
   altitude is the position of the bit, highest first; its last node is its last peak.
   */
  lemma GrownLength(leaves: nat)
    ensures var m := Grown(leaves);
      && |m.nodes| == 2 * leaves - PopCount(leaves)
      && |m.peaks| == PopCount(leaves)
      && (forall k: nat :: k in Alts(m.peaks) <==> HasBit(leaves, k))
      && Falling(Alts(m.peaks))
      && (leaves > 0 ==> m.peaks != [] && m.peaks[|m.peaks| - 1].pos == |m.nodes| - 1)
  {
    var m := Grown(leaves);
    GrownShaped(leaves);
    PeaksAreBits(m);
    if m.peaks != [] { assert PeakOk(m, |m.peaks| - 1); }
  }

  // ----- Taking the last leaf away -----

  /** The left children met on the way down the right slope. */
  function LeftOfSlope(nodes: seq<Node>, pos: nat, alt: nat): seq<Peak>
    requires Perfect(nodes, pos, alt)
    decreases alt
  {
    if alt == 0 then [] else [Peak(nodes[pos].left, alt - 1)] + LeftOfSlope(nodes, nodes[pos].right, alt - 1)
  }

  function WithoutLast(m: Mmr): seq<Peak>
    requires Stacked(m) && m.peaks != []
  {
    var n := |m.peaks| - 1;
    assert PeakOk(m, n);
    m.peaks[..n] + LeftOfSlope(m.nodes, m.peaks[n].pos, m.peaks[n].alt)
  }

  lemma {:induction false} SlopeGrows(nodes: seq<Node>, nodes': seq<Node>, pos: nat, alt: nat)
    requires Perfect(nodes, pos, alt) && Perfect(nodes', pos, alt) && nodes <= nodes'
    ensures LeftOfSlope(nodes, pos, alt) == LeftOfSlope(nodes', pos, alt)
    decreases alt
  {
    if alt > 0 { SlopeGrows(nodes, nodes', pos - 1, alt - 1); }
  }

  /** The slope of a parent starts with its left child and goes on below its right child. */
  lemma MergedSlope(m: Mmr)
    requires Stacked(m) && Mergeable(m.peaks)
    ensures PeakOk(MergeLast(m), |m.peaks| - 2) && PeakOk(m, |m.peaks| - 1)
    ensures var p, q := m.peaks[|m.peaks| - 2], m.peaks[|m.peaks| - 1];
      LeftOfSlope(MergeLast(m).nodes, |m.nodes|, q.alt + 1) == [p] + LeftOfSlope(m.nodes, q.pos, q.alt)
  {
    var m', n := MergeLast(m), |m.peaks|;
    var p, q := m.peaks[n - 2], m.peaks[n - 1];
    assert PeakOk(m, n - 2) && PeakOk(m, n - 1);
    MergedPeak(m);
    SlopeGrows(m.nodes, m'.nodes, q.pos, q.alt);
  }

  lemma MergeKeepsRest(m: Mmr)
    requires Stacked(m) && Mergeable(m.peaks) && Stacked(MergeLast(m))
    ensures WithoutLast(MergeLast(m)) == WithoutLast(m)
  {
    var n := |m.peaks|;
    MergedSlope(m);
    assert m.peaks[..n - 1] == m.peaks[..n - 2] + [m.peaks[n - 2]];
    assert MergeLast(m).peaks[..n - 2] == m.peaks[..n - 2];
  }

  lemma {:induction false} MergeAllKeepsRest(m: Mmr)
    requires Stacked(m) && m.peaks != [] && Stacked(MergeAll(m)) && MergeAll(m).peaks != []
    ensures WithoutLast(MergeAll(m)) == WithoutLast(m)
    decreases |m.peaks|
  {
    if Mergeable(m.peaks) {
      MergeLastStacked(m);
      MergeKeepsRest(m);
      MergeAllKeepsRest(MergeLast(m));
    }
  }

  /**
   The peaks that remain when the last leaf is deleted are the other peaks and the left
   children along the right slope of the last one: the extra nodes are what deletion needs.
   */
  lemma DeletionPeaks(leaves: nat)
    requires leaves > 0
    ensures Stacked(Grown(leaves)) && Grown(leaves).peaks != []
    ensures Grown(leaves - 1).peaks == WithoutLast(Grown(leaves))
  {
    var m := Grown(leaves - 1);
    GrownShaped(leaves - 1);
    GrownLength(leaves);
    GrownShaped(leaves);
    PushLeafStacked(m);
    MergeAllKeepsRest(PushLeaf(m));
    assert PeakOk(PushLeaf(m), |m.peaks|);
    assert PushLeaf(m).peaks[..|m.peaks|] == m.peaks;
  }
}
