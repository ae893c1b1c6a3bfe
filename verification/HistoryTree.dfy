/**
 Loading the peaks of the history tree from its length alone: positions are computed, not
 looked up. A method here works on the array of stored nodes and is proved against the tree
 that really grew to that length.
 */
module HistoryTree {
  import opened Powers
  import opened HistoryTreeSpec

  /** The serialized data of a node; nothing here looks into it. */
  type HistoryNode = int

  /** A node with its data and, unless it is a leaf, the positions of its children. */
  datatype Entry = Entry(data: HistoryNode, node: Node)

  /** A missing tree is an error; otherwise the nodes read, how many of them are peaks, and where they are. */
  datatype Loaded = NoTree | Loaded(entries: seq<Entry>, indices: seq<nat>, peaks: nat)

  // ----- Altitudes -----

  method FloorLog2(n: nat) returns (log: nat)
    requires n > 0
    ensures log == Log2(n)
  {
    log := 0;
    var x: nat := n / 2;
    while x != 0
      invariant Log2(n) == if x == 0 then log else log + 1 + Log2(x)
    {
      log := log + 1;
      x := x / 2;
    }
  }

  method Altitude(n: nat) returns (alt: nat)
    requires n > 0
    ensures alt + 1 == Log2(n + 1)
  {
    var log := FloorLog2(n + 1);
    alt := log - 1;
  }

  /** What is left beyond peaks that are all below altitude a is smaller than a tree of that altitude. */
  lemma {:induction false} RestSmall(m: Mmr, k: nat, a: nat)
    requires Shaped(m) && k <= |m.peaks| && (k < |m.peaks| ==> m.peaks[k].alt < a)
    ensures Start(m.peaks, k) <= |m.nodes| <= Start(m.peaks, k) + 2 * Pow2(a) - 2
    decreases |m.peaks| - k
  {
    if k < |m.peaks| {
      assert Falls(m.peaks, k);
      RestSmall(m, k + 1, m.peaks[k].alt);
      Pow2Mono(m.peaks[k].alt, a);
    }
  }

  /** A candidate position lies within the tree exactly when it is the next peak. */
  lemma NextPeak(m: Mmr, k: nat, alt: nat)
    requires Shaped(m) && k <= |m.peaks| && (k < |m.peaks| ==> m.peaks[k].alt <= alt)
    ensures Start(m.peaks, k) + Size(alt) <= |m.nodes| <==> k < |m.peaks| && m.peaks[k].alt == alt
    ensures Start(m.peaks, k) <= |m.nodes|
    ensures k < |m.peaks| && m.peaks[k].alt == alt ==>
      && Start(m.peaks, k + 1) == Start(m.peaks, k) + Size(alt)
      && m.peaks[k].pos + 1 == Start(m.peaks, k) + Size(alt)
      && (k + 1 < |m.peaks| ==> m.peaks[k + 1].alt < alt)
  {
    if k < |m.peaks| && m.peaks[k].alt == alt {
      assert PeakOk(m, k) && Falls(m.peaks, k);
      RestSmall(m, k + 1, alt);
    } else {
      RestSmall(m, k, alt);
    }
  }

  lemma FirstAltitude(m: Mmr)
    requires Shaped(m) && m.peaks != []
    ensures Log2(|m.nodes| + 1) == m.peaks[0].alt + 1 && Size(m.peaks[0].alt) <= |m.nodes|
  {
    var a := m.peaks[0].alt;
    assert PeakOk(m, 0);
    RestSmall(m, 0, a + 1);
    Log2Exact(|m.nodes| + 1, a + 1);
  }

  // ----- The walk -----

  function DraftNode(data: HistoryNode, alt: nat, pos: nat): Entry
    requires alt > 0 ==> Pow2(alt) <= pos
  {
    Entry(data, if alt == 0 then Leaf else Parent(pos - Pow2(alt), pos - 1))
  }

  function Positions(peaks: seq<Peak>): seq<nat> {
    seq(|peaks|, i requires 0 <= i < |peaks| => peaks[i].pos)
  }

  /** Entry i is the stored node at index i, with its true links. */
  ghost predicate EntryOk(history: seq<HistoryNode>, nodes: seq<Node>, entries: seq<Entry>, indices: seq<nat>, i: nat)
    requires |history| == |nodes| && |entries| == |indices|
  {
    i < |entries| ==> indices[i] < |nodes| && entries[i] == Entry(history[indices[i]], nodes[indices[i]])
  }

  ghost predicate Faithful(history: seq<HistoryNode>, nodes: seq<Node>, entries: seq<Entry>, indices: seq<nat>) {
    && |history| == |nodes| && |entries| == |indices|
    && forall i: nat {:trigger EntryOk(history, nodes, entries, indices, i)} ::
        EntryOk(history, nodes, entries, indices, i)
  }

  lemma FaithfulPush(history: seq<HistoryNode>, nodes: seq<Node>, entries: seq<Entry>, indices: seq<nat>, alt: nat,
    pos: nat)
    requires Faithful(history, nodes, entries, indices) && Perfect(nodes, pos, alt)
    ensures Faithful(history, nodes, entries + [DraftNode(history[pos], alt, pos)], indices + [pos])
  {
    forall i: nat ensures EntryOk(history, nodes, entries + [DraftNode(history[pos], alt, pos)], indices + [pos], i) {
      assert EntryOk(history, nodes, entries, indices, i);
    }
  }

  /** The first k peaks have been drafted. */
  ghost predicate Walked(history: seq<HistoryNode>, m: Mmr, k: nat, entries: seq<Entry>, indices: seq<nat>) {
    k <= |m.peaks| && indices == Positions(m.peaks[..k]) && Faithful(history, m.nodes, entries, indices)
  }

  lemma DraftPeak(history: seq<HistoryNode>, m: Mmr, k: nat, entries: seq<Entry>, indices: seq<nat>, pos: nat, alt: nat)
    requires Shaped(m) && k < |m.peaks| && m.peaks[k] == Peak(pos, alt) && Walked(history, m, k, entries, indices)
    ensures pos < |history| && (alt > 0 ==> Pow2(alt) <= pos)
    ensures Walked(history, m, k + 1, entries + [DraftNode(history[pos], alt, pos)], indices + [pos])
  {
    assert PeakOk(m, k);
    FaithfulPush(history, m.nodes, entries, indices, alt, pos);
    assert Positions(m.peaks[..k + 1]) == Positions(m.peaks[..k]) + [pos];
  }

  /** No position beyond 32 bits is computed for a tree of fewer than 2^31 nodes. */
  ghost predicate Positions32(tried: seq<nat>, treeLength: nat) {
    && (forall i :: 0 <= i < |tried| ==> tried[i] < 2 * treeLength)
    && (treeLength < 0x8000_0000 ==> forall i :: 0 <= i < |tried| ==> tried[i] < 0x1_0000_0000)
  }

  /**
   From the highest peak to the last: right to a sibling, or down to a left child that exists.
   `tried` are all positions computed on the way.
   */
  method PeakWalk(history: seq<HistoryNode>, ghost m: Mmr)
    returns (entries: seq<Entry>, indices: seq<nat>, lastPos: nat, lastAlt: nat, ghost tried: seq<nat>)
    requires Shaped(m) && m.peaks != [] && |history| == |m.nodes| > 1
    ensures Walked(history, m, |m.peaks|, entries, indices)
    ensures Peak(lastPos, lastAlt) == m.peaks[|m.peaks| - 1]
    ensures Positions32(tried, |history|)
  {
    FirstAltitude(m);
    FirstIsHigh(m);
    var treeLength := |history|;
    entries, indices, lastPos, lastAlt := [], [], 0, 0;
    var alt := Altitude(treeLength);
    var pos := Pow2(alt + 1) - 2;
    ghost var k := 0;
    tried := [pos];
    while alt != 0
      invariant Walked(history, m, k, entries, indices)
      invariant k < |m.peaks| ==> m.peaks[k].alt <= alt
      invariant alt == 0 ==> k == |m.peaks|
      invariant pos + 1 == Start(m.peaks, k) + Size(alt)
      invariant Size(alt) <= treeLength && pos < 2 * treeLength && Positions32(tried, treeLength)
      invariant k > 0 ==> Peak(lastPos, lastAlt) == m.peaks[k - 1]
      decreases |m.peaks| - k, alt
    {
      NextPeak(m, k, alt);
      if pos >= treeLength {
        pos := pos - Pow2(alt);
        alt := alt - 1;
        tried := tried + [pos];
        NextPeak(m, k, alt);
      }
      if pos < treeLength {
        DraftPeak(history, m, k, entries, indices, pos, alt);
        indices := indices + [pos];
        entries := entries + [DraftNode(history[pos], alt, pos)];
        lastPos, lastAlt := pos, alt;
        pos := pos + Pow2(alt + 1) - 1;
        tried := tried + [pos];
        k := k + 1;
      }
    }
  }

  lemma FirstIsHigh(m: Mmr)
    requires Shaped(m) && m.peaks != [] && |m.nodes| > 1
    ensures m.peaks[0].alt > 0
  {
    assert PeakOk(m, 0);
    assert Falls(m.peaks, 0);
    RestSmall(m, 1, m.peaks[0].alt);
  }

  lemma DraftChildren(history: seq<HistoryNode>, nodes: seq<Node>, pos: nat, alt: nat, entries: seq<Entry>,
    indices: seq<nat>)
    requires alt > 0 && Perfect(nodes, pos, alt) && Faithful(history, nodes, entries, indices)
    ensures Size(alt) <= pos + 1 <= |history| && Perfect(nodes, pos - 1, alt - 1)
    ensures var left, right := pos - Pow2(alt), pos - 1;
      Faithful(history, nodes,
               entries + [DraftNode(history[left], alt - 1, left)] + [DraftNode(history[right], alt - 1, right)],
               indices + [left] + [right])
  {
    var left, right := pos - Pow2(alt), pos - 1;
    FaithfulPush(history, nodes, entries, indices, alt - 1, left);
    FaithfulPush(history, nodes, entries + [DraftNode(history[left], alt - 1, left)], indices + [left], alt - 1, right);
  }

  /** Down the right slope, both children at each level. */
  method SlopeWalk(history: seq<HistoryNode>, ghost nodes: seq<Node>, lastPos: nat, lastAlt: nat,
                   entries0: seq<Entry>, indices0: seq<nat>)
    returns (entries: seq<Entry>, indices: seq<nat>)
    requires Perfect(nodes, lastPos, lastAlt) && Faithful(history, nodes, entries0, indices0)
    ensures indices == Slope(nodes, lastPos, indices0) && Faithful(history, nodes, entries, indices)
  {
    entries, indices := entries0, indices0;
    var alt: nat, pos: nat := lastAlt, lastPos;
    while alt > 0
      invariant Perfect(nodes, pos, alt) && Faithful(history, nodes, entries, indices)
      invariant Slope(nodes, pos, indices) == Slope(nodes, lastPos, indices0)
    {
      DraftChildren(history, nodes, pos, alt, entries, indices);
      var left, right := pos - Pow2(alt), pos - 1;
      alt := alt - 1;
      indices := indices + [left];
      entries := entries + [DraftNode(history[left], alt, left)];
      indices := indices + [right];
      entries := entries + [DraftNode(history[right], alt, right)];
      pos := right;
    }
  }

  // ----- Loading -----

  /** The peaks first, then the nodes along the right slope of the last peak if asked for. */
  function Wanted(m: Mmr, extra: bool): seq<nat> {
    if extra && m.nodes != [] then Slope(m.nodes, |m.nodes| - 1, Positions(m.peaks)) else Positions(m.peaks)
  }

  lemma OneLeaf(history: seq<HistoryNode>, m: Mmr, extra: bool)
    requires Shaped(m) && |history| == |m.nodes| == 1 && m.peaks != []
    ensures |m.peaks| == 1 && Wanted(m, extra) == [0]
    ensures Faithful(history, m.nodes, [Entry(history[0], Leaf)], [0])
  {
    assert PeakOk(m, 0);
    assert Falls(m.peaks, 0);
    assert Start(m.peaks, 1) == Size(m.peaks[0].alt);
    RestSmall(m, 1, m.peaks[0].alt);
  }

  lemma LastPeak(m: Mmr)
    requires Shaped(m) && m.peaks != []
    ensures Positions(m.peaks[..|m.peaks|]) == Positions(m.peaks)
    ensures var p := m.peaks[|m.peaks| - 1];
      Perfect(m.nodes, p.pos, p.alt) && p.pos + 1 == |m.nodes|
  {
    assert PeakOk(m, |m.peaks| - 1);
  }

  /**
   Loads the peaks of the tree that holds the given number of leaves and, if asked, the nodes
   along the right slope of the last peak with their siblings.
   */
  method PreloadHistoryTree(history: seq<HistoryNode>, extra: bool, ghost leaves: nat)
    returns (r: Loaded, ghost tried: seq<nat>)
    requires |history| == |Grown(leaves).nodes|
    ensures leaves == 0 <==> r.NoTree?
    ensures r.Loaded? ==> r.peaks == |Grown(leaves).peaks| && r.indices == Wanted(Grown(leaves), extra)
    ensures r.Loaded? ==> Faithful(history, Grown(leaves).nodes, r.entries, r.indices)
    ensures Positions32(tried, |history|)
  {
    ghost var m := Grown(leaves);
    GrownShaped(leaves);
    GrownLength(leaves);
    if |history| == 0 {
      return NoTree, [];
    }
    r, tried := Preload(history, extra, m);
  }

  method Preload(history: seq<HistoryNode>, extra: bool, ghost m: Mmr)
    returns (r: Loaded, ghost tried: seq<nat>)
    requires Shaped(m) && m.peaks != [] && |history| == |m.nodes|
    ensures r.Loaded? && r.peaks == |m.peaks| && r.indices == Wanted(m, extra)
    ensures Faithful(history, m.nodes, r.entries, r.indices)
    ensures Positions32(tried, |history|)
  {
    LastPeak(m);
    if |history| == 1 {
      OneLeaf(history, m, extra);
      return Loaded([Entry(history[0], Leaf)], [0], 1), [];
    }
    var entries, indices, lastPos, lastAlt;
    entries, indices, lastPos, lastAlt, tried := PeakWalk(history, m);
    var peaks := |entries|;
    if extra {
      entries, indices := SlopeWalk(history, m.nodes, lastPos, lastAlt, entries, indices);
    }
    r := Loaded(entries, indices, peaks);
  }
}
