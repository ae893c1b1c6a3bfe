/**
 The Merkle tree of a block, level by level: each list of hashes is replaced by the hashes of
 its consecutive pairs, the last one paired with itself if need be, until one is left.
 */
module BlockMerkle {
  import opened Basics
  import opened MerkleSpec
  import opened Powers

  function NextLevel(hash: HashFn, ds: seq<Digest>): (r: seq<Digest>)
    ensures |r| == (|ds| + 1) / 2
    decreases |ds|
  {
    if ds == [] then []
    else if |ds| == 1 then [hash(ds[0], ds[0])]
    else [hash(ds[0], ds[1])] + NextLevel(hash, ds[2..])
  }

  /** The root of a block; 0 if it has no transactions. */
  function BlockRoot(hash: HashFn, ds: seq<Digest>): Digest
    decreases |ds|
  {
    if ds == [] then 0 else if |ds| == 1 then ds[0] else BlockRoot(hash, NextLevel(hash, ds))
  }

  /** All levels one after the other, the leaves first. */
  function AllLevels(hash: HashFn, ds: seq<Digest>): (r: seq<Digest>)
    ensures |r| >= |ds| && (ds != [] ==> r != [] && r[|r| - 1] == BlockRoot(hash, ds))
    decreases |ds|
  {
    if |ds| <= 1 then ds else ds + AllLevels(hash, NextLevel(hash, ds))
  }

  /** The last two of an even number of hashes are the same. */
  predicate TwinsAtEnd(ds: seq<Digest>) {
    |ds| >= 2 && |ds| % 2 == 0 && ds[|ds| - 1] == ds[|ds| - 2]
  }

  /** Some level ends in twins. */
  predicate Mutated(hash: HashFn, ds: seq<Digest>)
    decreases |ds|
  {
    |ds| > 1 && (TwinsAtEnd(ds) || Mutated(hash, NextLevel(hash, ds)))
  }

  function Levels(n: nat): nat {
    if n <= 1 then 0 else 1 + Levels((n + 1) / 2)
  }

  lemma {:induction false} LevelAt(hash: HashFn, ds: seq<Digest>, i: nat)
    requires 2 * i < |ds|
    ensures NextLevel(hash, ds)[i] == hash(ds[2 * i], ds[Min(2 * i + 1, |ds| - 1)])
    decreases i
  {
    if i > 0 { LevelAt(hash, ds[2..], i - 1); }
  }

  // ----- The root of the partial tree is the block's -----

  /** The nodes of a tree by height and leftmost leaf. */
  type Nodes = (nat, nat) -> Digest

  ghost function NodesOf(hash: HashFn, ds: seq<Digest>): Nodes {
    (h: nat, lo: nat) => if lo < |ds| then CalcHash(hash, ds, h, lo) else 0
  }

  /** A node above two others hashes them. */
  ghost predicate Joins(hash: HashFn, nodes: Nodes, n: nat, h: nat, lo: nat) {
    lo < n ==> nodes(h + 1, lo) == hash(nodes(h, lo), nodes(h, if Mid(h + 1, lo) < n then Mid(h + 1, lo) else lo))
  }

  ghost predicate AllJoin(hash: HashFn, nodes: Nodes, n: nat) {
    forall h: nat, lo: nat {:trigger Joins(hash, nodes, n, h, lo)} :: Joins(hash, nodes, n, h, lo)
  }

  lemma NodesJoin(hash: HashFn, ds: seq<Digest>)
    ensures AllJoin(hash, NodesOf(hash, ds), |ds|)
  {
    forall h: nat, lo: nat ensures Joins(hash, NodesOf(hash, ds), |ds|, h, lo) {}
  }

  /** A node above two leaves is a leaf of the next level. */
  ghost predicate LeafUp(nodes: Nodes, nexts: Nodes, n: nat, lo: nat) {
    2 * lo < n ==> nodes(1, 2 * lo) == nexts(0, lo)
  }

  lemma TwoLeaves(hash: HashFn, ds: seq<Digest>, k: nat)
    requires k < |ds|
    ensures CalcHash(hash, ds, 1, k) == hash(ds[k], ds[Min(k + 1, |ds| - 1)])
  {
    assert Mid(1, k) == k + 1;
  }

  lemma LevelUp(hash: HashFn, ds: seq<Digest>, next: seq<Digest>, lo: nat)
    requires |next| == (|ds| + 1) / 2
    requires 2 * lo < |ds| ==> next[lo] == hash(ds[2 * lo], ds[Min(2 * lo + 1, |ds| - 1)])
    ensures LeafUp(NodesOf(hash, ds), NodesOf(hash, next), |ds|, lo)
  {
    if 2 * lo < |ds| { TwoLeaves(hash, ds, 2 * lo); }
  }

  /** A node of the tree is a node of the tree over the next level, one height lower. */
  lemma {:induction false} NodeUp(hash: HashFn, nodes: Nodes, nexts: Nodes, n: nat, m: nat, h: nat, lo: nat)
    requires AllJoin(hash, nodes, n) && AllJoin(hash, nexts, m) && m == (n + 1) / 2
    requires forall k: nat {:trigger LeafUp(nodes, nexts, n, k)} :: LeafUp(nodes, nexts, n, k)
    ensures 2 * lo < n ==> nodes(h + 1, 2 * lo) == nexts(h, lo)
    decreases h
  {
    if h == 0 {
      assert LeafUp(nodes, nexts, n, lo);
    } else {
      var mid := Mid(h, lo);
      assert Mid(h + 1, 2 * lo) == 2 * mid;
      assert Joins(hash, nodes, n, h, 2 * lo) && Joins(hash, nexts, m, h - 1, lo);
      NodeUp(hash, nodes, nexts, n, m, h - 1, lo);
      NodeUp(hash, nodes, nexts, n, m, h - 1, mid);
    }
  }

  lemma {:induction false} HeightLeast(n: nat, h: nat)
    requires h == 0 || Pow2(h - 1) < n
    ensures var r := HeightFrom(n, h); r == 0 || Pow2(r - 1) < n
    decreases if Pow2(h) < n then n - Pow2(h) else 0
  {
    if Pow2(h) < n { HeightLeast(n, h + 1); }
  }

  lemma HeightUp(n: nat)
    requires n > 1
    ensures Height(n) == Height((n + 1) / 2) + 1
  {
    HeightLeast(n, 0);
    HeightLeast((n + 1) / 2, 0);
    var a, b := Height(n), Height((n + 1) / 2);
    assert Pow2(a) == 2 * Pow2(a - 1) && Pow2(b + 1) == 2 * Pow2(b);
    if a < b + 1 { Pow2Mono(a, b); }
    if a > b + 1 { Pow2Mono(b + 1, a - 1); }
  }

  lemma RootUp(hash: HashFn, txids: seq<Digest>, next: seq<Digest>, h: nat)
    requires |txids| > 1 && next == NextLevel(hash, txids) && h == Height(|next|) && h + 1 == Height(|txids|)
    ensures next != [] && Root(hash, txids) == Root(hash, next)
  {
    NodesJoin(hash, txids);
    NodesJoin(hash, next);
    var nodes, nexts := NodesOf(hash, txids), NodesOf(hash, next);
    forall lo: nat ensures LeafUp(nodes, nexts, |txids|, lo) {
      if 2 * lo < |txids| { LevelAt(hash, txids, lo); }
      LevelUp(hash, txids, next, lo);
    }
    NodeUp(hash, nodes, nexts, |txids|, |next|, h, 0);
    assert nodes(h + 1, 0) == nexts(h, 0);
  }

  /** The root that partial trees speak of is the one that blocks are built with. */
  lemma {:induction false} RootIsBlockRoot(hash: HashFn, txids: seq<Digest>)
    requires txids != []
    ensures Root(hash, txids) == BlockRoot(hash, txids)
    decreases |txids|
  {
    if |txids| > 1 {
      var next := NextLevel(hash, txids);
      HeightUp(|txids|);
      RootUp(hash, txids, next, Height(|next|));
      RootIsBlockRoot(hash, next);
    }
  }

  // ----- What the mutation flag is for -----

  /** Equal next levels come from equal lists, unless one of them ends in twins. */
  lemma {:induction false} LevelDecides(hash: HashFn, ds: seq<Digest>, es: seq<Digest>)
    requires Injective(hash) && |ds| > 1 && |es| > 1 && NextLevel(hash, ds) == NextLevel(hash, es)
    requires !TwinsAtEnd(ds) && !TwinsAtEnd(es)
    ensures ds == es
  {
    forall i: nat | 2 * i < |ds| && 2 * i < |es|
      ensures ds[2 * i] == es[2 * i] && ds[Min(2 * i + 1, |ds| - 1)] == es[Min(2 * i + 1, |es| - 1)]
    {
      LevelAt(hash, ds, i);
      LevelAt(hash, es, i);
      assert Differ(hash, ds[2 * i], ds[Min(2 * i + 1, |ds| - 1)], es[2 * i], es[Min(2 * i + 1, |es| - 1)]);
    }
    var k := |NextLevel(hash, ds)| - 1;
    assert 2 * k < |ds| <= 2 * k + 2 && 2 * k < |es| <= 2 * k + 2;
    assert ds[2 * k] == es[2 * k] && ds[Min(2 * k + 1, |ds| - 1)] == es[Min(2 * k + 1, |es| - 1)];
    forall j | 0 <= j < |ds| ensures ds[j] == es[j] {
      assert ds[2 * (j / 2)] == es[2 * (j / 2)];
    }
  }

  /** Without collisions, and with equally high trees, the flag catches every second list of the same root. */
  lemma {:induction false} UnmutatedUnique(hash: HashFn, ds: seq<Digest>, es: seq<Digest>)
    requires Injective(hash) && ds != [] && es != [] && Levels(|ds|) == Levels(|es|)
    requires BlockRoot(hash, ds) == BlockRoot(hash, es) && !Mutated(hash, ds) && !Mutated(hash, es)
    ensures ds == es
    decreases |ds|
  {
    if |ds| > 1 {
      UnmutatedUnique(hash, NextLevel(hash, ds), NextLevel(hash, es));
      LevelDecides(hash, ds, es);
    }
  }

  /** An odd list has the same root as with its last hash repeated, and that one is flagged. */
  lemma RepeatedFlagged(hash: HashFn, ds: seq<Digest>)
    requires |ds| > 1 && |ds| % 2 == 1
    ensures var es := ds + [ds[|ds| - 1]]; BlockRoot(hash, es) == BlockRoot(hash, ds) && Mutated(hash, es)
  {
    var es := ds + [ds[|ds| - 1]];
    var n, m := NextLevel(hash, ds), NextLevel(hash, es);
    forall i | 0 <= i < |n| ensures n[i] == m[i] {
      LevelAt(hash, ds, i);
      LevelAt(hash, es, i);
    }
    assert n == m;
  }

  // ----- Branches -----

  /** The place next to i in its pair. */
  function Beside(i: nat, n: nat): nat
    requires n > 0
  {
    Min(if i % 2 == 0 then i + 1 else i - 1, n - 1)
  }

  /** The hashes beside the way from leaf i to the root. */
  function Branch(hash: HashFn, ds: seq<Digest>, i: nat): (r: seq<Digest>)
    ensures |r| == Levels(|ds|)
    decreases |ds|
  {
    if |ds| <= 1 then [] else [ds[Beside(i, |ds|)]] + Branch(hash, NextLevel(hash, ds), i / 2)
  }

  function Paired(hash: HashFn, d: Digest, other: Digest, i: int): Digest {
    if i % 2 == 1 then hash(other, d) else hash(d, other)
  }

  function FromBranch(hash: HashFn, d: Digest, branch: seq<Digest>, i: int): Digest
    decreases |branch|
  {
    if branch == [] then d else FromBranch(hash, Paired(hash, d, branch[0], i), branch[1..], i / 2)
  }

  lemma {:induction false} PairUp(hash: HashFn, ds: seq<Digest>, i: nat)
    requires i < |ds| && |ds| > 1
    ensures Paired(hash, ds[i], ds[Beside(i, |ds|)], i) == NextLevel(hash, ds)[i / 2]
  {
    LevelAt(hash, ds, i / 2);
  }

  /** The branch of a transaction leads to the root. */
  lemma {:induction false} BranchComplete(hash: HashFn, ds: seq<Digest>, i: nat)
    requires i < |ds|
    ensures FromBranch(hash, ds[i], Branch(hash, ds, i), i) == BlockRoot(hash, ds)
    decreases |ds|
  {
    if |ds| > 1 {
      PairUp(hash, ds, i);
      BranchComplete(hash, NextLevel(hash, ds), i / 2);
      assert Branch(hash, ds, i)[1..] == Branch(hash, NextLevel(hash, ds), i / 2);
    }
  }

  /** Without collisions, nothing else leads there: neither another hash nor another branch as long. */
  lemma {:induction false} BranchSound(hash: HashFn, ds: seq<Digest>, i: nat, d: Digest, branch: seq<Digest>)
    requires Injective(hash) && i < |ds| && |branch| == Levels(|ds|)
    requires FromBranch(hash, d, branch, i) == BlockRoot(hash, ds)
    ensures d == ds[i] && branch == Branch(hash, ds, i)
    decreases |ds|
  {
    if |ds| > 1 {
      var e, other := ds[i], ds[Beside(i, |ds|)];
      PairUp(hash, ds, i);
      BranchSound(hash, NextLevel(hash, ds), i / 2, Paired(hash, d, branch[0], i), branch[1..]);
      assert Differ(hash, d, branch[0], e, other) && Differ(hash, branch[0], d, other, e);
      assert branch == [branch[0]] + branch[1..];
    }
  }

  // ----- The code -----

  class Block {
    const hash: HashFn
    const vtx: seq<Digest>
    var vMerkleTree: seq<Digest>

    ghost predicate Valid()
      reads this
    {
      vMerkleTree == [] || vMerkleTree == AllLevels(hash, vtx)
    }

    constructor (hash: HashFn, vtx: seq<Digest>)
      ensures Valid() && this.hash == hash && this.vtx == vtx
    {
      this.hash, this.vtx, vMerkleTree := hash, vtx, [];
    }

    /** Appends the next level behind the one that starts at j. */
    method AppendLevel(j: nat, ghost level: seq<Digest>) returns (twins: bool)
      requires |level| > 1 && j + |level| == |vMerkleTree| && vMerkleTree[j..] == level
      modifies this
      ensures vMerkleTree == old(vMerkleTree) + NextLevel(hash, level)
      ensures twins <==> TwinsAtEnd(level)
    {
      twins := false;
      ghost var next := NextLevel(hash, level);
      var nSize, i := |vMerkleTree| - j, 0;
      while i < nSize
        invariant i % 2 == 0 && 0 <= i <= nSize + 1 && i / 2 <= |next|
        invariant vMerkleTree == old(vMerkleTree) + next[..i / 2]
        invariant twins <==> i >= nSize && TwinsAtEnd(level)
      {
        var i2 := Min(i + 1, nSize - 1);
        assert vMerkleTree[j + i] == level[i] && vMerkleTree[j + i2] == level[i2];
        if i2 == i + 1 && i2 + 1 == nSize && vMerkleTree[j + i] == vMerkleTree[j + i2] {
          twins := true;
        }
        LevelAt(hash, level, i / 2);
        vMerkleTree := vMerkleTree + [hash(vMerkleTree[j + i], vMerkleTree[j + i2])];
        i := i + 2;
      }
    }

    /** How far the tree is built: what is there, and what the last level will still add. */
    ghost predicate Climbing(tree: seq<Digest>, j: nat, level: seq<Digest>, mutated: bool) {
      && j + |level| == |tree| && tree[j..] == level && (vtx != [] ==> level != [])
      && tree[..j] + AllLevels(hash, level) == AllLevels(hash, vtx)
      && BlockRoot(hash, level) == BlockRoot(hash, vtx)
      && (mutated || Mutated(hash, level) <==> Mutated(hash, vtx))
    }

    lemma ClimbNext(tree: seq<Digest>, j: nat, level: seq<Digest>, mutated: bool, next: seq<Digest>)
      requires Climbing(tree, j, level, mutated) && |level| > 1 && next == NextLevel(hash, level)
      ensures Climbing(tree + next, |tree|, next, mutated || TwinsAtEnd(level))
    {
      OneLevelOn(tree, j, level, next, AllLevels(hash, next));
    }

    static lemma OneLevelOn(tree: seq<Digest>, j: nat, level: seq<Digest>, next: seq<Digest>, rest: seq<Digest>)
      requires j + |level| == |tree| && tree[j..] == level
      ensures (tree + next)[..|tree|] + rest == tree[..j] + (level + rest) && (tree + next)[|tree|..] == next
    {
      assert (tree + next)[..|tree|] == tree == tree[..j] + level;
    }

    lemma ClimbEnds(tree: seq<Digest>, j: nat, level: seq<Digest>, mutated: bool)
      requires Climbing(tree, j, level, mutated) && |level| <= 1
      ensures tree == AllLevels(hash, vtx) && mutated == Mutated(hash, vtx)
      ensures BlockRoot(hash, vtx) == if tree == [] then 0 else tree[|tree| - 1]
    {
      assert tree[..j] + tree[j..] == tree;
    }

    method BuildMerkleTree() returns (root: Digest, mutated: bool)
      modifies this
      ensures root == BlockRoot(hash, vtx) && mutated == Mutated(hash, vtx)
      ensures vMerkleTree == AllLevels(hash, vtx)
    {
      vMerkleTree := vtx;
      var j, nSize := 0, |vtx|;
      mutated := false;
      ghost var level := vtx;
      while nSize > 1
        invariant nSize == |level| && Climbing(vMerkleTree, j, level, mutated)
      {
        ClimbNext(vMerkleTree, j, level, mutated, NextLevel(hash, level));
        var twins := AppendLevel(j, level);
        mutated := mutated || twins;
        j := j + nSize;
        level := NextLevel(hash, level);
        nSize := (nSize + 1) / 2;
      }
      ClimbEnds(vMerkleTree, j, level, mutated);
      root := if vMerkleTree == [] then 0 else vMerkleTree[|vMerkleTree| - 1];
    }

    /** Levels from one on are still ahead, and so is the rest of the branch. */
    ghost predicate Collecting(tree: seq<Digest>, j: nat, level: seq<Digest>, n: nat, branch: seq<Digest>,
                               goal: seq<Digest>)
    {
      && j <= |tree| && tree[j..] == AllLevels(hash, level)
      && branch + Branch(hash, level, n) == goal
    }

    lemma CollectNext(tree: seq<Digest>, j: nat, level: seq<Digest>, n: nat, branch: seq<Digest>, goal: seq<Digest>,
                      next: seq<Digest>, i: nat)
      requires Collecting(tree, j, level, n, branch, goal)
      requires |level| > 1 && next == NextLevel(hash, level) && i == Beside(n, |level|)
      ensures j + i < |tree| && tree[j + i] == level[i]
      ensures Collecting(tree, j + |level|, next, n / 2, branch + [level[i]], goal)
    {
      assert tree[j + |level|..] == tree[j..][|level|..];
      assert tree[j + i] == tree[j..][i];
      assert branch + ([level[i]] + Branch(hash, next, n / 2)) == (branch + [level[i]]) + Branch(hash, next, n / 2);
    }

    lemma CollectEnds(tree: seq<Digest>, j: nat, level: seq<Digest>, n: nat, branch: seq<Digest>, goal: seq<Digest>)
      requires Collecting(tree, j, level, n, branch, goal) && |level| <= 1
      ensures branch == goal
    {
    }

    lemma CollectStarts(tree: seq<Digest>, n: nat, goal: seq<Digest>)
      requires tree == AllLevels(hash, vtx) && goal == Branch(hash, vtx, n)
      ensures Collecting(tree, 0, vtx, n, [], goal)
    {
    }

    method GetMerkleBranch(nIndex: nat) returns (vMerkleBranch: seq<Digest>)
      requires Valid()
      modifies this
      ensures Valid() && vMerkleBranch == Branch(hash, vtx, nIndex)
    {
      if vMerkleTree == [] {
        var root, mutated := BuildMerkleTree();
      }
      vMerkleBranch := [];
      var j, n, nSize := 0, nIndex, |vtx|;
      ghost var tree, level, goal := vMerkleTree, vtx, Branch(hash, vtx, nIndex);
      CollectStarts(tree, nIndex, goal);
      while nSize > 1
        invariant vMerkleTree == tree
        invariant nSize == |level| && Collecting(vMerkleTree, j, level, n, vMerkleBranch, goal)
      {
        var i := Beside(n, nSize);
        CollectNext(vMerkleTree, j, level, n, vMerkleBranch, goal, NextLevel(hash, level), i);
        vMerkleBranch := vMerkleBranch + [vMerkleTree[j + i]];
        n := n / 2;
        j := j + nSize;
        level := NextLevel(hash, level);
        nSize := (nSize + 1) / 2;
      }
      CollectEnds(vMerkleTree, j, level, n, vMerkleBranch, goal);
    }

    /** The root that a hash and a branch lead to; 0 for the index -1. */
    static method CheckMerkleBranch(hash: HashFn, d: Digest, vMerkleBranch: seq<Digest>, nIndex: int)
      returns (root: Digest)
      ensures root == if nIndex == -1 then 0 else FromBranch(hash, d, vMerkleBranch, nIndex)
    {
      if nIndex == -1 {
        return 0;
      }
      root := d;
      var i := nIndex;
      for it := 0 to |vMerkleBranch|
        invariant FromBranch(hash, root, vMerkleBranch[it..], i) == FromBranch(hash, d, vMerkleBranch, nIndex)
      {
        assert vMerkleBranch[it..][1..] == vMerkleBranch[it + 1..];
        root := if i % 2 == 1 then hash(vMerkleBranch[it], root) else hash(root, vMerkleBranch[it]);
        i := i / 2;
      }
    }
  }
}
