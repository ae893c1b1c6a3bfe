/**
 The partial Merkle tree of BIP 37 ("Partial Merkle branch format"): the encoder and the
 decoder walk the same tree depth first, one writing flag bits and hashes, one reading them.

 The hash of two digests is a parameter.
 */
module MerkleSpec {
  import opened Powers

  /** A 256-bit hash; 0 is what the decoder returns on failure. */
  type Digest = int
  type HashFn = (Digest, Digest) -> Digest

  const MAX_BLOCK_SIZE := 2000000
  const MAX_TRANSACTIONS := MAX_BLOCK_SIZE / 60

  /** No collision between two given pairs. */
  ghost predicate Differ(hash: HashFn, a: Digest, b: Digest, c: Digest, d: Digest) {
    hash(a, b) == hash(c, d) ==> a == c && b == d
  }

  ghost predicate Injective(hash: HashFn) {
    forall a, b, c, d {:trigger Differ(hash, a, b, c, d)} :: Differ(hash, a, b, c, d)
  }

  // ----- The shape of the tree -----

  /** The number of nodes at a height. */
  function TreeWidth(n: nat, height: nat): nat {
    (n + Pow2(height) - 1) / Pow2(height)
  }

  /* A node is named by its height and by its leftmost leaf lo: position pos at height h of the
     source is lo == pos * Pow2(h). It exists when lo is below the number of leaves. */

  /** The leaf test lo < n is the width test of the source. */
  lemma WidthExact(n: nat, height: nat, pos: nat)
    ensures pos < TreeWidth(n, height) <==> pos * Pow2(height) < n
  {
    var d, q := Pow2(height), TreeWidth(n, height);
    DivBound(n + d - 1, d);
    assert (q + 1) * d == q * d + d;
    if pos < q { MulLt(pos, q, d); assert (pos + 1) * d == pos * d + d; } else { MulLe(q, pos, d); }
  }

  /** The leftmost leaves of the children of a node. */
  lemma ChildLeaves(h: nat, pos: nat)
    requires h > 0
    ensures (2 * pos) * Pow2(h - 1) == pos * Pow2(h)
    ensures (2 * pos + 1) * Pow2(h - 1) == pos * Pow2(h) + Pow2(h - 1)
  {
    var d := Pow2(h - 1);
    assert 2 * pos * d == pos * (2 * d);
    assert (2 * pos + 1) * d == 2 * pos * d + d;
  }

  /** The leftmost leaf of the right child. */
  function Mid(h: nat, lo: nat): nat
    requires h > 0
  {
    lo + Pow2(h - 1)
  }

  /** One past the last leaf below a node. */
  function End(n: nat, h: nat, lo: nat): nat {
    if lo + Pow2(h) < n then lo + Pow2(h) else n
  }

  function HeightFrom(n: nat, h: nat): (r: nat)
    ensures n <= Pow2(r)
    decreases if Pow2(h) < n then n - Pow2(h) else 0
  {
    if Pow2(h) < n then HeightFrom(n, h + 1) else h
  }

  /** The height of the root, which covers all leaves. */
  function Height(n: nat): (r: nat)
    ensures End(n, r, 0) == n
  {
    HeightFrom(n, 0)
  }

  /** The hash of a node; a missing right child counts as a copy of the left. */
  function CalcHash(hash: HashFn, txids: seq<Digest>, h: nat, lo: nat): Digest
    requires lo < |txids|
    decreases h
  {
    if h == 0 then txids[lo]
    else
      var left := CalcHash(hash, txids, h - 1, lo);
      hash(left, if Mid(h, lo) < |txids| then CalcHash(hash, txids, h - 1, Mid(h, lo)) else left)
  }

  function Root(hash: HashFn, txids: seq<Digest>): Digest
    requires txids != []
  {
    CalcHash(hash, txids, Height(|txids|), 0)
  }

  // ----- The encoder -----

  predicate AnyMatch(mask: seq<bool>, lo: nat, hi: nat)
    requires hi <= |mask|
  {
    exists i :: lo <= i < hi && mask[i]
  }

  datatype Encoding = Encoding(bits: seq<bool>, hashes: seq<Digest>)

  function Join(left: Encoding, right: Encoding): Encoding {
    Encoding([true] + (left.bits + right.bits), left.hashes + right.hashes)
  }

  function Build(hash: HashFn, txids: seq<Digest>, mask: seq<bool>, h: nat, lo: nat): Encoding
    requires |mask| == |txids| && lo < |txids|
    decreases h
  {
    var parent := AnyMatch(mask, lo, End(|txids|, h, lo));
    if h == 0 || !parent then Encoding([parent], [CalcHash(hash, txids, h, lo)])
    else
      Join(Build(hash, txids, mask, h - 1, lo),
           if Mid(h, lo) < |txids| then Build(hash, txids, mask, h - 1, Mid(h, lo)) else Encoding([], []))
  }

  // ----- The decoder -----

  datatype Walk = Walk(bad: bool, bitsUsed: nat, hashUsed: nat, matches: seq<Digest>)

  /** A walk and the hash it read last. */
  datatype Read = Read(walk: Walk, node: Digest)

  /** Reads a node that is not descended into. */
  function ReadLeaf(hashes: seq<Digest>, matched: bool, w: Walk): Read {
    if w.hashUsed >= |hashes| then Read(w.(bad := true), 0)
    else
      var d := hashes[w.hashUsed];
      Read(w.(hashUsed := w.hashUsed + 1, matches := if matched then w.matches + [d] else w.matches), d)
  }

  /** Puts two children together; equal ones are refused. */
  function Combine(hash: HashFn, left: Read, right: Read): Read {
    Read(if right.node == left.node then right.walk.(bad := true) else right.walk, hash(left.node, right.node))
  }

  /** Reads a subtree. Once something is wrong the walk goes on, but the flag stays. */
  function Extract(hash: HashFn, n: nat, bits: seq<bool>, hashes: seq<Digest>, h: nat, lo: nat, w: Walk): Read
    decreases h
  {
    if w.bitsUsed >= |bits| then Read(w.(bad := true), 0)
    else
      var parent, w1 := bits[w.bitsUsed], w.(bitsUsed := w.bitsUsed + 1);
      if h == 0 || !parent then ReadLeaf(hashes, h == 0 && parent, w1)
      else
        var left := Extract(hash, n, bits, hashes, h - 1, lo, w1);
        if Mid(h, lo) < n then Combine(hash, left, Extract(hash, n, bits, hashes, h - 1, Mid(h, lo), left.walk))
        else Read(left.walk, hash(left.node, left.node))
  }

  /** ExtractMatches: the root, or 0 on failure, and the matched txids read so far. */
  function ExtractMatches(hash: HashFn, n: nat, bits: seq<bool>, hashes: seq<Digest>, bad: bool)
    : (Digest, seq<Digest>)
  {
    if n == 0 || n > MAX_TRANSACTIONS || |hashes| > n || |bits| < |hashes| then (0, [])
    else
      var Read(w, d) := Extract(hash, n, bits, hashes, Height(n), 0, Walk(bad, 0, 0, []));
      if w.bad || (w.bitsUsed + 7) / 8 != (|bits| + 7) / 8 || w.hashUsed != |hashes| then (0, w.matches)
      else (d, w.matches)
  }

  // ----- Subsequences -----

  /** The elements of xs from lo up to hi that the mask selects, in order. */
  function Select(xs: seq<Digest>, mask: seq<bool>, lo: nat, hi: nat): seq<Digest>
    requires hi <= |xs| == |mask|
    decreases hi
  {
    if lo >= hi then [] else Select(xs, mask, lo, hi - 1) + if mask[hi - 1] then [xs[hi - 1]] else []
  }

  lemma {:induction false} SelectSplit(xs: seq<Digest>, mask: seq<bool>, lo: nat, mid: nat, hi: nat)
    requires lo <= mid <= hi <= |xs| == |mask|
    ensures Select(xs, mask, lo, hi) == Select(xs, mask, lo, mid) + Select(xs, mask, mid, hi)
    decreases hi
  {
    if mid < hi { SelectSplit(xs, mask, lo, mid, hi - 1); }
  }

  lemma {:induction false} SelectNone(xs: seq<Digest>, mask: seq<bool>, lo: nat, hi: nat)
    requires hi <= |xs| == |mask| && !AnyMatch(mask, lo, hi)
    ensures Select(xs, mask, lo, hi) == []
    decreases hi
  {
    if lo < hi { SelectNone(xs, mask, lo, hi - 1); }
  }

  /** Only the part of the mask between lo and hi matters. */
  lemma {:induction false} SelectSame(xs: seq<Digest>, mask: seq<bool>, mask': seq<bool>, lo: nat, hi: nat)
    requires hi <= |xs| == |mask| == |mask'| && forall i :: lo <= i < hi ==> mask[i] == mask'[i]
    ensures Select(xs, mask, lo, hi) == Select(xs, mask', lo, hi)
    decreases hi
  {
    if lo < hi { SelectSame(xs, mask, mask', lo, hi - 1); }
  }

  // ----- Soundness: whatever is accepted speaks the truth -----

  lemma {:induction false} BadStays(hash: HashFn, n: nat, bits: seq<bool>, hashes: seq<Digest>, h: nat, lo: nat,
    w: Walk)
    requires w.bad
    ensures Extract(hash, n, bits, hashes, h, lo, w).walk.bad
    decreases h
  {
    if h > 0 && w.bitsUsed < |bits| && bits[w.bitsUsed] {
      var w1 := w.(bitsUsed := w.bitsUsed + 1);
      BadStays(hash, n, bits, hashes, h - 1, lo, w1);
      BadStays(hash, n, bits, hashes, h - 1, Mid(h, lo), Extract(hash, n, bits, hashes, h - 1, lo, w1).walk);
    }
  }

  /** Reading the leaves from lo to hi added the txids that a mask selects, and nothing else. */
  predicate Added(txids: seq<Digest>, lo: nat, hi: nat, before: seq<Digest>, mask: seq<bool>, after: seq<Digest>) {
    lo <= hi <= |txids| == |mask| && after == before + Select(txids, mask, lo, hi)
  }

  lemma AddedLeaf(txids: seq<Digest>, lo: nat, before: seq<Digest>, matched: bool)
    requires lo < |txids|
    ensures Added(txids, lo, lo + 1, before, seq(|txids|, i => matched),
                  if matched then before + [txids[lo]] else before)
  {
  }

  lemma AddedNone(txids: seq<Digest>, lo: nat, hi: nat, before: seq<Digest>)
    requires lo <= hi <= |txids|
    ensures Added(txids, lo, hi, before, seq(|txids|, i => false), before)
  {
    SelectNone(txids, seq(|txids|, i => false), lo, hi);
  }

  lemma AddedBoth(txids: seq<Digest>, lo: nat, mid: nat, hi: nat, before: seq<Digest>, lm: seq<bool>,
                  between: seq<Digest>, rm: seq<bool>, after: seq<Digest>)
    requires Added(txids, lo, mid, before, lm, between) && Added(txids, mid, hi, between, rm, after)
    ensures Added(txids, lo, hi, before, lm[..mid] + rm[mid..], after)
  {
    var mask := lm[..mid] + rm[mid..];
    SelectSame(txids, lm, mask, lo, mid);
    SelectSame(txids, rm, mask, mid, hi);
    SelectSplit(txids, mask, lo, mid, hi);
  }

  /** Children that combine without complaint into the hash of a node are its two children. */
  lemma CombineSound(hash: HashFn, txids: seq<Digest>, h: nat, lo: nat, left: Read, right: Read)
    requires Injective(hash) && h > 0 && lo < |txids| && !Combine(hash, left, right).walk.bad
    requires Combine(hash, left, right).node == CalcHash(hash, txids, h, lo)
    ensures Mid(h, lo) < |txids| && left.node == CalcHash(hash, txids, h - 1, lo)
    ensures right.node == CalcHash(hash, txids, h - 1, Mid(h, lo))
  {
    var l := CalcHash(hash, txids, h - 1, lo);
    var r := if Mid(h, lo) < |txids| then CalcHash(hash, txids, h - 1, Mid(h, lo)) else l;
    assert Differ(hash, left.node, right.node, l, r);
  }

  // A claimed number of leaves may be wrong, as long as equal siblings tell.

  ghost predicate Distinct(txids: seq<Digest>) {
    forall i, j :: 0 <= i < j < |txids| ==> txids[i] != txids[j]
  }

  /** Different nodes of one height have different hashes. */
  lemma {:induction false} HashesDiffer(hash: HashFn, txids: seq<Digest>, h: nat, p: nat, q: nat)
    requires Injective(hash) && Distinct(txids) && p < q < |txids|
    ensures CalcHash(hash, txids, h, p) != CalcHash(hash, txids, h, q)
    decreases h
  {
    if h > 0 {
      HashesDiffer(hash, txids, h - 1, p, q);
      var l, l' := CalcHash(hash, txids, h - 1, p), CalcHash(hash, txids, h - 1, q);
      var r := if Mid(h, p) < |txids| then CalcHash(hash, txids, h - 1, Mid(h, p)) else l;
      var r' := if Mid(h, q) < |txids| then CalcHash(hash, txids, h - 1, Mid(h, q)) else l';
      assert Differ(hash, l, r, l', r');
    }
  }

  /** The children of a node, when it has two, have different hashes. */
  ghost predicate SiblingsDiffer(hash: HashFn, txids: seq<Digest>, h: nat, lo: nat) {
    h > 0 && Mid(h, lo) < |txids| ==> CalcHash(hash, txids, h - 1, lo) != CalcHash(hash, txids, h - 1, Mid(h, lo))
  }

  ghost predicate NoTwins(hash: HashFn, txids: seq<Digest>) {
    forall h: nat, lo: nat {:trigger SiblingsDiffer(hash, txids, h, lo)} :: SiblingsDiffer(hash, txids, h, lo)
  }

  lemma DistinctNoTwins(hash: HashFn, txids: seq<Digest>)
    requires Injective(hash) && Distinct(txids)
    ensures NoTwins(hash, txids)
  {
    forall h: nat, lo: nat ensures SiblingsDiffer(hash, txids, h, lo) {
      if h > 0 && Mid(h, lo) < |txids| { HashesDiffer(hash, txids, h - 1, lo, Mid(h, lo)); }
    }
  }

  /** The claimed number is right, or a wrong one shows as equal siblings. */
  ghost predicate MayClaim(hash: HashFn, txids: seq<Digest>, n: nat) { n == |txids| || NoTwins(hash, txids) }

  /** A subtree read without complaint whose hash is right contributes only true txids, in order. */
  lemma {:induction false} SubtreeSound(hash: HashFn, txids: seq<Digest>, n: nat, bits: seq<bool>, hashes: seq<Digest>,
                                        h: nat, lo: nat, w: Walk, r: Read) returns (mask: seq<bool>)
    requires Injective(hash) && lo < |txids| && MayClaim(hash, txids, n)
    requires r == Extract(hash, n, bits, hashes, h, lo, w)
    requires !r.walk.bad && r.node == CalcHash(hash, txids, h, lo)
    ensures Added(txids, lo, End(|txids|, h, lo), w.matches, mask, r.walk.matches)
    decreases h, 1
  {
    var parent := bits[w.bitsUsed];
    if h == 0 {
      mask := seq(|txids|, i => parent);
      AddedLeaf(txids, lo, w.matches, parent);
    } else if !parent {
      mask := seq(|txids|, i => false);
      AddedNone(txids, lo, End(|txids|, h, lo), w.matches);
    } else {
      var w1 := w.(bitsUsed := w.bitsUsed + 1);
      var left := Extract(hash, n, bits, hashes, h - 1, lo, w1);
      if Mid(h, lo) < n {
        mask := BothSound(hash, txids, n, bits, hashes, h, lo, w1, left,
                          Extract(hash, n, bits, hashes, h - 1, Mid(h, lo), left.walk));
      } else {
        LoneSound(hash, txids, n, h, lo, left.node);
        mask := SubtreeSound(hash, txids, n, bits, hashes, h - 1, lo, w1, left);
      }
    }
  }

  /** A node claimed to have one child has one. */
  lemma LoneSound(hash: HashFn, txids: seq<Digest>, n: nat, h: nat, lo: nat, left: Digest)
    requires Injective(hash) && lo < |txids| && MayClaim(hash, txids, n) && h > 0 && Mid(h, lo) >= n
    requires hash(left, left) == CalcHash(hash, txids, h, lo)
    ensures left == CalcHash(hash, txids, h - 1, lo) && Mid(h, lo) >= |txids|
  {
    var l := CalcHash(hash, txids, h - 1, lo);
    var r := if Mid(h, lo) < |txids| then CalcHash(hash, txids, h - 1, Mid(h, lo)) else l;
    assert Differ(hash, left, left, l, r);
    assert n != |txids| ==> SiblingsDiffer(hash, txids, h, lo);
  }

  lemma {:induction false} BothSound(hash: HashFn, txids: seq<Digest>, n: nat, bits: seq<bool>, hashes: seq<Digest>,
                                     h: nat, lo: nat, w1: Walk, left: Read, right: Read) returns (mask: seq<bool>)
    requires Injective(hash) && h > 0 && lo < |txids| && MayClaim(hash, txids, n)
    requires left == Extract(hash, n, bits, hashes, h - 1, lo, w1)
    requires right == Extract(hash, n, bits, hashes, h - 1, Mid(h, lo), left.walk)
    requires !Combine(hash, left, right).walk.bad
    requires Combine(hash, left, right).node == CalcHash(hash, txids, h, lo)
    ensures Added(txids, lo, End(|txids|, h, lo), w1.matches, mask, right.walk.matches)
    decreases h, 0
  {
    var mid := Mid(h, lo);
    CombineSound(hash, txids, h, lo, left, right);
    if left.walk.bad { BadStays(hash, n, bits, hashes, h - 1, mid, left.walk); }
    var lm := SubtreeSound(hash, txids, n, bits, hashes, h - 1, lo, w1, left);
    var rm := SubtreeSound(hash, txids, n, bits, hashes, h - 1, mid, left.walk, right);
    mask := lm[..mid] + rm[mid..];
    AddedBoth(txids, lo, mid, End(|txids|, h, lo), w1.matches, lm, left.walk.matches, rm, right.walk.matches);
  }

  /**
   Any bits and hashes accepted for the true root list only txids of the block, in block order. The claimed
   number of transactions may be any that gives a tree of the same height, if the txids are distinct.
   */
  lemma Soundness(hash: HashFn, txids: seq<Digest>, n: nat, bits: seq<bool>, hashes: seq<Digest>, bad: bool)
    returns (mask: seq<bool>)
    requires Injective(hash) && txids != [] && Root(hash, txids) != 0
    requires n == |txids| || (Distinct(txids) && Height(n) == Height(|txids|))
    requires ExtractMatches(hash, n, bits, hashes, bad).0 == Root(hash, txids)
    ensures |mask| == |txids|
    ensures ExtractMatches(hash, n, bits, hashes, bad).1 == Select(txids, mask, 0, |txids|)
  {
    var w, h := Walk(bad, 0, 0, []), Height(|txids|);
    if n != |txids| { DistinctNoTwins(hash, txids); }
    mask := SubtreeSound(hash, txids, n, bits, hashes, h, 0, w, Extract(hash, n, bits, hashes, h, 0, w));
  }

  /** Whatever the bits and hashes say, these are refused: wrong numbers, and hashes or bytes left over. */
  lemma Refused(hash: HashFn, n: nat, bits: seq<bool>, hashes: seq<Digest>, bad: bool)
    ensures n == 0 || n > 33333 || |hashes| > n || |bits| < |hashes| ==>
      ExtractMatches(hash, n, bits, hashes, bad) == (0, [])
    ensures bad ==> ExtractMatches(hash, n, bits, hashes, bad).0 == 0
    ensures var w := Extract(hash, n, bits, hashes, Height(n), 0, Walk(bad, 0, 0, [])).walk;
      w.hashUsed < |hashes| || w.bitsUsed + 8 <= |bits| ==> ExtractMatches(hash, n, bits, hashes, bad).0 == 0
  {
    if bad { BadStays(hash, n, bits, hashes, Height(n), 0, Walk(bad, 0, 0, [])); }
  }

  // ----- The format -----

  /** The first bit of a subtree says whether anything in it matches; without a match only its hash is there. */
  lemma BuildFormat(hash: HashFn, txids: seq<Digest>, mask: seq<bool>, h: nat, lo: nat)
    requires |mask| == |txids| && lo < |txids|
    ensures var e, any := Build(hash, txids, mask, h, lo), AnyMatch(mask, lo, End(|txids|, h, lo));
      && e.bits != [] && e.hashes != [] && e.bits[0] == any
      && (h == 0 || !any ==> |e.bits| == 1 && e.hashes == [CalcHash(hash, txids, h, lo)])
      && (h > 0 && any ==>
          && Build(hash, txids, mask, h - 1, lo).bits <= e.bits[1..]
          && Build(hash, txids, mask, h - 1, lo).hashes <= e.hashes)
  {
    if h > 0 && AnyMatch(mask, lo, End(|txids|, h, lo)) { BuildFormat(hash, txids, mask, h - 1, lo); }
  }

  // ----- Completeness: what is encoded is accepted -----

  /** The elements of xs from position at on begin with a. */
  predicate At<T(==)>(xs: seq<T>, at: nat, a: seq<T>) {
    at + |a| <= |xs| && forall i :: 0 <= i < |a| ==> a[i] == xs[at + i]
  }

  lemma AtConcat<T>(xs: seq<T>, at: nat, a: seq<T>, b: seq<T>)
    requires At(xs, at, a + b)
    ensures At(xs, at, a) && At(xs, at + |a|, b)
  {
    forall i | 0 <= i < |a| ensures a[i] == xs[at + i] { assert a[i] == (a + b)[i]; }
    forall i | 0 <= i < |b| ensures b[i] == xs[at + |a| + i] { assert b[i] == (a + b)[|a| + i]; }
  }

  /** An encoding stands at the point a walk has reached. */
  predicate Encoded(e: Encoding, bits: seq<bool>, hashes: seq<Digest>, w: Walk) {
    !w.bad && At(bits, w.bitsUsed, e.bits) && At(hashes, w.hashUsed, e.hashes)
  }

  function After(e: Encoding, w: Walk, found: seq<Digest>): Walk {
    Walk(false, w.bitsUsed + |e.bits|, w.hashUsed + |e.hashes|, w.matches + found)
  }

  /** What reading back an encoded subtree gives. */
  function Decoded(hash: HashFn, txids: seq<Digest>, mask: seq<bool>, h: nat, lo: nat, w: Walk): Read
    requires |mask| == |txids| && lo < |txids|
  {
    var hi := End(|txids|, h, lo);
    Read(After(Build(hash, txids, mask, h, lo), w, Select(txids, mask, lo, hi)), CalcHash(hash, txids, h, lo))
  }

  lemma LeafComplete(hash: HashFn, txids: seq<Digest>, mask: seq<bool>, bits: seq<bool>,
                     hashes: seq<Digest>, h: nat, lo: nat, w: Walk)
    requires |mask| == |txids| && lo < |txids| && Encoded(Build(hash, txids, mask, h, lo), bits, hashes, w)
    requires h == 0 || !AnyMatch(mask, lo, End(|txids|, h, lo))
    ensures Extract(hash, |txids|, bits, hashes, h, lo, w) == Decoded(hash, txids, mask, h, lo, w)
  {
    var hi, e := End(|txids|, h, lo), Build(hash, txids, mask, h, lo);
    assert bits[w.bitsUsed + 0] == e.bits[0] && hashes[w.hashUsed + 0] == e.hashes[0];
    if h == 0 {
      assert AnyMatch(mask, lo, hi) == mask[lo];
      assert Select(txids, mask, lo, lo + 1) == if mask[lo] then [txids[lo]] else [];
    } else {
      SelectNone(txids, mask, lo, hi);
    }
    assert w.matches + [] == w.matches;
  }

  /** The first bit says to descend; what follows is the encoding of the children. */
  lemma JoinAt(l: Encoding, r: Encoding, bits: seq<bool>, hashes: seq<Digest>, w: Walk, found: seq<Digest>)
    requires Encoded(Join(l, r), bits, hashes, w)
    ensures var w1 := w.(bitsUsed := w.bitsUsed + 1);
      && w.bitsUsed < |bits| && bits[w.bitsUsed]
      && Encoded(l, bits, hashes, w1)
      && Encoded(r, bits, hashes, After(l, w1, found))
  {
    AtConcat(bits, w.bitsUsed, [true], l.bits + r.bits);
    AtConcat(bits, w.bitsUsed + 1, l.bits, r.bits);
    AtConcat(hashes, w.hashUsed, l.hashes, r.hashes);
    assert bits[w.bitsUsed + 0] == [true][0];
  }

  lemma DecodedBoth(hash: HashFn, txids: seq<Digest>, mask: seq<bool>, h: nat, lo: nat, w: Walk, a: Read, b: Read)
    requires |mask| == |txids| && h > 0 && Mid(h, lo) < |txids| && AnyMatch(mask, lo, End(|txids|, h, lo))
    requires a == Decoded(hash, txids, mask, h - 1, lo, w.(bitsUsed := w.bitsUsed + 1))
    requires b == Decoded(hash, txids, mask, h - 1, Mid(h, lo), a.walk)
    requires SiblingsDiffer(hash, txids, h, lo)
    ensures Decoded(hash, txids, mask, h, lo, w) == Combine(hash, a, b)
  {
    var mid, hi := Mid(h, lo), End(|txids|, h, lo);
    SelectSplit(txids, mask, lo, mid, hi);
    var l, r := Select(txids, mask, lo, mid), Select(txids, mask, mid, hi);
    assert w.matches + l + r == w.matches + (l + r);
  }

  lemma DecodedLeft(hash: HashFn, txids: seq<Digest>, mask: seq<bool>, h: nat, lo: nat, w: Walk, a: Read)
    requires |mask| == |txids| && h > 0 && lo < |txids| <= Mid(h, lo) && AnyMatch(mask, lo, End(|txids|, h, lo))
    requires a == Decoded(hash, txids, mask, h - 1, lo, w.(bitsUsed := w.bitsUsed + 1))
    ensures Decoded(hash, txids, mask, h, lo, w) == Read(a.walk, hash(a.node, a.node))
  {
    var e := Build(hash, txids, mask, h - 1, lo);
    assert e.hashes + [] == e.hashes && e.bits + [] == e.bits;
  }

  /** Reading a node whose flag says to descend, given what its children read as. */
  lemma ExtractBoth(hash: HashFn, n: nat, bits: seq<bool>, hashes: seq<Digest>, h: nat, lo: nat, w: Walk, a: Read,
    b: Read)
    requires h > 0 && w.bitsUsed < |bits| && bits[w.bitsUsed] && Mid(h, lo) < n
    requires a == Extract(hash, n, bits, hashes, h - 1, lo, w.(bitsUsed := w.bitsUsed + 1))
    requires b == Extract(hash, n, bits, hashes, h - 1, Mid(h, lo), a.walk)
    ensures Extract(hash, n, bits, hashes, h, lo, w) == Combine(hash, a, b)
  {
  }

  lemma ExtractLeft(hash: HashFn, n: nat, bits: seq<bool>, hashes: seq<Digest>, h: nat, lo: nat, w: Walk, a: Read)
    requires h > 0 && w.bitsUsed < |bits| && bits[w.bitsUsed] && n <= Mid(h, lo)
    requires a == Extract(hash, n, bits, hashes, h - 1, lo, w.(bitsUsed := w.bitsUsed + 1))
    ensures Extract(hash, n, bits, hashes, h, lo, w) == Read(a.walk, hash(a.node, a.node))
  {
  }

  /** The encoding of a node stands where its own flag and the encodings of its children stand. */
  lemma Descend(hash: HashFn, txids: seq<Digest>, mask: seq<bool>, bits: seq<bool>, hashes: seq<Digest>, h: nat,
                lo: nat,
                w: Walk, w1: Walk, a: Read)
    requires |mask| == |txids| && h > 0 && lo < |txids| && AnyMatch(mask, lo, End(|txids|, h, lo))
    requires Encoded(Build(hash, txids, mask, h, lo), bits, hashes, w)
    requires w1 == w.(bitsUsed := w.bitsUsed + 1) && a == Decoded(hash, txids, mask, h - 1, lo, w1)
    ensures w.bitsUsed < |bits| && bits[w.bitsUsed]
    ensures Encoded(Build(hash, txids, mask, h - 1, lo), bits, hashes, w1)
    ensures Mid(h, lo) < |txids| ==> Encoded(Build(hash, txids, mask, h - 1, Mid(h, lo)), bits, hashes, a.walk)
  {
    var r := if Mid(h, lo) < |txids| then Build(hash, txids, mask, h - 1, Mid(h, lo)) else Encoding([], []);
    var hi := End(|txids|, h - 1, lo);
    JoinAt(Build(hash, txids, mask, h - 1, lo), r, bits, hashes, w, Select(txids, mask, lo, hi));
  }

  /** The decoder reads back exactly what the encoder wrote for a subtree. */
  lemma {:induction false} SubtreeComplete(hash: HashFn, txids: seq<Digest>, mask: seq<bool>, bits: seq<bool>,
                                           hashes: seq<Digest>, h: nat, lo: nat, w: Walk)
    requires NoTwins(hash, txids) && |mask| == |txids| && lo < |txids|
    requires Encoded(Build(hash, txids, mask, h, lo), bits, hashes, w)
    ensures Extract(hash, |txids|, bits, hashes, h, lo, w) == Decoded(hash, txids, mask, h, lo, w)
    decreases h, 1
  {
    if h == 0 || !AnyMatch(mask, lo, End(|txids|, h, lo)) {
      LeafComplete(hash, txids, mask, bits, hashes, h, lo, w);
    } else {
      var w1 := w.(bitsUsed := w.bitsUsed + 1);
      BranchComplete(hash, txids, mask, bits, hashes, h, lo, w, w1, Decoded(hash, txids, mask, h - 1, lo, w1));
    }
  }

  lemma {:induction false} BranchComplete(hash: HashFn, txids: seq<Digest>, mask: seq<bool>, bits: seq<bool>,
                                          hashes: seq<Digest>, h: nat, lo: nat, w: Walk, w1: Walk, a: Read)
    requires NoTwins(hash, txids) && |mask| == |txids| && lo < |txids|
    requires h > 0 && AnyMatch(mask, lo, End(|txids|, h, lo))
    requires Encoded(Build(hash, txids, mask, h, lo), bits, hashes, w)
    requires w1 == w.(bitsUsed := w.bitsUsed + 1) && a == Decoded(hash, txids, mask, h - 1, lo, w1)
    ensures Extract(hash, |txids|, bits, hashes, h, lo, w) == Decoded(hash, txids, mask, h, lo, w)
    decreases h, 0
  {
    Descend(hash, txids, mask, bits, hashes, h, lo, w, w1, a);
    SubtreeComplete(hash, txids, mask, bits, hashes, h - 1, lo, w1);
    if Mid(h, lo) < |txids| {
      var b := Decoded(hash, txids, mask, h - 1, Mid(h, lo), a.walk);
      SubtreeComplete(hash, txids, mask, bits, hashes, h - 1, Mid(h, lo), a.walk);
      assert SiblingsDiffer(hash, txids, h, lo);
      DecodedBoth(hash, txids, mask, h, lo, w, a, b);
      ExtractBoth(hash, |txids|, bits, hashes, h, lo, w, a, b);
    } else {
      DecodedLeft(hash, txids, mask, h, lo, w, a);
      ExtractLeft(hash, |txids|, bits, hashes, h, lo, w, a);
    }
  }

  // ----- Sizes -----

  /** How many leaves from lo up to hi are matched. */
  function Count(mask: seq<bool>, lo: nat, hi: nat): nat
    requires hi <= |mask|
    decreases hi
  {
    if lo >= hi then 0 else Count(mask, lo, hi - 1) + if mask[hi - 1] then 1 else 0
  }

  lemma {:induction false} CountSplit(mask: seq<bool>, lo: nat, mid: nat, hi: nat)
    requires lo <= mid <= hi <= |mask|
    ensures Count(mask, lo, hi) == Count(mask, lo, mid) + Count(mask, mid, hi)
    decreases hi
  {
    if mid < hi { CountSplit(mask, lo, mid, hi - 1); }
  }

  lemma CountPositive(mask: seq<bool>, lo: nat, hi: nat)
    requires hi <= |mask| && AnyMatch(mask, lo, hi)
    ensures Count(mask, lo, hi) > 0
  {
    var i :| lo <= i < hi && mask[i];
    CountSplit(mask, lo, i, hi);
    CountSplit(mask, i, i + 1, hi);
  }

  /** Nodes that are walked through and have no right child. */
  function Lonely(n: nat, mask: seq<bool>, h: nat, lo: nat): nat
    requires |mask| == n && lo < n
    decreases h
  {
    if h == 0 || !AnyMatch(mask, lo, End(n, h, lo)) then 0
    else Lonely(n, mask, h - 1, lo) + if Mid(h, lo) < n then Lonely(n, mask, h - 1, Mid(h, lo)) else 1
  }

  /** How many hashes and bits a subtree takes. */
  lemma {:induction false} SubtreeSizes(hash: HashFn, txids: seq<Digest>, mask: seq<bool>, h: nat, lo: nat)
    requires |mask| == |txids| && lo < |txids|
    ensures var e := Build(hash, txids, mask, h, lo);
      && 1 <= |e.hashes| <= End(|txids|, h, lo) - lo
      && |e.bits| + 1 == 2 * |e.hashes| + Lonely(|txids|, mask, h, lo)
    decreases h
  {
    if h > 0 && AnyMatch(mask, lo, End(|txids|, h, lo)) {
      SubtreeSizes(hash, txids, mask, h - 1, lo);
      if Mid(h, lo) < |txids| { SubtreeSizes(hash, txids, mask, h - 1, Mid(h, lo)); }
    }
  }

  /** c hashes for each of h levels: c times h. */
  function Levels(c: nat, h: nat): nat {
    if h == 0 then 0 else c + Levels(c, h - 1)
  }

  lemma {:induction false} LevelsIs(c: nat, h: nat)
    ensures Levels(c, h) == c * h
  {
    if h > 0 {
      LevelsIs(c, h - 1);
      assert c * h == c + c * (h - 1);
    }
  }

  lemma {:induction false} LevelsAdd(a: nat, b: nat, h: nat)
    ensures Levels(a + b, h) == Levels(a, h) + Levels(b, h)
  {
    if h > 0 { LevelsAdd(a, b, h - 1); }
  }

  /** At most one hash and one more per level for each matched leaf. */
  predicate FewFor(mask: seq<bool>, lo: nat, hi: nat, h: nat, used: nat) {
    hi <= |mask| && used <= 1 + Levels(Count(mask, lo, hi), h)
  }

  lemma FewForBoth(mask: seq<bool>, lo: nat, mid: nat, hi: nat, h: nat, l: nat, r: nat)
    requires h > 0 && lo <= mid <= hi <= |mask| && AnyMatch(mask, lo, hi)
    requires FewFor(mask, lo, mid, h - 1, l) && FewFor(mask, mid, hi, h - 1, r)
    ensures FewFor(mask, lo, hi, h, l + r)
  {
    CountPositive(mask, lo, hi);
    CountSplit(mask, lo, mid, hi);
    LevelsAdd(Count(mask, lo, mid), Count(mask, mid, hi), h - 1);
  }

  lemma {:induction false} HashesPerMatch(hash: HashFn, txids: seq<Digest>, mask: seq<bool>, h: nat, lo: nat)
    requires |mask| == |txids| && lo < |txids|
    ensures FewFor(mask, lo, End(|txids|, h, lo), h, |Build(hash, txids, mask, h, lo).hashes|)
    decreases h
  {
    var n, hi := |txids|, End(|txids|, h, lo);
    if h > 0 && AnyMatch(mask, lo, hi) {
      HashesPerMatch(hash, txids, mask, h - 1, lo);
      var l := |Build(hash, txids, mask, h - 1, lo).hashes|;
      if Mid(h, lo) < n {
        HashesPerMatch(hash, txids, mask, h - 1, Mid(h, lo));
        FewForBoth(mask, lo, Mid(h, lo), hi, h, l, |Build(hash, txids, mask, h - 1, Mid(h, lo)).hashes|);
      }
    }
  }

  // ----- The main results about the encoder -----

  /** The bits of a sequence of whole bytes that starts with the given bits. */
  function Padded(bits: seq<bool>): (r: seq<bool>)
    ensures |r| == (|bits| + 7) / 8 * 8 && bits <= r
  {
    bits + seq((|bits| + 7) / 8 * 8 - |bits|, i => false)
  }

  function BuildRoot(hash: HashFn, txids: seq<Digest>, mask: seq<bool>): Encoding
    requires |mask| == |txids| > 0
  {
    Build(hash, txids, mask, Height(|txids|), 0)
  }

  /** The whole walk over an encoding, with or without padding behind it. */
  lemma RootComplete(hash: HashFn, txids: seq<Digest>, mask: seq<bool>, bits: seq<bool>)
    requires Injective(hash) && Distinct(txids) && |mask| == |txids| > 0
    requires BuildRoot(hash, txids, mask).bits <= bits
    ensures var e := BuildRoot(hash, txids, mask);
      Extract(hash, |txids|, bits, e.hashes, Height(|txids|), 0, Walk(false, 0, 0, []))
        == Read(Walk(false, |e.bits|, |e.hashes|, Select(txids, mask, 0, |txids|)), Root(hash, txids))
  {
    var e := BuildRoot(hash, txids, mask);
    DistinctNoTwins(hash, txids);
    assert At(bits, 0, e.bits) && At(e.hashes, 0, e.hashes);
    SubtreeComplete(hash, txids, mask, bits, e.hashes, Height(|txids|), 0, Walk(false, 0, 0, []));
    assert [] + Select(txids, mask, 0, |txids|) == Select(txids, mask, 0, |txids|);
  }

  /** Encoding, packing into bytes, unpacking and decoding returns the root and the matched txids. */
  lemma Completeness(hash: HashFn, txids: seq<Digest>, mask: seq<bool>)
    requires Injective(hash) && Distinct(txids) && 0 < |txids| <= 33333 && |mask| == |txids|
    ensures var e := BuildRoot(hash, txids, mask);
      ExtractMatches(hash, |txids|, Padded(e.bits), e.hashes, false) ==
        (Root(hash, txids), Select(txids, mask, 0, |txids|))
  {
    SubtreeSizes(hash, txids, mask, Height(|txids|), 0);
    RootComplete(hash, txids, mask, Padded(BuildRoot(hash, txids, mask).bits));
  }

  /** The documented size bounds: at most one hash per transaction, and few when little matches. */
  lemma HashBounds(hash: HashFn, txids: seq<Digest>, mask: seq<bool>)
    requires |mask| == |txids| > 0
    ensures var e := BuildRoot(hash, txids, mask);
      |e.hashes| <= |txids| && |e.hashes| <= 1 + Count(mask, 0, |mask|) * Height(|txids|)
  {
    var h := Height(|txids|);
    SubtreeSizes(hash, txids, mask, h, 0);
    HashesPerMatch(hash, txids, mask, h, 0);
    LevelsIs(Count(mask, 0, |mask|), h);
  }

  /**
   The documented bound of 2*N-1 flag bits for N hashes holds exactly when no node without a
   right child is walked through.
   */
  lemma FlagBits(hash: HashFn, txids: seq<Digest>, mask: seq<bool>)
    requires |mask| == |txids| > 0
    ensures var e := BuildRoot(hash, txids, mask);
      |e.bits| <= 2 * |e.hashes| - 1 <==> Lonely(|txids|, mask, Height(|txids|), 0) == 0
  {
    SubtreeSizes(hash, txids, mask, Height(|txids|), 0);
  }

  /** It fails for three transactions with only the third matched: 4 bits and 2 hashes. */
  lemma FlagBitsExample(hash: HashFn)
    ensures var e := BuildRoot(hash, [1, 2, 3], [false, false, true]);
      |e.bits| == 4 && |e.hashes| == 2
  {
    var txids, mask := [1, 2, 3], [false, false, true];
    assert Pow2(0) == 1 && Pow2(1) == 2 && Pow2(2) == 4;
    assert HeightFrom(3, 2) == 2;
    assert HeightFrom(3, 1) == 2;
    assert mask[2];
    assert !AnyMatch(mask, 0, 2) && AnyMatch(mask, 2, 3) && AnyMatch(mask, 0, 3);
    assert Build(hash, txids, mask, 0, 2).bits == [true];
    assert Build(hash, txids, mask, 1, 2).bits == [true, true];
    assert Build(hash, txids, mask, 1, 0).bits == [false];
  }
}
