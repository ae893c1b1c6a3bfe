/**
 The CPartialMerkleTree object: the recursive walks that write and read its flag bits and
 hashes, and the packing of flag bits into bytes, each proved against MerkleSpec.
 */
module PartialMerkleTree {
  import opened BlockMerkle
  import opened MerkleSpec
  import opened Powers

  class PartialMerkleTree {
    const hash: HashFn
    var nTransactions: nat
    var vBits: seq<bool>
    var vHash: seq<Digest>
    var fBad: bool

    /** Encodes the txids that the mask selects. */
    constructor (hash: HashFn, vTxid: seq<Digest>, vMatch: seq<bool>)
      requires |vMatch| == |vTxid| > 0
      ensures this.hash == hash && nTransactions == |vTxid| && !fBad
      ensures Encoding(vBits, vHash) == BuildRoot(hash, vTxid, vMatch)
    {
      this.hash := hash;
      nTransactions, fBad := |vTxid|, false;
      vBits, vHash := [], [];
      new;
      var nHeight := FindHeight();
      TraverseAndBuild(nHeight, 0, vTxid, vMatch);
    }

    /** The default object is already bad. */
    constructor Empty(hash: HashFn)
      ensures this.hash == hash && nTransactions == 0 && vBits == [] && vHash == [] && fBad
    {
      this.hash := hash;
      nTransactions, vBits, vHash, fBad := 0, [], [], true;
    }

    method FindHeight() returns (nHeight: nat)
      ensures nHeight == Height(nTransactions)
    {
      nHeight := 0;
      WidthExact(nTransactions, 0, 1);
      while TreeWidth(nTransactions, nHeight) > 1
        invariant HeightFrom(nTransactions, nHeight) == Height(nTransactions)
        decreases if Pow2(nHeight) < nTransactions then nTransactions - Pow2(nHeight) else 0
      {
        WidthExact(nTransactions, nHeight, 1);
        nHeight := nHeight + 1;
      }
      WidthExact(nTransactions, nHeight, 1);
    }

    method TraverseAndBuild(height: nat, pos: nat, vTxid: seq<Digest>, vMatch: seq<bool>)
      requires |vMatch| == |vTxid| == nTransactions && pos * Pow2(height) < nTransactions
      modifies this`vBits, this`vHash
      ensures var e := Build(hash, vTxid, vMatch, height, pos * Pow2(height));
        vBits == old(vBits) + e.bits && vHash == old(vHash) + e.hashes
      decreases height
    {
      var fParentOfMatch := ParentOfMatch(height, pos, vMatch);
      ghost var b, h, lo := vBits, vHash, pos * Pow2(height);
      vBits := vBits + [fParentOfMatch];
      if height == 0 || !fParentOfMatch {
        vHash := vHash + [CalcHash(hash, vTxid, height, pos * Pow2(height))];
      } else {
        ChildLeaves(height, pos);
        ghost var l := Build(hash, vTxid, vMatch, height - 1, lo);
        TraverseAndBuild(height - 1, pos * 2, vTxid, vMatch);
        var right := RightExists(height, pos);
        if right {
          TraverseAndBuild(height - 1, pos * 2 + 1, vTxid, vMatch);
          Appended(b, h, l, Build(hash, vTxid, vMatch, height - 1, Mid(height, lo)));
        } else {
          Appended(b, h, l, Encoding([], []));
        }
      }
    }

    /** Writing a flag, the left part and the right part appends their joint encoding. */
    static lemma Appended(bits: seq<bool>, hashes: seq<Digest>, l: Encoding, r: Encoding)
      ensures bits + [true] + l.bits + r.bits == bits + Join(l, r).bits
      ensures hashes + l.hashes + r.hashes == hashes + Join(l, r).hashes
      ensures r.bits == [] ==> bits + [true] + l.bits == bits + Join(l, r).bits
      ensures r.hashes == [] ==> hashes + l.hashes == hashes + Join(l, r).hashes
    {
    }

    /** Whether a node has a right child, by the width of the level below. */
    method RightExists(height: nat, pos: nat) returns (r: bool)
      requires height > 0
      ensures r == (Mid(height, pos * Pow2(height)) < nTransactions)
    {
      WidthExact(nTransactions, height - 1, pos * 2 + 1);
      ChildLeaves(height, pos);
      r := pos * 2 + 1 < TreeWidth(nTransactions, height - 1);
    }

    /** Whether a node is the parent of a matched txid. */
    method ParentOfMatch(height: nat, pos: nat, vMatch: seq<bool>) returns (found: bool)
      requires |vMatch| == nTransactions && pos * Pow2(height) < nTransactions
      ensures found == AnyMatch(vMatch, pos * Pow2(height), End(nTransactions, height, pos * Pow2(height)))
    {
      found := false;
      ghost var lo := pos * Pow2(height);
      assert (pos + 1) * Pow2(height) == lo + Pow2(height);
      var p := pos * Pow2(height);
      while p < (pos + 1) * Pow2(height) && p < nTransactions
        invariant lo <= p <= End(nTransactions, height, lo)
        invariant found == AnyMatch(vMatch, lo, p)
      {
        found := found || vMatch[p];
        p := p + 1;
      }
    }

    /** The hash of a node, and how far the walk came; a problem is noted in fBad. */
    method TraverseAndExtract(height: nat, pos: nat, bitsUsed: nat, hashUsed: nat, matches: seq<Digest>)
      returns (node: Digest, bitsUsed': nat, hashUsed': nat, matches': seq<Digest>)
      modifies this`fBad
      ensures Read(Walk(fBad, bitsUsed', hashUsed', matches'), node) ==
        Extract(hash, nTransactions, vBits, vHash, height, pos * Pow2(height),
          Walk(old(fBad), bitsUsed, hashUsed, matches))
      decreases height
    {
      bitsUsed', hashUsed', matches' := bitsUsed, hashUsed, matches;
      if bitsUsed >= |vBits| {
        fBad := true;
        return 0, bitsUsed', hashUsed', matches';
      }
      var fParentOfMatch := vBits[bitsUsed];
      bitsUsed' := bitsUsed + 1;
      if height == 0 || !fParentOfMatch {
        if hashUsed >= |vHash| {
          fBad := true;
          return 0, bitsUsed', hashUsed', matches';
        }
        node := vHash[hashUsed];
        hashUsed' := hashUsed + 1;
        if height == 0 && fParentOfMatch {
          matches' := matches' + [node];
        }
      } else {
        ChildLeaves(height, pos);
        var left;
        left, bitsUsed', hashUsed', matches' := TraverseAndExtract(height - 1, pos * 2, bitsUsed', hashUsed', matches');
        ghost var lo, w := pos * Pow2(height), Walk(old(fBad), bitsUsed, hashUsed, matches);
        ghost var a := Read(Walk(fBad, bitsUsed', hashUsed', matches'), left);
        var right := left;
        var both := RightExists(height, pos);
        if !both {
          ExtractLeft(hash, nTransactions, vBits, vHash, height, lo, w, a);
        } else {
          right, bitsUsed', hashUsed', matches' :=
            TraverseAndExtract(height - 1, pos * 2 + 1, bitsUsed', hashUsed', matches');
          ghost var b := Read(Walk(fBad, bitsUsed', hashUsed', matches'), right);
          ExtractBoth(hash, nTransactions, vBits, vHash, height, lo, w, a, b);
          if right == left {
            fBad := true;
          }
        }
        node := hash(left, right);
      }
    }

    method ExtractMatches() returns (root: Digest, vMatch: seq<Digest>)
      modifies this`fBad
      ensures (root, vMatch) == MerkleSpec.ExtractMatches(hash, nTransactions, vBits, vHash, old(fBad))
    {
      vMatch := [];
      if nTransactions == 0 || nTransactions > MAX_TRANSACTIONS || |vHash| > nTransactions || |vBits| < |vHash| {
        return 0, vMatch;
      }
      var nHeight := FindHeight();
      var bitsUsed, hashUsed;
      root, bitsUsed, hashUsed, vMatch := TraverseAndExtract(nHeight, 0, 0, 0, vMatch);
      if fBad || (bitsUsed + 7) / 8 != (|vBits| + 7) / 8 || hashUsed != |vHash| {
        root := 0;
      }
    }
  }

  // ----- Flag bits in bytes, least significant bit first -----

  function Bit(k: nat): bv8
    requires k < 8
  {
    match k case 0 => 1 case 1 => 2 case 2 => 4 case 3 => 8 case 4 => 16 case 5 => 32 case 6 => 64 case _ => 128
  }

  predicate IsSet(b: bv8, k: nat)
    requires k < 8
  {
    b & Bit(k) != 0
  }

  lemma SetBit(b: bv8, j: nat, k: nat)
    requires j < 8 && k < 8
    ensures IsSet(b | Bit(j), k) <==> IsSet(b, k) || j == k
  {
    var bj, bk := Bit(j), Bit(k);
    assert j == k ==> bj == bk;
    assert j != k ==> bj & bk == 0;
    assert bk & bk != 0;
    Distribute(b, bj, bk);
  }

  lemma Distribute(b: bv8, c: bv8, m: bv8)
    ensures (b | c) & m == (b & m) | (c & m)
  {
  }

  lemma NoBits(k: nat)
    requires k < 8
    ensures !IsSet(0, k)
  {
  }

  /** Bit p of a byte string. */
  predicate FlagAt(bytes: seq<bv8>, p: nat)
    requires p < 8 * |bytes|
  {
    IsSet(bytes[p / 8], p % 8)
  }

  method Pack(vBits: seq<bool>) returns (vBytes: seq<bv8>)
    ensures |vBytes| == (|vBits| + 7) / 8
    ensures forall p :: 0 <= p < 8 * |vBytes| ==> FlagAt(vBytes, p) == (p < |vBits| && vBits[p])
  {
    vBytes := seq((|vBits| + 7) / 8, i => 0);
    forall p | 0 <= p < 8 * |vBytes| ensures !FlagAt(vBytes, p) { NoBits(p % 8); }
    for p := 0 to |vBits|
      invariant |vBytes| == (|vBits| + 7) / 8
      invariant forall q :: 0 <= q < 8 * |vBytes| ==> FlagAt(vBytes, q) == (q < p && vBits[q])
    {
      if vBits[p] {
        ghost var before := vBytes;
        vBytes := vBytes[p / 8 := vBytes[p / 8] | Bit(p % 8)];
        forall q | 0 <= q < 8 * |vBytes| ensures FlagAt(vBytes, q) == (FlagAt(before, q) || q == p) {
          SetBit(before[p / 8], p % 8, q % 8);
        }
      }
    }
  }

  method Unpack(vBytes: seq<bv8>) returns (vBits: seq<bool>)
    ensures |vBits| == 8 * |vBytes|
    ensures forall p :: 0 <= p < |vBits| ==> vBits[p] == FlagAt(vBytes, p)
  {
    vBits := [];
    for p := 0 to 8 * |vBytes|
      invariant |vBits| == p
      invariant forall q :: 0 <= q < p ==> vBits[q] == FlagAt(vBytes, q)
    {
      vBits := vBits + [vBytes[p / 8] & Bit(p % 8) != 0];
    }
  }

  /** A tree sent over the wire and decoded at the other end. */
  method RoundTrip(hash: HashFn, vTxid: seq<Digest>, vMatch: seq<bool>) returns (root: Digest, matches: seq<Digest>)
    requires Injective(hash) && Distinct(vTxid) && 0 < |vTxid| <= 33333 && |vMatch| == |vTxid|
    ensures root == Root(hash, vTxid) == BlockRoot(hash, vTxid)
    ensures matches == Select(vTxid, vMatch, 0, |vTxid|)
  {
    var sent := new PartialMerkleTree(hash, vTxid, vMatch);
    var vBytes := Pack(sent.vBits);
    var received := new PartialMerkleTree.Empty(hash);
    var vBits := Unpack(vBytes);
    assert vBits == Padded(sent.vBits);
    received.nTransactions, received.vHash, received.vBits, received.fBad :=
      sent.nTransactions, sent.vHash, vBits, false;
    root, matches := received.ExtractMatches();
    Completeness(hash, vTxid, vMatch);
    RootIsBlockRoot(hash, vTxid);
  }
}
