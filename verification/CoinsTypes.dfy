/** Values shared by the models of the coins views (src/coins.h). */
module CoinsTypes {
  import opened Basics

  /** A 256-bit hash; the null hash is 0. */
  type Uint256 = nat
  const NULL_HASH: Uint256 := 0

  /** Which shielded value pool an anchor or nullifier belongs to. */
  datatype Pool = Sprout | Sapling | Orchard

  type Key = (Pool, Uint256)

  /** One value for each pool. */
  datatype PerPool<T> = PerPool(sprout: T, sapling: T, orchard: T) {

    function Get(p: Pool): T {
      match p
      case Sprout => sprout
      case Sapling => sapling
      case Orchard => orchard
    }

    function Set(p: Pool, t: T): (r: PerPool<T>)
      ensures forall q :: r.Get(q) == if q == p then t else Get(q)
    {
      match p
      case Sprout => this.(sprout := t)
      case Sapling => this.(sapling := t)
      case Orchard => this.(orchard := t)
    }
  }

  /** A transaction output; a spent one is null, marked by the value -1. */
  datatype TxOut = TxOut(value: int, script: seq<int>) {
    predicate IsNull() { value == -1 }
  }

  const NULL_OUT := TxOut(-1, [])

  /** The unspent outputs of one transaction. */
  datatype Coins = Coins(coinBase: bool, vout: seq<TxOut>, height: int, version: int) {

    predicate IsPruned() { forall i :: 0 <= i < |vout| ==> vout[i].IsNull() }

    /** No spent output at the end of vout. */
    predicate IsClean() { vout == [] || !vout[|vout| - 1].IsNull() }

    predicate IsAvailable(n: nat) { n < |vout| && !vout[n].IsNull() }

    /** Like another entry but for outputs that are no longer available. */
    ghost predicate SameBut(c: Coins) {
      && coinBase == c.coinBase && height == c.height && version == c.version
      && forall k: nat :: IsAvailable(k) ==> k < |c.vout| && vout[k] == c.vout[k]
    }
  }

  const CLEARED := Coins(false, [], 0, 0)

  /** vout without the spent outputs at its end. */
  function Trim(vout: seq<TxOut>): (r: seq<TxOut>)
    ensures r <= vout
    ensures r == [] || !r[|r| - 1].IsNull()
    ensures forall i :: |r| <= i < |vout| ==> vout[i].IsNull()
  {
    if vout == [] || !vout[|vout| - 1].IsNull() then vout else Trim(vout[..|vout| - 1])
  }

  function Cleanup(c: Coins): (r: Coins)
    ensures r.IsClean()
    ensures r.IsPruned() <==> c.IsPruned()
    ensures r.IsPruned() <==> r.vout == []
    ensures forall n: nat :: r.IsAvailable(n) <==> c.IsAvailable(n)
    ensures r.SameBut(c)
    ensures |r.vout| <= |c.vout| && (c.IsClean() ==> r == c)
  {
    c.(vout := Trim(c.vout))
  }

  /** Spends output n: the flag says whether it was there to be spent. */
  function Spend(c: Coins, n: nat): (r: (bool, Coins))
    ensures r.0 <==> c.IsAvailable(n)
    ensures forall k: nat :: r.1.IsAvailable(k) <==> c.IsAvailable(k) && k != n
    ensures r.0 ==> r.1.IsClean()
    ensures !r.0 ==> r.1 == c
    ensures r.1.SameBut(c)
  {
    if n >= |c.vout| || c.vout[n].IsNull() then (false, c)
    else (true, Cleanup(c.(vout := c.vout[n := NULL_OUT])))
  }

  /** A stack of caches of type C over a data base of type B. */
  datatype Stack<C, B> = Base(db: B) | Layer(top: C, below: Stack<C, B>)

  function Lookup<K, V>(m: map<K, V>, k: K): Option<V> {
    if k in m then Some(m[k]) else None
  }

  function Depth<C, B>(s: Stack<C, B>): nat {
    if s.Base? then 0 else 1 + Depth(s.below)
  }
}
