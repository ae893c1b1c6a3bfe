/**
 What a block template is: transactions of the mempool, one after the other, each fit to follow the
 ones before it. The coins view and script checks are parameters.
 */
module MinerSpec {

  type TxId = nat

  datatype JoinSplit = JoinSplit(vpubOld: int, vpubNew: int)

  datatype Tx = Tx(
    id: TxId,
    spends: seq<TxId>,
    size: nat,
    sigOps: nat,
    valueOut: int,
    joinSplits: seq<JoinSplit>,
    saplingBalance: int,
    orchardBalance: int,
    coinBase: bool,
    isFinal: bool,
    isExpired: bool)

  /** The coins view, the script checks and the priorities of the mempool. */
  datatype Rules<!V> = Rules(
    haveCoins: (V, TxId) -> bool,
    haveInputs: (V, Tx) -> bool,
    valueIn: (V, Tx) -> int,
    p2shSigOps: (V, Tx) -> nat,
    checkInputs: (V, Tx) -> bool,
    updateCoins: (V, Tx) -> V,
    priority: Tx -> real,
    feeRate: Tx -> int,
    priorityDelta: TxId -> real,
    feeDelta: TxId -> int,
    allowFree: real -> bool,
    minRelayTxFee: int)

  datatype Balances = Balances(sprout: int, sapling: int, orchard: int) {
    predicate NonNegative() { sprout >= 0 && sapling >= 0 && orchard >= 0 }
  }

  /** The tip the block builds on. `monitored` says that the turnstile rule applies. */
  datatype Context<!V> = Context(
    rules: Rules<V>,
    view: V,
    mempool: seq<Tx>,
    maxSize: nat,
    minSize: nat,
    prioritySize: nat,
    start: Balances,
    monitored: bool)

  const MAX_BLOCK_SIZE := 2000000
  const MAX_BLOCK_SIGOPS := 20000

  function Ids(b: seq<Tx>): set<TxId> { set t | t in b :: t.id }

  predicate Eligible(t: Tx) { !t.coinBase && t.isFinal && !t.isExpired }

  /** The transactions that must be in the block first: those whose outputs the view does not have. */
  function Waits<V>(c: Context<V>, t: Tx): set<TxId> {
    set h | h in t.spends && !c.rules.haveCoins(c.view, h)
  }

  /** Every parent is in the chain or in the mempool. */
  predicate SpendKnown<V>(c: Context<V>, t: Tx) { Waits(c, t) <= Ids(c.mempool) }

  predicate Lacks<V>(c: Context<V>, t: Tx, s: int) {
    0 <= s < |t.spends| && !c.rules.haveCoins(c.view, t.spends[s])
  }

  /** An unknown parent is met before any other parent to wait for. */
  ghost predicate UnknownFirst<V>(c: Context<V>, t: Tx) {
    !SpendKnown(c, t) ==>
      exists s :: Lacks(c, t, s) && t.spends[s] !in Ids(c.mempool) && forall i :: 0 <= i < s ==> !Lacks(c, t, i)
  }

  /**
   Ids are unique. Parents should be in the chain or in the mempool; a transaction for which this
   fails is skipped, as long as it was not yet registered with another parent.
   */
  ghost predicate Tidy<V>(c: Context<V>) {
    && (forall i, j :: 0 <= i < j < |c.mempool| ==> c.mempool[i].id != c.mempool[j].id)
    && (forall t {:trigger UnknownFirst(c, t)} :: t in c.mempool ==> UnknownFirst(c, t))
  }

  // ----- What a list of transactions adds up to -----

  function ViewAfter<V>(c: Context<V>, b: seq<Tx>): V {
    if b == [] then c.view else c.rules.updateCoins(ViewAfter(c, b[..|b| - 1]), b[|b| - 1])
  }

  function SizeAfter(b: seq<Tx>): nat {
    if b == [] then 1000 else SizeAfter(b[..|b| - 1]) + b[|b| - 1].size
  }

  function SigOpsAfter<V>(c: Context<V>, b: seq<Tx>): nat {
    if b == [] then 100
    else
      var n := |b| - 1;
      SigOpsAfter(c, b[..n]) + b[n].sigOps + c.rules.p2shSigOps(ViewAfter(c, b[..n]), b[n])
  }

  function FeeOf<V>(c: Context<V>, b: seq<Tx>, t: Tx): int { c.rules.valueIn(ViewAfter(c, b), t) - t.valueOut }

  function FeesAfter<V>(c: Context<V>, b: seq<Tx>): int {
    if b == [] then 0 else FeesAfter(c, b[..|b| - 1]) + FeeOf(c, b[..|b| - 1], b[|b| - 1])
  }

  function SproutChange(js: seq<JoinSplit>): int {
    if js == [] then 0 else SproutChange(js[..|js| - 1]) + js[|js| - 1].vpubOld - js[|js| - 1].vpubNew
  }

  function Moved(p: Balances, t: Tx): Balances {
    Balances(p.sprout + SproutChange(t.joinSplits), p.sapling - t.saplingBalance, p.orchard - t.orchardBalance)
  }

  function BalancesAfter(start: Balances, b: seq<Tx>): Balances {
    if b == [] then start else Moved(BalancesAfter(start, b[..|b| - 1]), b[|b| - 1])
  }

  lemma {:induction false} Added<V>(c: Context<V>, b: seq<Tx>, t: Tx)
    ensures ViewAfter(c, b + [t]) == c.rules.updateCoins(ViewAfter(c, b), t)
    ensures SizeAfter(b + [t]) == SizeAfter(b) + t.size
    ensures SigOpsAfter(c, b + [t]) == SigOpsAfter(c, b) + t.sigOps + c.rules.p2shSigOps(ViewAfter(c, b), t)
    ensures FeesAfter(c, b + [t]) == FeesAfter(c, b) + FeeOf(c, b, t)
    ensures BalancesAfter(c.start, b + [t]) == Moved(BalancesAfter(c.start, b), t)
    ensures Ids(b + [t]) == Ids(b) + {t.id}
  {
    assert (b + [t])[..|b|] == b;
    assert forall x :: x in b + [t] <==> x in b || x == t;
  }

  // ----- Which transaction may come next -----

  /** The consensus side: t can follow the block b. */
  ghost predicate MayFollow<V>(c: Context<V>, b: seq<Tx>, t: Tx) {
    && SizeAfter(b) + t.size < c.maxSize
    && SigOpsAfter(c, b) + t.sigOps + c.rules.p2shSigOps(ViewAfter(c, b), t) < MAX_BLOCK_SIGOPS
    && c.rules.haveInputs(ViewAfter(c, b), t) && c.rules.checkInputs(ViewAfter(c, b), t)
    && (c.monitored ==> Moved(BalancesAfter(c.start, b), t).NonNegative())
  }

  /** The policy side: a transaction that pays too little once the block is large enough. */
  ghost predicate TooCheap<V>(c: Context<V>, b: seq<Tx>, t: Tx) {
    && c.rules.priorityDelta(t.id) <= 0.0 && c.rules.feeDelta(t.id) <= 0
    && c.rules.feeRate(t) < c.rules.minRelayTxFee && SizeAfter(b) + t.size >= c.minSize
  }

  /** Transaction k of the block is a new one of the mempool, comes after all it waits for, and may follow. */
  ghost predicate GoodAt<V>(c: Context<V>, b: seq<Tx>, k: nat) {
    k < |b| ==>
      && Stands(c, b[k])
      && b[k].id !in Ids(b[..k]) && Waits(c, b[k]) <= Ids(b[..k])
      && MayFollow(c, b[..k], b[k])
  }

  ghost predicate GoodBlock<V>(c: Context<V>, b: seq<Tx>) {
    forall k {:trigger GoodAt(c, b, k)} :: GoodAt(c, b, k)
  }

  lemma {:induction false} GoodNext<V>(c: Context<V>, b: seq<Tx>, t: Tx)
    requires GoodBlock(c, b) && Stands(c, t)
    requires t.id !in Ids(b) && Waits(c, t) <= Ids(b) && MayFollow(c, b, t)
    ensures GoodBlock(c, b + [t])
  {
    forall k: nat ensures GoodAt(c, b + [t], k) {
      assert GoodAt(c, b, k);
      if k < |b| {
        assert (b + [t])[..k] == b[..k];
      } else if k == |b| {
        assert (b + [t])[..k] == b;
      }
    }
  }

  // ----- What a good block promises -----

  /** No transaction comes twice. */
  lemma TakenOnce<V>(c: Context<V>, b: seq<Tx>, i: nat, j: nat)
    requires GoodBlock(c, b) && i < j < |b|
    ensures b[i].id != b[j].id
  {
    assert GoodAt(c, b, j);
    assert b[..j][i] == b[i];
  }

  /** A parent that is not in the chain comes earlier. */
  lemma ParentsFirst<V>(c: Context<V>, b: seq<Tx>, j: nat, h: TxId) returns (i: nat)
    requires GoodBlock(c, b) && j < |b| && h in b[j].spends && !c.rules.haveCoins(c.view, h)
    ensures i < j && b[i].id == h
  {
    assert GoodAt(c, b, j);
    assert h in Waits(c, b[j]);
    var t :| t in b[..j] && t.id == h;
    i :| 0 <= i < j && b[..j][i] == t;
  }

  /** The limits hold for the block and every beginning of it, and no pool balance goes negative on the way. */
  lemma UnderLimits<V>(c: Context<V>, b: seq<Tx>, k: nat)
    requires GoodBlock(c, b) && 0 < k <= |b|
    ensures SizeAfter(b[..k]) < c.maxSize && SigOpsAfter(c, b[..k]) < MAX_BLOCK_SIGOPS
    ensures c.monitored ==> BalancesAfter(c.start, b[..k]).NonNegative()
  {
    assert GoodAt(c, b, k - 1);
    assert b[..k] == b[..k - 1] + [b[k - 1]];
    Added(c, b[..k - 1], b[k - 1]);
  }

  // ----- The queues -----

  datatype Ready = Ready(priority: real, feeRate: int, tx: Tx)

  datatype Orphan = Orphan(tx: Tx, dependsOn: set<TxId>, priority: real, feeRate: int)

  /** The order of the priority queue: by fee rate, or by priority. */
  predicate Less(byFee: bool, x: Ready, y: Ready) {
    if byFee then
      if x.feeRate == y.feeRate then x.priority < y.priority else x.feeRate < y.feeRate
    else
      if x.priority == y.priority then x.feeRate < y.feeRate else x.priority < y.priority
  }

  /** None is ranked above entry i. */
  ghost predicate IsBest(byFee: bool, q: seq<Ready>, i: nat) {
    i < |q| && forall j :: 0 <= j < |q| ==> !Less(byFee, q[i], q[j])
  }

  datatype Queues = Queues(ready: seq<Ready>, orphans: seq<Orphan>, dependers: map<TxId, seq<nat>>)

  predicate Stands<V>(c: Context<V>, t: Tx) { t in c.mempool && Eligible(t) && SpendKnown(c, t) }

  ghost predicate ReadyOk<V>(c: Context<V>, b: seq<Tx>, q: Queues, i: nat) {
    i < |q.ready| ==>
      var r := q.ready[i];
      && Stands(c, r.tx) && Waits(c, r.tx) <= Ids(b)
      && r.priority == c.rules.priority(r.tx) && r.feeRate == c.rules.feeRate(r.tx)
  }

  /** An orphan waits for exactly the parents that are not in the block yet. */
  ghost predicate OrphanOk<V>(c: Context<V>, b: seq<Tx>, q: Queues, i: nat) {
    i < |q.orphans| ==>
      var o := q.orphans[i];
      && Stands(c, o.tx) && o.dependsOn == Waits(c, o.tx) - Ids(b)
      && o.priority == c.rules.priority(o.tx) && o.feeRate == c.rules.feeRate(o.tx)
  }

  /** Orphan i is known to the parents it waits for. */
  ghost predicate Registered<V>(c: Context<V>, q: Queues, i: nat, h: TxId) {
    i < |q.orphans| && h in Waits(c, q.orphans[i].tx) ==> h in q.dependers && i in q.dependers[h]
  }

  ghost predicate PointsToChild<V>(c: Context<V>, q: Queues, h: TxId, j: nat) {
    h in q.dependers && j < |q.dependers[h]| ==>
      q.dependers[h][j] < |q.orphans| && h in Waits(c, q.orphans[q.dependers[h][j]].tx)
  }

  predicate Waiting(q: Queues, i: nat) { i < |q.orphans| && q.orphans[i].dependsOn != {} }

  /** No transaction is queued twice, or again after it was taken off. */
  ghost predicate ReadyOnce(q: Queues, popped: set<TxId>, i: nat) {
    i < |q.ready| ==>
      q.ready[i].tx.id !in popped && forall j :: i < j < |q.ready| ==> q.ready[i].tx.id != q.ready[j].tx.id
  }

  ghost predicate OrphanOnce(q: Queues, i: nat) {
    i < |q.orphans| ==> forall j :: i < j < |q.orphans| ==> q.orphans[i].tx.id != q.orphans[j].tx.id
  }

  ghost predicate WaitingOnce(q: Queues, popped: set<TxId>, i: nat) {
    Waiting(q, i) ==>
      q.orphans[i].tx.id !in popped && forall j :: 0 <= j < |q.ready| ==> q.ready[j].tx.id != q.orphans[i].tx.id
  }

  /** Where a transaction is: taken off the queue, in the queue, or waiting for a parent. */
  ghost predicate Placed<V>(c: Context<V>, q: Queues, popped: set<TxId>, t: Tx) {
    Stands(c, t) ==>
      || t.id in popped
      || (exists i :: 0 <= i < |q.ready| && q.ready[i].tx == t)
      || (exists i: nat :: Waiting(q, i) && q.orphans[i].tx == t)
  }

  ghost predicate Linked<V>(c: Context<V>, b: seq<Tx>, q: Queues) {
    && (forall i {:trigger ReadyOk(c, b, q, i)} :: ReadyOk(c, b, q, i))
    && (forall i {:trigger OrphanOk(c, b, q, i)} :: OrphanOk(c, b, q, i))
    && (forall i, h {:trigger Registered(c, q, i, h)} :: Registered(c, q, i, h))
    && (forall h, j {:trigger PointsToChild(c, q, h, j)} :: PointsToChild(c, q, h, j))
  }

  ghost predicate Once(q: Queues, popped: set<TxId>) {
    && (forall i {:trigger ReadyOnce(q, popped, i)} :: ReadyOnce(q, popped, i))
    && (forall i {:trigger OrphanOnce(q, i)} :: OrphanOnce(q, i))
    && (forall i {:trigger WaitingOnce(q, popped, i)} :: WaitingOnce(q, popped, i))
  }

  ghost predicate AllPlaced<V>(c: Context<V>, q: Queues, popped: set<TxId>) {
    forall t {:trigger Placed(c, q, popped, t)} :: Placed(c, q, popped, t)
  }

  /** How many orphans still wait. */
  function WaitCount(orphans: seq<Orphan>): nat {
    if orphans == [] then 0
    else WaitCount(orphans[..|orphans| - 1]) + if orphans[|orphans| - 1].dependsOn != {} then 1 else 0
  }

  lemma {:induction false} WaitCountUpdate(orphans: seq<Orphan>, i: nat, o: Orphan)
    requires i < |orphans|
    ensures WaitCount(orphans[i := o])
      == WaitCount(orphans) - (if orphans[i].dependsOn != {} then 1 else 0) + (if o.dependsOn != {} then 1 else 0)
    decreases |orphans|
  {
    var n := |orphans| - 1;
    if i == n {
      assert orphans[i := o][..n] == orphans[..n];
    } else {
      WaitCountUpdate(orphans[..n], i, o);
      assert orphans[i := o][..n] == orphans[..n][i := o];
    }
  }

  // ----- Filling the queues -----

  /** The queues hold the first n transactions of the mempool, as far as they are eligible. */
  ghost predicate FromFirst<V>(c: Context<V>, q: Queues, n: nat) {
    && n <= |c.mempool|
    && (forall i :: 0 <= i < |q.ready| ==> q.ready[i].tx in c.mempool[..n])
    && (forall i :: 0 <= i < |q.orphans| ==> q.orphans[i].tx in c.mempool[..n])
    && (forall k {:trigger Placed(c, q, {}, c.mempool[k])} :: 0 <= k < n ==> Placed(c, q, {}, c.mempool[k]))
  }

  /** The list of dependers after one more child, number i, was registered with its parents. */
  ghost predicate Joined(before: map<TxId, seq<nat>>, after: map<TxId, seq<nat>>, i: nat, parents: set<TxId>, h: TxId) {
    && (h in before ==> h in after && before[h] <= after[h])
    && (h in parents ==> h in after && i in after[h])
    && (h in after && (h !in before || |after[h]| > |before[h]|) ==> h in parents)
    && (h in after ==> forall j :: (if h in before then |before[h]| else 0) <= j < |after[h]| ==> after[h][j] == i)
  }

  lemma {:induction false} NewId<V>(c: Context<V>, n: nat, t: Tx)
    requires Tidy(c) && n < |c.mempool| && t in c.mempool[..n]
    ensures t.id != c.mempool[n].id
  {
    var k :| 0 <= k < n && c.mempool[..n][k] == t;
    assert c.mempool[k] == t;
  }

  lemma {:induction false} StillPlaced<V>(c: Context<V>, q: Queues, r: Queues, popped: set<TxId>, t: Tx)
    requires q.ready <= r.ready && q.orphans <= r.orphans && Placed(c, q, popped, t)
    ensures Placed(c, r, popped, t)
  {
    if Stands(c, t) && t.id !in popped {
      if i :| 0 <= i < |q.ready| && q.ready[i].tx == t {
        assert r.ready[i].tx == t;
      } else {
        var i: nat :| Waiting(q, i) && q.orphans[i].tx == t;
        assert Waiting(r, i) && r.orphans[i].tx == t;
      }
    }
  }

  lemma {:induction false} KeepsFirst<V>(c: Context<V>, q: Queues, r: Queues, n: nat)
    requires FromFirst(c, q, n) && n < |c.mempool| && q.ready <= r.ready && q.orphans <= r.orphans
    requires forall i :: |q.ready| <= i < |r.ready| ==> r.ready[i].tx == c.mempool[n]
    requires forall i :: |q.orphans| <= i < |r.orphans| ==> r.orphans[i].tx == c.mempool[n]
    requires Placed(c, r, {}, c.mempool[n])
    ensures FromFirst(c, r, n + 1)
  {
    assert forall x :: x in c.mempool[..n + 1] <==> x in c.mempool[..n] || x == c.mempool[n];
    forall k {:trigger Placed(c, r, {}, c.mempool[k])} | 0 <= k < n + 1 ensures Placed(c, r, {}, c.mempool[k]) {
      if k < n {
        assert Placed(c, q, {}, c.mempool[k]);
        StillPlaced(c, q, r, {}, c.mempool[k]);
      }
    }
  }

  /** A transaction that waits for nothing joins the queue. */
  lemma {:induction false} CollectReady<V>(c: Context<V>, q: Queues, n: nat, r: Queues)
    requires Tidy(c) && Linked(c, [], q) && Once(q, {}) && FromFirst(c, q, n) && n < |c.mempool|
    requires var t := c.mempool[n];
      Stands(c, t) && Waits(c, t) == {} &&
        r == q.(ready := q.ready + [Ready(c.rules.priority(t), c.rules.feeRate(t), t)])
    ensures Linked(c, [], r) && Once(r, {}) && FromFirst(c, r, n + 1)
  {
    var t := c.mempool[n];
    forall i: nat ensures ReadyOk(c, [], r, i) { assert ReadyOk(c, [], q, i); }
    forall i: nat ensures OrphanOk(c, [], r, i) { assert OrphanOk(c, [], q, i); }
    LinksKept(c, [], q, r);
    forall x | x in c.mempool[..n] ensures x.id != t.id { NewId(c, n, x); }
    forall i: nat ensures ReadyOnce(r, {}, i) { assert ReadyOnce(q, {}, i); }
    forall i: nat ensures OrphanOnce(r, i) { assert OrphanOnce(q, i); }
    forall i: nat ensures WaitingOnce(r, {}, i) { assert WaitingOnce(q, {}, i); }
    assert r.ready[|q.ready|].tx == t;
    KeepsFirst(c, q, r, n);
  }

  /** One that waits becomes an orphan, known to all its parents. */
  lemma {:induction false} CollectOrphan<V>(c: Context<V>, q: Queues, n: nat, r: Queues)
    requires Tidy(c) && Linked(c, [], q) && Once(q, {}) && FromFirst(c, q, n) && n < |c.mempool|
    requires Stands(c, c.mempool[n]) && Waits(c, c.mempool[n]) != {} && r.ready == q.ready
    requires var t := c.mempool[n];
      r.orphans == q.orphans + [Orphan(t, Waits(c, t), c.rules.priority(t), c.rules.feeRate(t))]
    requires forall h {:trigger Joined(q.dependers, r.dependers, |q.orphans|, Waits(c, c.mempool[n]), h)} ::
      Joined(q.dependers, r.dependers, |q.orphans|, Waits(c, c.mempool[n]), h)
    ensures Linked(c, [], r) && Once(r, {}) && FromFirst(c, r, n + 1)
  {
    OrphanLinked(c, q, n, r);
    var t := c.mempool[n];
    forall x | x in c.mempool[..n] ensures x.id != t.id { NewId(c, n, x); }
    forall i: nat ensures ReadyOnce(r, {}, i) { assert ReadyOnce(q, {}, i); }
    forall i: nat ensures OrphanOnce(r, i) { assert OrphanOnce(q, i); }
    forall i: nat ensures WaitingOnce(r, {}, i) { assert WaitingOnce(q, {}, i); }
    assert Waiting(r, |q.orphans|) && r.orphans[|q.orphans|].tx == t;
    KeepsFirst(c, q, r, n);
  }

  lemma {:induction false} OrphanLinked<V>(c: Context<V>, q: Queues, n: nat, r: Queues)
    requires Linked(c, [], q) && n < |c.mempool|
    requires Stands(c, c.mempool[n]) && r.ready == q.ready
    requires var t := c.mempool[n];
      r.orphans == q.orphans + [Orphan(t, Waits(c, t), c.rules.priority(t), c.rules.feeRate(t))]
    requires forall h {:trigger Joined(q.dependers, r.dependers, |q.orphans|, Waits(c, c.mempool[n]), h)} ::
      Joined(q.dependers, r.dependers, |q.orphans|, Waits(c, c.mempool[n]), h)
    ensures Linked(c, [], r)
  {
    var m, w := |q.orphans|, Waits(c, c.mempool[n]);
    forall i: nat ensures ReadyOk(c, [], r, i) { assert ReadyOk(c, [], q, i); }
    forall i: nat ensures OrphanOk(c, [], r, i) { assert OrphanOk(c, [], q, i); }
    forall i: nat, h: TxId ensures Registered(c, r, i, h) {
      assert Joined(q.dependers, r.dependers, m, w, h) && Registered(c, q, i, h);
      if i < m { assert r.orphans[i] == q.orphans[i]; }
    }
    forall h: TxId, j: nat ensures PointsToChild(c, r, h, j) {
      assert Joined(q.dependers, r.dependers, m, w, h) && PointsToChild(c, q, h, j);
      if h in q.dependers && j < |q.dependers[h]| {
        assert r.dependers[h][j] == q.dependers[h][j];
      }
    }
  }

  // ----- A parent goes into the block -----

  /** One child of h is told: it stops waiting for h, and joins the queue when that was the last. */
  function ReleaseOne(q: Queues, h: TxId, i: nat): Queues
    requires i < |q.orphans|
  {
    var o := q.orphans[i];
    if o.dependsOn == {} then q
    else if o.dependsOn - {h} == {} then
      q.(orphans := q.orphans[i := o.(dependsOn := {})], ready := q.ready + [Ready(o.priority, o.feeRate, o.tx)])
    else q.(orphans := q.orphans[i := o.(dependsOn := o.dependsOn - {h})])
  }

  lemma {:induction false} ReleaseOnce(q: Queues, h: TxId, i: nat, popped: set<TxId>)
    requires i < |q.orphans| && Once(q, popped)
    ensures Once(ReleaseOne(q, h, i), popped)
  {
    var r := ReleaseOne(q, h, i);
    assert WaitingOnce(q, popped, i) && OrphanOnce(q, i);
    forall j: nat ensures OrphanOnce(r, j) { assert OrphanOnce(q, j); }
    forall j: nat ensures ReadyOnce(r, popped, j) { assert ReadyOnce(q, popped, j); }
    forall j: nat ensures WaitingOnce(r, popped, j) { assert WaitingOnce(q, popped, j) && OrphanOnce(q, j); }
  }

  lemma {:induction false} ReleasePlaced<V>(c: Context<V>, q: Queues, h: TxId, i: nat, popped: set<TxId>)
    requires i < |q.orphans| && AllPlaced(c, q, popped)
    ensures AllPlaced(c, ReleaseOne(q, h, i), popped)
  {
    var r := ReleaseOne(q, h, i);
    forall t ensures Placed(c, r, popped, t) {
      assert Placed(c, q, popped, t);
      if j :| 0 <= j < |q.ready| && q.ready[j].tx == t {
        assert r.ready[j].tx == t;
      } else if j: nat :| Waiting(q, j) && q.orphans[j].tx == t {
        if j == i && q.orphans[i].dependsOn - {h} == {} {
          assert r.ready[|q.ready|].tx == t;
        } else {
          assert Waiting(r, j);
        }
      }
    }
  }

  lemma {:induction false} ReleaseCount(q: Queues, h: TxId, i: nat)
    requires i < |q.orphans|
    ensures var r := ReleaseOne(q, h, i); |r.ready| + WaitCount(r.orphans) == |q.ready| + WaitCount(q.orphans)
  {
    var o := q.orphans[i];
    WaitCountUpdate(q.orphans, i, o.(dependsOn := o.dependsOn - {h}));
    WaitCountUpdate(q.orphans, i, o.(dependsOn := {}));
  }

  /** Between two blocks: the orphans listed in `done` know that h is in. */
  ghost predicate HalfOk<V>(c: Context<V>, b: seq<Tx>, h: TxId, done: seq<nat>, q: Queues, i: nat) {
    i < |q.orphans| ==>
      var o := q.orphans[i];
      && Stands(c, o.tx) && o.dependsOn == Waits(c, o.tx) - Ids(b) - (if i in done then {h} else {})
      && o.priority == c.rules.priority(o.tx) && o.feeRate == c.rules.feeRate(o.tx)
  }

  ghost predicate HalfLinked<V>(c: Context<V>, b: seq<Tx>, t: Tx, done: seq<nat>, q: Queues) {
    && (forall i {:trigger ReadyOk(c, b + [t], q, i)} :: ReadyOk(c, b + [t], q, i))
    && (forall i {:trigger HalfOk(c, b, t.id, done, q, i)} :: HalfOk(c, b, t.id, done, q, i))
  }

  lemma {:induction false} HalfStart<V>(c: Context<V>, b: seq<Tx>, t: Tx, q: Queues)
    requires Linked(c, b, q)
    ensures HalfLinked(c, b, t, [], q)
  {
    Added(c, b, t);
    forall i: nat ensures ReadyOk(c, b + [t], q, i) { assert ReadyOk(c, b, q, i); }
    forall i: nat ensures HalfOk(c, b, t.id, [], q, i) { assert OrphanOk(c, b, q, i); }
  }

  lemma {:induction false} HalfStep<V>(c: Context<V>, b: seq<Tx>, t: Tx, done: seq<nat>, q: Queues, i: nat)
    requires i < |q.orphans| && HalfLinked(c, b, t, done, q)
    ensures HalfLinked(c, b, t, done + [i], ReleaseOne(q, t.id, i))
  {
    var r := ReleaseOne(q, t.id, i);
    Added(c, b, t);
    assert HalfOk(c, b, t.id, done, q, i);
    forall j: nat ensures ReadyOk(c, b + [t], r, j) { assert ReadyOk(c, b + [t], q, j); }
    forall j: nat ensures HalfOk(c, b, t.id, done + [i], r, j) { assert HalfOk(c, b, t.id, done, q, j); }
  }

  /** The links of one queue state hold in another with the same orphans. */
  lemma {:induction false} LinksKept<V>(c: Context<V>, b: seq<Tx>, q: Queues, r: Queues)
    requires Linked(c, b, q) && r.dependers == q.dependers && |r.orphans| == |q.orphans|
    requires forall i :: 0 <= i < |q.orphans| ==> r.orphans[i].tx == q.orphans[i].tx
    ensures forall i, h {:trigger Registered(c, r, i, h)} :: Registered(c, r, i, h)
    ensures forall h, j {:trigger PointsToChild(c, r, h, j)} :: PointsToChild(c, r, h, j)
  {
    forall i: nat, h: TxId ensures Registered(c, r, i, h) { assert Registered(c, q, i, h); }
    forall h: TxId, j: nat ensures PointsToChild(c, r, h, j) { assert PointsToChild(c, q, h, j); }
  }

  lemma {:induction false} HalfEnd<V>(c: Context<V>, b: seq<Tx>, t: Tx, done: seq<nat>, q: Queues, r: Queues)
    requires Linked(c, b, q) && HalfLinked(c, b, t, done, r)
    requires r.dependers == q.dependers && |r.orphans| == |q.orphans|
    requires forall i :: 0 <= i < |q.orphans| ==> r.orphans[i].tx == q.orphans[i].tx
    requires done == if t.id in q.dependers then q.dependers[t.id] else []
    ensures Linked(c, b + [t], r)
  {
    Added(c, b, t);
    LinksKept(c, b, q, r);
    forall i: nat ensures OrphanOk(c, b + [t], r, i) {
      assert HalfOk(c, b, t.id, done, r, i);
      assert Registered(c, q, i, t.id);
    }
  }

  /** The children in `done` were told that t is in; r is what became of the queues q. */
  ghost predicate Midway<V>(c: Context<V>, b: seq<Tx>, t: Tx, done: seq<nat>, q: Queues, r: Queues, popped: set<TxId>) {
    && HalfLinked(c, b, t, done, r) && Once(r, popped) && AllPlaced(c, r, popped)
    && r.dependers == q.dependers && |r.orphans| == |q.orphans|
    && (forall i :: 0 <= i < |q.orphans| ==> r.orphans[i].tx == q.orphans[i].tx)
    && |r.ready| + WaitCount(r.orphans) == |q.ready| + WaitCount(q.orphans)
  }

  lemma {:induction false} MidwayStep<V>(c: Context<V>, b: seq<Tx>, t: Tx, done: seq<nat>, q: Queues, r: Queues,
    popped: set<TxId>, i: nat)
    requires Midway(c, b, t, done, q, r, popped) && i < |r.orphans|
    ensures Midway(c, b, t, done + [i], q, ReleaseOne(r, t.id, i), popped)
  {
    ReleaseOnce(r, t.id, i, popped);
    ReleasePlaced(c, r, t.id, i, popped);
    ReleaseCount(r, t.id, i);
    HalfStep(c, b, t, done, r, i);
  }

  /** Entry i is taken off the queue. */
  lemma {:induction false} PopKeeps<V>(c: Context<V>, b: seq<Tx>, q: Queues, popped: set<TxId>, i: nat, r: Queues)
    requires Linked(c, b, q) && Once(q, popped) && AllPlaced(c, q, popped)
    requires i < |q.ready| && r == q.(ready := q.ready[..i] + q.ready[i + 1..])
    ensures Linked(c, b, r) && Once(r, popped + {q.ready[i].tx.id}) && AllPlaced(c, r, popped + {q.ready[i].tx.id})
  {
    var gone := popped + {q.ready[i].tx.id};
    LinksKept(c, b, q, r);
    forall j: nat ensures ReadyOk(c, b, r, j) { assert ReadyOk(c, b, q, j) && ReadyOk(c, b, q, j + 1); }
    forall j: nat ensures OrphanOk(c, b, r, j) { assert OrphanOk(c, b, q, j); }
    assert ReadyOnce(q, popped, i);
    forall j: nat ensures ReadyOnce(r, gone, j) { assert ReadyOnce(q, popped, j) && ReadyOnce(q, popped, j + 1); }
    forall j: nat ensures OrphanOnce(r, j) { assert OrphanOnce(q, j); }
    forall j: nat ensures WaitingOnce(r, gone, j) { assert WaitingOnce(q, popped, j); }
    forall t ensures Placed(c, r, gone, t) { PlacedAfterPop(c, q, popped, i, r, gone, t); }
  }

  lemma {:induction false} PlacedAfterPop<V>(c: Context<V>, q: Queues, popped: set<TxId>, i: nat, r: Queues,
    gone: set<TxId>, t: Tx)
    requires AllPlaced(c, q, popped) && i < |q.ready| && gone == popped + {q.ready[i].tx.id}
    requires r == q.(ready := q.ready[..i] + q.ready[i + 1..])
    ensures Placed(c, r, gone, t)
  {
    assert Placed(c, q, popped, t);
    if Stands(c, t) && t.id !in gone {
      if j :| 0 <= j < |q.ready| && q.ready[j].tx == t {
        assert r.ready[if j < i then j else j - 1].tx == t;
      } else {
        var j: nat :| Waiting(q, j) && q.orphans[j].tx == t;
        assert Waiting(r, j);
      }
    }
  }

  // ----- The order of selection -----

  /** One turn of the loop: which transaction, under which ranking, and whether it was taken. */
  datatype Look = Look(tx: Tx, byFee: bool, taken: bool)

  function Taken(looks: seq<Look>): seq<Tx> {
    if looks == [] then []
    else Taken(looks[..|looks| - 1]) + if looks[|looks| - 1].taken then [looks[|looks| - 1].tx] else []
  }

  function Looked(looks: seq<Look>): set<TxId> { set l | l in looks :: l.tx.id }

  function Rank<V>(c: Context<V>, t: Tx): Ready { Ready(c.rules.priority(t), c.rules.feeRate(t), t) }

  /** A candidate that was not looked at, with all its parents in the block. */
  predicate Open<V>(c: Context<V>, b: seq<Tx>, seen: set<TxId>, t: Tx) {
    Stands(c, t) && Waits(c, t) <= Ids(b) && t.id !in seen
  }

  ghost predicate NoneAbove<V>(c: Context<V>, b: seq<Tx>, seen: set<TxId>, byFee: bool, x: Tx) {
    forall t {:trigger Open(c, b, seen, t)} :: Open(c, b, seen, t) ==> !Less(byFee, Rank(c, x), Rank(c, t))
  }

  /** The area for high priorities is full, or the priorities have become low. */
  predicate LeavesPriorities<V>(c: Context<V>, b: seq<Tx>, t: Tx) {
    && SizeAfter(b) + t.size < c.maxSize && SigOpsAfter(c, b) + t.sigOps < MAX_BLOCK_SIGOPS
    && (SizeAfter(b) + t.size >= c.prioritySize || !c.rules.allowFree(c.rules.priority(t)))
  }

  /** The ranking in force after some turns: by priority at first, by fee once it was left. */
  function ByFee<V>(c: Context<V>, looks: seq<Look>): bool {
    if looks == [] then c.prioritySize <= 0
    else
      var n := |looks| - 1;
      ByFee(c, looks[..n]) || LeavesPriorities(c, Taken(looks[..n]), looks[n].tx)
  }

  /** Turn k: an open candidate that none outranks, taken exactly when it may follow and is not too cheap. */
  ghost predicate LookOk<V>(c: Context<V>, looks: seq<Look>, k: nat) {
    k < |looks| ==>
      var b, seen, l := Taken(looks[..k]), Looked(looks[..k]), looks[k];
      && Open(c, b, seen, l.tx) && l.byFee == ByFee(c, looks[..k]) && NoneAbove(c, b, seen, l.byFee, l.tx)
      && (l.taken <==> MayFollow(c, b, l.tx) && !(l.byFee && TooCheap(c, b, l.tx)))
  }

  /** Every turn took the best open candidate. */
  ghost predicate Greedy<V>(c: Context<V>, looks: seq<Look>) {
    forall k {:trigger LookOk(c, looks, k)} :: LookOk(c, looks, k)
  }

  /** No candidate is left open. */
  ghost predicate Exhausted<V>(c: Context<V>, looks: seq<Look>) {
    forall t {:trigger Open(c, Taken(looks), Looked(looks), t)} :: !Open(c, Taken(looks), Looked(looks), t)
  }

  lemma {:induction false} LookNext(looks: seq<Look>, l: Look)
    ensures Taken(looks + [l]) == Taken(looks) + if l.taken then [l.tx] else []
    ensures Looked(looks + [l]) == Looked(looks) + {l.tx.id}
  {
    assert (looks + [l])[..|looks|] == looks;
    assert forall x :: x in looks + [l] <==> x in looks || x == l;
  }

  lemma {:induction false} GreedyNext<V>(c: Context<V>, looks: seq<Look>, l: Look)
    requires Greedy(c, looks)
    requires Open(c, Taken(looks), Looked(looks), l.tx) && l.byFee == ByFee(c, looks)
    requires NoneAbove(c, Taken(looks), Looked(looks), l.byFee, l.tx)
    requires l.taken <==> MayFollow(c, Taken(looks), l.tx) && !(l.byFee && TooCheap(c, Taken(looks), l.tx))
    ensures Greedy(c, looks + [l])
    ensures ByFee(c, looks + [l]) == (l.byFee || LeavesPriorities(c, Taken(looks), l.tx))
  {
    forall k: nat ensures LookOk(c, looks + [l], k) {
      assert LookOk(c, looks, k);
      if k <= |looks| { assert (looks + [l])[..k] == looks[..k] && looks[..|looks|] == looks; }
    }
    assert (looks + [l])[..|looks|] == looks;
  }

  lemma {:induction false} TakenWithin(looks: seq<Look>)
    ensures Ids(Taken(looks)) <= Looked(looks)
    decreases |looks|
  {
    if looks != [] {
      var n := |looks| - 1;
      TakenWithin(looks[..n]);
      LookNext(looks[..n], looks[n]);
      assert looks == looks[..n] + [looks[n]];
    }
  }

  lemma {:induction false} TakenPrefix(looks: seq<Look>, k: nat)
    requires k <= |looks|
    ensures Taken(looks[..k]) <= Taken(looks)
    decreases |looks|
  {
    if k < |looks| {
      TakenPrefix(looks[..|looks| - 1], k);
      assert looks[..|looks| - 1][..k] == looks[..k];
    } else {
      assert looks[..k] == looks;
    }
  }

  lemma {:induction false} GreedyPrefix<V>(c: Context<V>, looks: seq<Look>, n: nat)
    requires Greedy(c, looks) && n <= |looks|
    ensures Greedy(c, looks[..n])
  {
    forall k: nat ensures LookOk(c, looks[..n], k) {
      assert LookOk(c, looks, k);
      if k < n { assert looks[..n][..k] == looks[..k]; }
    }
  }

  /** A greedy selection is a good block. */
  lemma {:induction false} GreedyGood<V>(c: Context<V>, looks: seq<Look>)
    requires Greedy(c, looks)
    ensures GoodBlock(c, Taken(looks))
    decreases |looks|
  {
    if looks == [] {
      forall k: nat ensures GoodAt(c, [], k) { }
    } else {
      var n := |looks| - 1;
      GreedyPrefix(c, looks, n);
      GreedyGood(c, looks[..n]);
      TakenWithin(looks[..n]);
      assert LookOk(c, looks, n);
      if looks[n].taken {
        GoodNext(c, Taken(looks[..n]), looks[n].tx);
      } else {
        assert Taken(looks) == Taken(looks[..n]);
      }
    }
  }

  /** t was looked at when the block was b[..k] and did not belong there. */
  ghost predicate TurnedAway<V>(c: Context<V>, b: seq<Tx>, t: Tx, k: nat) {
    k <= |b| && (!MayFollow(c, b[..k], t) || TooCheap(c, b[..k], t))
  }

  /** A candidate is in the block, or was turned away, or lacks a parent in the block. */
  ghost predicate Accounted<V>(c: Context<V>, b: seq<Tx>, t: Tx) {
    Stands(c, t) ==>
      || t.id in Ids(b)
      || !(Waits(c, t) <= Ids(b))
      || exists k {:trigger TurnedAway(c, b, t, k)} :: TurnedAway(c, b, t, k)
  }

  ghost predicate AllAccounted<V>(c: Context<V>, b: seq<Tx>) {
    forall t {:trigger Accounted(c, b, t)} :: Accounted(c, b, t)
  }

  lemma {:induction false} LookedAway<V>(c: Context<V>, looks: seq<Look>, k: nat)
    requires Greedy(c, looks) && k < |looks|
    ensures var b, t := Taken(looks), looks[k].tx;
      t.id in Ids(b) || exists n {:trigger TurnedAway(c, b, t, n)} :: TurnedAway(c, b, t, n)
  {
    var b, t, n := Taken(looks), looks[k].tx, |Taken(looks[..k])|;
    assert LookOk(c, looks, k);
    TakenPrefix(looks, k);
    assert b[..n] == Taken(looks[..k]);
    if looks[k].taken {
      TakenPrefix(looks, k + 1);
      LookNext(looks[..k], looks[k]);
      assert looks[..k + 1] == looks[..k] + [looks[k]];
      assert t in Taken(looks[..k + 1]) && t in b;
    } else {
      assert TurnedAway(c, b, t, n);
    }
  }

  /** When no candidate is left open, every one is accounted for. */
  lemma {:induction false} NobodyForgotten<V>(c: Context<V>, looks: seq<Look>)
    requires Tidy(c) && Greedy(c, looks) && Exhausted(c, looks)
    ensures AllAccounted(c, Taken(looks))
  {
    forall t ensures Accounted(c, Taken(looks), t) {
      assert !Open(c, Taken(looks), Looked(looks), t);
      if Stands(c, t) && t.id in Looked(looks) {
        var l :| l in looks && l.tx.id == t.id;
        var k :| 0 <= k < |looks| && looks[k] == l;
        assert LookOk(c, looks, k);
        assert l.tx == t;
        LookedAway(c, looks, k);
      }
    }
  }

  // ----- The loop -----

  /** The whole state of the selection loop. */
  ghost predicate Selecting<V>(c: Context<V>, looks: seq<Look>, q: Queues) {
    && Greedy(c, looks) && Linked(c, Taken(looks), q) && Once(q, Looked(looks)) && AllPlaced(c, q, Looked(looks))
  }

  /** The queue holds exactly the open candidates. */
  lemma {:induction false} OpenIsReady<V>(c: Context<V>, looks: seq<Look>, q: Queues, t: Tx)
    requires Selecting(c, looks, q)
    ensures Open(c, Taken(looks), Looked(looks), t) <==> exists i :: 0 <= i < |q.ready| && q.ready[i].tx == t
  {
    var b, seen := Taken(looks), Looked(looks);
    assert Placed(c, q, seen, t);
    forall i | 0 <= i < |q.ready| && q.ready[i].tx == t ensures Open(c, b, seen, t) {
      assert ReadyOk(c, b, q, i) && ReadyOnce(q, seen, i);
    }
    forall i: nat | Waiting(q, i) && q.orphans[i].tx == t ensures !Open(c, b, seen, t) {
      assert OrphanOk(c, b, q, i);
    }
  }

  /** The best entry of the queue is the best open candidate. */
  lemma {:induction false} SelectingPop<V>(c: Context<V>, looks: seq<Look>, q: Queues, byFee: bool, i: nat, r: Queues)
    requires Selecting(c, looks, q) && IsBest(byFee, q.ready, i) && r == q.(ready := q.ready[..i] + q.ready[i + 1..])
    ensures var b, t, seen := Taken(looks), q.ready[i].tx, Looked(looks);
      && Linked(c, b, r) && Once(r, seen + {t.id}) && AllPlaced(c, r, seen + {t.id})
      && q.ready[i] == Rank(c, t) && Open(c, b, seen, t) && NoneAbove(c, b, seen, byFee, t)
  {
    var b, x, seen := Taken(looks), q.ready[i].tx, Looked(looks);
    PopKeeps(c, b, q, seen, i, r);
    assert ReadyOk(c, b, q, i) && ReadyOnce(q, seen, i);
    forall t | Open(c, b, seen, t) ensures !Less(byFee, Rank(c, x), Rank(c, t)) {
      OpenIsReady(c, looks, q, t);
      var j :| 0 <= j < |q.ready| && q.ready[j].tx == t;
      assert ReadyOk(c, b, q, j);
    }
  }

  lemma {:induction false} SelectingEnd<V>(c: Context<V>, looks: seq<Look>, q: Queues)
    requires Selecting(c, looks, q) && q.ready == []
    ensures Exhausted(c, looks)
  {
    forall t ensures !Open(c, Taken(looks), Looked(looks), t) { OpenIsReady(c, looks, q, t); }
  }

  // ----- The coinbase -----

  /** C++ division, toward zero. */
  function Quotient(x: int, y: nat): int
    requires y > 0
  {
    if x >= 0 then x / y else -(-x / y)
  }

  function Sum(s: seq<int>): int { if s == [] then 0 else Sum(s[..|s| - 1]) + s[|s| - 1] }

  lemma SumAppend(s: seq<int>, x: int)
    ensures Sum(s + [x]) == Sum(s) + x
  {
    assert (s + [x])[..|s|] == s;
  }

  // ----- What a turn means -----

  /** Under fees no open candidate pays more than the one looked at; before that none has more priority. */
  lemma BestFirst<V>(c: Context<V>, looks: seq<Look>, k: nat, t: Tx)
    requires Greedy(c, looks) && k < |looks| && Open(c, Taken(looks[..k]), Looked(looks[..k]), t)
    ensures var x := looks[k].tx;
      if looks[k].byFee then
        c.rules.feeRate(x) >= c.rules.feeRate(t) &&
        (c.rules.feeRate(x) == c.rules.feeRate(t) ==> c.rules.priority(x) >= c.rules.priority(t))
      else
        c.rules.priority(x) >= c.rules.priority(t) &&
        (c.rules.priority(x) == c.rules.priority(t) ==> c.rules.feeRate(x) >= c.rules.feeRate(t))
  {
    assert LookOk(c, looks, k);
  }

  /** What is looked at: an unexpired, final transaction of the mempool, all of whose parents are there. */
  lemma OnlyEligible<V>(c: Context<V>, looks: seq<Look>, k: nat)
    requires Greedy(c, looks) && k < |looks|
    ensures var x := looks[k].tx;
      && x in c.mempool && !x.coinBase && x.isFinal && !x.isExpired && x.id !in Looked(looks[..k])
      && forall h :: h in x.spends ==> c.rules.haveCoins(c.view, h) || h in Ids(Taken(looks[..k]))
  {
    assert LookOk(c, looks, k);
    var x := looks[k].tx;
    forall h | h in x.spends ensures c.rules.haveCoins(c.view, h) || h in Ids(Taken(looks[..k])) {
      if !c.rules.haveCoins(c.view, h) { assert h in Waits(c, x); }
    }
  }

  /** The space a block has used: the reserve for the coinbase and the sizes of its transactions. */
  function Sizes(b: seq<Tx>): nat {
    if b == [] then 0 else b[0].size + Sizes(b[1..])
  }

  lemma {:induction false} SizesAppend(b: seq<Tx>, t: Tx)
    ensures Sizes(b + [t]) == Sizes(b) + t.size
    decreases |b|
  {
    if b == [] {
      assert b + [t] == [t];
    } else {
      SizesAppend(b[1..], t);
      assert (b + [t])[1..] == b[1..] + [t];
    }
  }

  lemma {:induction false} SizeIs(b: seq<Tx>)
    ensures SizeAfter(b) == 1000 + Sizes(b)
    decreases |b|
  {
    if b != [] {
      var n := |b| - 1;
      SizeIs(b[..n]);
      SizesAppend(b[..n], b[n]);
      assert b == b[..n] + [b[n]];
    }
  }

  /** What joinsplits put into the Sprout pool, and what they take out. */
  function Deposits(js: seq<JoinSplit>): int { if js == [] then 0 else js[0].vpubOld + Deposits(js[1..]) }
  function Withdrawals(js: seq<JoinSplit>): int { if js == [] then 0 else js[0].vpubNew + Withdrawals(js[1..]) }

  lemma {:induction false} JoinSplitsAppend(js: seq<JoinSplit>, j: JoinSplit)
    ensures Deposits(js + [j]) == Deposits(js) + j.vpubOld && Withdrawals(js + [j]) == Withdrawals(js) + j.vpubNew
    decreases |js|
  {
    if js == [] {
      assert js + [j] == [j];
    } else {
      JoinSplitsAppend(js[1..], j);
      assert (js + [j])[1..] == js[1..] + [j];
    }
  }

  lemma {:induction false} SproutChangeIs(js: seq<JoinSplit>)
    ensures SproutChange(js) == Deposits(js) - Withdrawals(js)
    decreases |js|
  {
    if js != [] {
      var n := |js| - 1;
      SproutChangeIs(js[..n]);
      JoinSplitsAppend(js[..n], js[n]);
      assert js == js[..n] + [js[n]];
    }
  }

  /** The values a turn compares, in terms of the block so far. */
  ghost predicate Fits<V>(c: Context<V>, b: seq<Tx>, x: Tx) {
    var view, p := ViewAfter(c, b), BalancesAfter(c.start, b);
    && 1000 + Sizes(b) + x.size < c.maxSize
    && SigOpsAfter(c, b) + x.sigOps + c.rules.p2shSigOps(view, x) < 20000
    && c.rules.haveInputs(view, x) && c.rules.checkInputs(view, x)
    && (c.monitored ==>
        && p.sprout + Deposits(x.joinSplits) >= Withdrawals(x.joinSplits)
        && p.sapling >= x.saplingBalance && p.orchard >= x.orchardBalance)
  }

  /** A candidate is taken if and only if it fits and, under fees, pays enough or is favoured or fills a small block. */
  lemma TakenExact<V>(c: Context<V>, looks: seq<Look>, k: nat)
    requires Greedy(c, looks) && k < |looks|
    ensures var b, x := Taken(looks[..k]), looks[k].tx;
      looks[k].taken <==>
        && Fits(c, b, x)
        && (!looks[k].byFee || c.rules.feeRate(x) >= c.rules.minRelayTxFee || c.rules.priorityDelta(x.id) > 0.0
            || c.rules.feeDelta(x.id) > 0 || 1000 + Sizes(b) + x.size < c.minSize)
  {
    assert LookOk(c, looks, k);
    SizeIs(Taken(looks[..k]));
    SproutChangeIs(looks[k].tx.joinSplits);
  }

  /** The ranking turns to fees at a transaction that fits by size, beyond the priority area or of low priority. */
  lemma RankingTurns<V>(c: Context<V>, looks: seq<Look>, k: nat)
    requires k < |looks|
    ensures ByFee(c, []) <==> c.prioritySize == 0
    ensures var b, x := Taken(looks[..k]), looks[k].tx;
      ByFee(c, looks[..k + 1]) <==>
        || ByFee(c, looks[..k])
        || (&& 1000 + Sizes(b) + x.size < c.maxSize && SigOpsAfter(c, b) + x.sigOps < 20000
            && (1000 + Sizes(b) + x.size >= c.prioritySize || !c.rules.allowFree(c.rules.priority(x))))
  {
    assert looks[..k + 1][..k] == looks[..k];
    SizeIs(Taken(looks[..k]));
  }
}
