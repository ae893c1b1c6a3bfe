/** Building a block template: the loops of CreateNewBlock over the mempool and the priority queue. */
module Miner {
  import opened MinerSpec

  // ----- Collecting candidates -----

  /** Looks up each spent transaction; the ones the view lacks are parents to wait for, or unknown. */
  method Register<V>(c: Context<V>, t: Tx, dependers: map<TxId, seq<nat>>, i: nat)
    returns (after: map<TxId, seq<nat>>, dependsOn: set<TxId>, missing: bool)
    requires UnknownFirst(c, t)
    ensures missing <==> !SpendKnown(c, t)
    ensures missing ==> after == dependers
    ensures !missing ==> dependsOn == Waits(c, t)
    ensures forall h {:trigger Joined(dependers, after, i, dependsOn, h)} :: Joined(dependers, after, i, dependsOn, h)
  {
    after, dependsOn, missing := dependers, {}, false;
    for s := 0 to |t.spends|
      invariant dependsOn == set h | h in t.spends[..s] && !c.rules.haveCoins(c.view, h)
      invariant dependsOn <= Ids(c.mempool) && (dependsOn == {} ==> after == dependers)
      invariant forall h {:trigger Joined(dependers, after, i, dependsOn, h)} ::
        Joined(dependers, after, i, dependsOn, h)
    {
      var p := t.spends[s];
      assert t.spends[..s + 1] == t.spends[..s] + [p];
      if !c.rules.haveCoins(c.view, p) {
        if p !in Ids(c.mempool) {
          NothingBefore(c, t, s);
          return after, dependsOn, true;
        }
        ghost var was, wasOn := after, dependsOn;
        after := after[p := (if p in after then after[p] else []) + [i]];
        dependsOn := dependsOn + {p};
        forall h: TxId ensures Joined(dependers, after, i, dependsOn, h) { assert Joined(dependers, was, i, wasOn, h); }
      }
    }
    assert t.spends[..|t.spends|] == t.spends;
  }

  lemma NothingBefore<V>(c: Context<V>, t: Tx, s: nat)
    requires UnknownFirst(c, t) && Lacks(c, t, s) && t.spends[s] !in Ids(c.mempool)
    requires forall i :: 0 <= i < s && Lacks(c, t, i) ==> t.spends[i] in Ids(c.mempool)
    ensures !SpendKnown(c, t)
    ensures (set h | h in t.spends[..s] && !c.rules.haveCoins(c.view, h)) == {}
  {
    assert t.spends[s] in Waits(c, t);
    var m :| Lacks(c, t, m) && t.spends[m] !in Ids(c.mempool) && forall i :: 0 <= i < m ==> !Lacks(c, t, i);
    assert m == s;
    forall h | h in t.spends[..s] ensures c.rules.haveCoins(c.view, h) {
      var i :| 0 <= i < s && t.spends[..s][i] == h;
      assert !Lacks(c, t, i);
    }
  }

  method Collect<V>(c: Context<V>) returns (q: Queues)
    requires Tidy(c)
    ensures Linked(c, [], q) && Once(q, {}) && AllPlaced(c, q, {})
  {
    q := Queues([], [], map[]);
    for n := 0 to |c.mempool|
      invariant Linked(c, [], q) && Once(q, {}) && FromFirst(c, q, n)
    {
      var t := c.mempool[n];
      ghost var before := q;
      if t.coinBase || !t.isFinal || t.isExpired {
        assert Placed(c, q, {}, t);
        KeepsFirst(c, q, q, n);
        continue;
      }
      assert UnknownFirst(c, t);
      var dependers, dependsOn, missing := Register(c, t, q.dependers, |q.orphans|);
      if missing {
        assert Placed(c, q, {}, t);
        KeepsFirst(c, q, q, n);
        q := q.(dependers := dependers);
        continue;
      }
      if dependsOn != {} {
        var o := Orphan(t, dependsOn, c.rules.priority(t), c.rules.feeRate(t));
        q := Queues(q.ready, q.orphans + [o], dependers);
        CollectOrphan(c, before, n, q);
      } else {
        q := q.(ready := q.ready + [Ready(c.rules.priority(t), c.rules.feeRate(t), t)]);
        CollectReady(c, before, n, q);
      }
    }
    forall t ensures Placed(c, q, {}, t) {
      if Stands(c, t) {
        var k :| 0 <= k < |c.mempool| && c.mempool[k] == t;
        assert Placed(c, q, {}, c.mempool[k]);
      }
    }
  }

  // ----- Looking at one candidate -----

  /** Takes one of the highest ranked entries off the queue. */
  method PopBest(byFee: bool, ready: seq<Ready>) returns (item: Ready, rest: seq<Ready>, ghost i: nat)
    requires ready != []
    ensures IsBest(byFee, ready, i) && item == ready[i] && rest == ready[..i] + ready[i + 1..]
  {
    var best := 0;
    for j := 1 to |ready|
      invariant 0 <= best < |ready| && forall k :: 0 <= k < j ==> !Less(byFee, ready[best], ready[k])
    {
      if Less(byFee, ready[best], ready[j]) { best := j; }
    }
    i, item, rest := best, ready[best], ready[..best] + ready[best + 1..];
  }

  method SproutMoved(value: int, js: seq<JoinSplit>) returns (r: int)
    ensures r == value + SproutChange(js)
  {
    r := value;
    for k := 0 to |js|
      invariant r == value + SproutChange(js[..k])
    {
      assert js[..k + 1][..k] == js[..k];
      r := r + js[k].vpubOld;
      r := r - js[k].vpubNew;
    }
    assert js[..|js|] == js;
  }

  /** The running totals of the block. */
  datatype Totals<V> = Totals(view: V, size: nat, sigOps: nat, balances: Balances)

  ghost predicate TotalsOf<V>(c: Context<V>, b: seq<Tx>, z: Totals<V>) {
    && z.view == ViewAfter(c, b) && z.size == SizeAfter(b) && z.sigOps == SigOpsAfter(c, b)
    && (c.monitored ==> z.balances == BalancesAfter(c.start, b))
  }

  /** All the checks of one turn of the loop. */
  method Consider<V>(c: Context<V>, ghost b: seq<Tx>, z: Totals<V>, item: Ready, byFee: bool)
    returns (taken: bool, nowByFee: bool, fees: int, sigOps: nat, balances: Balances)
    requires TotalsOf(c, b, z) && item == Rank(c, item.tx)
    ensures taken <==> MayFollow(c, b, item.tx) && !(byFee && TooCheap(c, b, item.tx))
    ensures taken ==> fees == FeeOf(c, b, item.tx)
    ensures taken ==> sigOps == item.tx.sigOps + c.rules.p2shSigOps(z.view, item.tx)
    ensures taken && c.monitored ==> balances == Moved(z.balances, item.tx)
    ensures nowByFee == (byFee || LeavesPriorities(c, b, item.tx))
  {
    var tx := item.tx;
    taken, nowByFee, fees, sigOps, balances := false, byFee, 0, tx.sigOps, z.balances;
    if z.size + tx.size >= c.maxSize { return; }
    if z.sigOps + sigOps >= MAX_BLOCK_SIGOPS { return; }
    if byFee && c.rules.priorityDelta(tx.id) <= 0.0 && c.rules.feeDelta(tx.id) <= 0
       && item.feeRate < c.rules.minRelayTxFee && z.size + tx.size >= c.minSize { return; }
    if !byFee && (z.size + tx.size >= c.prioritySize || !c.rules.allowFree(item.priority)) { nowByFee := true; }
    if !c.rules.haveInputs(z.view, tx) { return; }
    fees := c.rules.valueIn(z.view, tx) - tx.valueOut;
    sigOps := sigOps + c.rules.p2shSigOps(z.view, tx);
    if z.sigOps + sigOps >= MAX_BLOCK_SIGOPS { return; }
    if !c.rules.checkInputs(z.view, tx) { return; }
    if c.monitored {
      var sprout := SproutMoved(z.balances.sprout, tx.joinSplits);
      var moved := Balances(sprout, z.balances.sapling - tx.saplingBalance, z.balances.orchard - tx.orchardBalance);
      if moved.sprout < 0 { return; }
      if moved.sapling < 0 { return; }
      if moved.orchard < 0 { return; }
      balances := moved;
    }
    taken := true;
  }

  // ----- Telling the children -----

  method Tell(q: Queues, h: TxId, i: nat) returns (r: Queues)
    requires i < |q.orphans|
    ensures r == ReleaseOne(q, h, i)
  {
    r := q;
    var o := r.orphans[i];
    if o.dependsOn != {} {
      var left := o.dependsOn - {h};
      r := r.(orphans := r.orphans[i := o.(dependsOn := left)]);
      if left == {} {
        r := r.(ready := r.ready + [Ready(o.priority, o.feeRate, o.tx)]);
      }
    }
  }

  method Release<V>(c: Context<V>, ghost b: seq<Tx>, ghost popped: set<TxId>, t: Tx, q: Queues) returns (r: Queues)
    requires Linked(c, b, q) && Once(q, popped) && AllPlaced(c, q, popped)
    ensures Linked(c, b + [t], r) && Once(r, popped) && AllPlaced(c, r, popped)
    ensures |r.ready| + WaitCount(r.orphans) == |q.ready| + WaitCount(q.orphans)
  {
    r := q;
    HalfStart(c, b, t, q);
    var children := if t.id in q.dependers then q.dependers[t.id] else [];
    for j := 0 to |children|
      invariant Midway(c, b, t, children[..j], q, r, popped)
    {
      assert PointsToChild(c, q, t.id, j);
      MidwayStep(c, b, t, children[..j], q, r, popped, children[j]);
      assert children[..j + 1] == children[..j] + [children[j]];
      r := Tell(r, t.id, children[j]);
    }
    assert children[..|children|] == children;
    HalfEnd(c, b, t, children, q, r);
  }

  // ----- The loop -----

  /** One transaction goes into the block; its children are told. */
  method Take<V>(c: Context<V>, ghost looks: seq<Look>, ghost l: Look, t: Tx, q: Queues) returns (r: Queues)
    requires Greedy(c, looks + [l]) && l.taken && l.tx == t
    requires Linked(c, Taken(looks), q)
    requires Once(q, Looked(looks) + {l.tx.id}) && AllPlaced(c, q, Looked(looks) + {l.tx.id})
    ensures Selecting(c, looks + [l], r)
    ensures |r.ready| + WaitCount(r.orphans) == |q.ready| + WaitCount(q.orphans)
  {
    LookNext(looks, l);
    r := Release(c, Taken(looks), Looked(looks) + {t.id}, t, q);
  }

  /** The block so far, with the fees and the signature operations of each transaction. */
  datatype Template = Template(block: seq<Tx>, vTxFees: seq<int>, vTxSigOps: seq<int>, nFees: int)

  ghost predicate Kept<V>(c: Context<V>, p: Template, z: Totals<V>) {
    && TotalsOf(c, p.block, z)
    && p.nFees == FeesAfter(c, p.block) == Sum(p.vTxFees) && |p.vTxFees| == |p.vTxSigOps| == |p.block|
    && z.sigOps == 100 + Sum(p.vTxSigOps)
  }

  method Append<V>(c: Context<V>, p: Template, z: Totals<V>, t: Tx, fees: int, sigOps: nat, balances: Balances)
    returns (p': Template, z': Totals<V>)
    requires Kept(c, p, z) && fees == FeeOf(c, p.block, t) && sigOps == t.sigOps + c.rules.p2shSigOps(z.view, t)
    requires c.monitored ==> balances == Moved(z.balances, t)
    ensures Kept(c, p', z') && p'.block == p.block + [t]
  {
    Added(c, p.block, t);
    z' := Totals(c.rules.updateCoins(z.view, t), z.size + t.size, z.sigOps + sigOps, balances);
    SumAppend(p.vTxFees, fees);
    SumAppend(p.vTxSigOps, sigOps);
    p' := Template(p.block + [t], p.vTxFees + [fees], p.vTxSigOps + [sigOps], p.nFees + fees);
  }

  /** Looks at the best open candidate until none is left open. */
  method Select<V>(c: Context<V>, initial: Queues) returns (p: Template, ghost looks: seq<Look>)
    requires Linked(c, [], initial) && Once(initial, {}) && AllPlaced(c, initial, {})
    ensures Greedy(c, looks) && Exhausted(c, looks) && p.block == Taken(looks)
    ensures p.nFees == FeesAfter(c, p.block) == Sum(p.vTxFees) && |p.vTxFees| == |p.vTxSigOps| == |p.block|
    ensures SigOpsAfter(c, p.block) == 100 + Sum(p.vTxSigOps)
  {
    p, looks := Template([], [], [], 0), [];
    var q, z, byFee := initial, Totals(c.view, 1000, 100, c.start), c.prioritySize <= 0;
    StartSelecting(c, initial);
    while q.ready != []
      invariant Selecting(c, looks, q) && p.block == Taken(looks) && Kept(c, p, z) && byFee == ByFee(c, looks)
      decreases |q.ready| + WaitCount(q.orphans)
    {
      var item, rest, i := PopBest(byFee, q.ready);
      SelectingPop(c, looks, q, byFee, i, q.(ready := rest));
      q := q.(ready := rest);
      var taken, nowByFee, fees, sigOps, balances := Consider(c, p.block, z, item, byFee);
      ghost var l := Look(item.tx, byFee, taken);
      GreedyNext(c, looks, l);
      LookNext(looks, l);
      byFee := nowByFee;
      if taken {
        q := Take(c, looks, l, item.tx, q);
        p, z := Append(c, p, z, item.tx, fees, sigOps, balances);
      } else {
        assert Taken(looks) + [] == Taken(looks);
      }
      looks := looks + [l];
    }
    SelectingEnd(c, looks, q);
  }

  lemma StartSelecting<V>(c: Context<V>, q: Queues)
    requires Linked(c, [], q) && Once(q, {}) && AllPlaced(c, q, {})
    ensures Selecting(c, [], q)
  {
    forall k: nat ensures LookOk(c, [], k) { }
    assert Looked([]) == {};
  }

  // ----- The template -----

  /** The values of the transparent coinbase outputs: the miner's first, then the founders' share. */
  method CoinbaseOutputs(subsidy: int, nFees: int, founders: bool, percentage: int, txPercentage: int)
    returns (vout: seq<int>)
    ensures Sum(vout) == subsidy + nFees && |vout| == if founders then 2 else 1
    ensures founders ==> vout[1] == Quotient(subsidy * percentage, 100) + Quotient(nFees * txPercentage, 100)
  {
    vout := [0];
    var value := subsidy;
    if founders {
      var reward := Quotient(value * percentage, 100);
      reward := reward + Quotient(nFees * txPercentage, 100);
      value := value - reward;
      vout := vout + [reward];
      SumAppend([value + nFees], reward);
      assert [value + nFees] + [reward] == vout[0 := value + nFees];
    }
    vout := vout[0 := value + nFees];
  }

  /** CreateNewBlock without a coinbase given beforehand; entry 0 of the fees belongs to the coinbase. */
  method CreateNewBlock<V>(c: Context<V>, subsidy: int, founders: bool, percentage: int, txPercentage: int)
    returns (block: seq<Tx>, vTxFees: seq<int>, coinbase: seq<int>, ghost looks: seq<Look>)
    requires Tidy(c)
    ensures Greedy(c, looks) && Exhausted(c, looks) && block == Taken(looks)
    ensures GoodBlock(c, block) && AllAccounted(c, block)
    ensures |vTxFees| == |block| + 1 && Sum(vTxFees) == 0 && vTxFees[0] == -FeesAfter(c, block)
    ensures Sum(coinbase) == subsidy + FeesAfter(c, block)
  {
    var q := Collect(c);
    var p;
    p, looks := Select(c, q);
    GreedyGood(c, looks);
    NobodyForgotten(c, looks);
    coinbase := CoinbaseOutputs(subsidy, p.nFees, founders, percentage, txPercentage);
    block, vTxFees := p.block, [-p.nFees] + p.vTxFees;
    SumPrepend(-p.nFees, p.vTxFees);
  }

  lemma {:induction false} SumPrepend(x: int, s: seq<int>)
    ensures Sum([x] + s) == x + Sum(s)
    decreases |s|
  {
    if s == [] {
      assert [x] + s == [x];
    } else {
      SumPrepend(x, s[..|s| - 1]);
      assert ([x] + s)[..|s|] == [x] + s[..|s| - 1];
    }
  }

  /** The size limits, clamped into a sane range. */
  method BlockSizes(maxArg: nat, priorityArg: nat, minArg: nat) returns (maxSize: nat, prioritySize: nat, minSize: nat)
    ensures 1000 <= maxSize <= MAX_BLOCK_SIZE - 1000 && prioritySize <= maxSize && minSize <= maxSize
    ensures 1000 <= maxArg <= MAX_BLOCK_SIZE - 1000 ==> maxSize == maxArg
    ensures maxArg < 1000 ==> maxSize == 1000
    ensures maxArg > MAX_BLOCK_SIZE - 1000 ==> maxSize == MAX_BLOCK_SIZE - 1000
    ensures prioritySize == if priorityArg <= maxSize then priorityArg else maxSize
    ensures minSize == if minArg <= maxSize then minArg else maxSize
  {
    maxSize := if maxArg < MAX_BLOCK_SIZE - 1000 then maxArg else MAX_BLOCK_SIZE - 1000;
    if maxSize < 1000 { maxSize := 1000; }
    prioritySize := if priorityArg < maxSize then priorityArg else maxSize;
    minSize := if minArg < maxSize then minArg else maxSize;
  }
}
