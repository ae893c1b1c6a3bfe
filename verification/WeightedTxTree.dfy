/** The weighted tree's own code: vectors and an index map, changed in place. */
module WeightedTxTree {
  import opened Basics
  import opened WeightedTxTreeSpec

  /** What a call that may drop a transaction came to; in the last case it does not return. */
  datatype Outcome = Within | Dropped(id: TxId) | Endless

  class WeightedTxTree {
    const capacity: int
    var size: nat
    var txIdAndWeights: seq<TxInfo>
    var childWeights: seq<TxWeight>
    var txIdToIndexMap: map<TxId, nat>

    ghost function Abs(): Tree
      reads this
    {
      Tree(txIdAndWeights, childWeights, txIdToIndexMap)
    }

    ghost predicate Valid()
      reads this
    {
      size == |txIdAndWeights| && capacity >= 0 && WeightedTxTreeSpec.Valid(Abs())
    }

    constructor (capacity: int)
      requires capacity >= 0
      ensures Valid() && this.capacity == capacity && Abs() == Tree([], [], map[])
    {
      this.capacity := capacity;
      size, txIdAndWeights, childWeights, txIdToIndexMap := 0, [], [], map[];
    }

    function GetWeightAt(index: nat): TxWeight
      requires size <= |txIdAndWeights| && size <= |childWeights|
      reads this
    {
      if index < size then Add(txIdAndWeights[index].txWeight, childWeights[index]) else ZERO_WEIGHT
    }

    lemma WeightAtIs(index: nat)
      requires Valid()
      ensures GetWeightAt(index).cost == Subtree(Costs(txIdAndWeights), index)
      ensures GetWeightAt(index).evictionWeight == Subtree(Evictions(txIdAndWeights), index)
    {
      assert ChildOk(txIdAndWeights, childWeights, index);
    }

    /** The total is the sum of the weights of all transactions. */
    method GetTotalWeight() returns (r: TxWeight)
      requires Valid()
      ensures r == TxWeight(Sum(Costs(txIdAndWeights)), Sum(Evictions(txIdAndWeights)))
    {
      WeightAtIs(0);
      RootSum(Costs(txIdAndWeights));
      RootSum(Evictions(txIdAndWeights));
      r := GetWeightAt(0);
    }

    method BackPropagate(fromIndex: nat, weightDelta: TxWeight)
      requires fromIndex <= |childWeights|
      modifies this`childWeights
      ensures childWeights == Propagate(old(childWeights), fromIndex, weightDelta)
    {
      var from: nat := fromIndex;
      while from > 0
        invariant from <= |childWeights|
        invariant Propagate(childWeights, from, weightDelta) == Propagate(old(childWeights), fromIndex, weightDelta)
      {
        from := (from - 1) / 2;
        childWeights := childWeights[from := Add(childWeights[from], weightDelta)];
      }
    }

    /** A transaction that is already there is not added again. */
    method Insert(info: TxInfo)
      requires Valid() && info.txWeight.cost > 0 && info.txWeight.evictionWeight > 0
      modifies this
      ensures Valid() && Abs() == WeightedTxTreeSpec.Insert(old(Abs()), info)
    {
      InsertKeeps(Abs(), info);
      if info.txId in txIdToIndexMap {
        return;
      }
      txIdAndWeights := txIdAndWeights + [info];
      childWeights := childWeights + [ZERO_WEIGHT];
      txIdToIndexMap := txIdToIndexMap[info.txId := size];
      BackPropagate(size, info.txWeight);
      size := size + 1;
    }

    /** Puts the last transaction at a place before it. */
    method TakePlace(removeIndex: nat, lastChildWeight: TxWeight)
      requires removeIndex < size < |txIdAndWeights| && |childWeights| == |txIdAndWeights|
      modifies this`txIdAndWeights, this`txIdToIndexMap, this`childWeights
      ensures txIdAndWeights == old(txIdAndWeights)[removeIndex := old(txIdAndWeights)[size]]
      ensures txIdToIndexMap == old(txIdToIndexMap)[old(txIdAndWeights)[size].txId := removeIndex]
      ensures childWeights ==
        Propagate(old(childWeights), removeIndex,
                  Add(lastChildWeight, Negate(old(txIdAndWeights)[removeIndex].txWeight)))
    {
      var weightDelta := Add(lastChildWeight, Negate(txIdAndWeights[removeIndex].txWeight));
      txIdAndWeights := txIdAndWeights[removeIndex := txIdAndWeights[size]];
      txIdToIndexMap := txIdToIndexMap[txIdAndWeights[removeIndex].txId := removeIndex];
      BackPropagate(removeIndex, weightDelta);
    }

    method RemoveKnown(txId: TxId)
      requires size == |txIdAndWeights| == |childWeights| && txId in txIdToIndexMap && IdOk(Abs(), txId)
      modifies this
      ensures size == |txIdAndWeights| && Abs() == WeightedTxTreeSpec.Remove(old(Abs()), txId)
    {
      ghost var t := Abs();
      var removeIndex := txIdToIndexMap[txId];
      size := size - 1;
      var lastChildWeight := txIdAndWeights[size].txWeight;
      BackPropagate(size, Negate(lastChildWeight));
      if removeIndex < size {
        TakePlace(removeIndex, lastChildWeight);
        assert t.infos[..size][removeIndex := t.infos[size]] == txIdAndWeights[..size];
      }
      txIdToIndexMap := txIdToIndexMap - {txId};
      txIdAndWeights := txIdAndWeights[..|txIdAndWeights| - 1];
      childWeights := childWeights[..|childWeights| - 1];
    }

    /** May be called for a transaction that is not there any more. */
    method Remove(txId: TxId)
      requires Valid()
      modifies this
      ensures IdOk(old(Abs()), txId) && Valid() && Abs() == WeightedTxTreeSpec.Remove(old(Abs()), txId)
    {
      assert IdOk(Abs(), txId);
      RemoveKeeps(Abs(), txId);
      if txId in txIdToIndexMap {
        RemoveKnown(txId);
      }
    }

    /** The two sums that a value is compared with at a node, as ints. */
    method ComparedWeights(index: nat, ghost sums: Sums) returns (leftWeight: int, rightWeight: int)
      requires Valid() && SumsAt(sums, Evictions(txIdAndWeights), index)
      ensures (leftWeight, rightWeight) == sums(index)
    {
      WeightAtIs(index);
      WeightAtIs(index * 2 + 1);
      WeightAtIs(index * 2 + 2);
      leftWeight := Int32(GetWeightAt(index * 2 + 1).evictionWeight);
      rightWeight := Int32(GetWeightAt(index).evictionWeight - GetWeightAt(index * 2 + 2).evictionWeight);
    }

    /**
     The transaction whose interval holds a value. The sums are truncated to int before they are
     compared; a search that leaves the tree does not return, which is no result here.
     */
    method FindByEvictionWeight(fromIndex: nat, weightToFind: int, ghost sums: Sums) returns (index: Option<nat>)
      requires Valid()
      requires forall i {:trigger SumsAt(sums, Evictions(txIdAndWeights), i)} ::
        SumsAt(sums, Evictions(txIdAndWeights), i)
      ensures index == Walk(sums, size, fromIndex, weightToFind)
      decreases if fromIndex < size then size - fromIndex else 0
    {
      if fromIndex >= size {
        return None;
      }
      var leftWeight, rightWeight := ComparedWeights(fromIndex, sums);
      if weightToFind < leftWeight {
        index := FindByEvictionWeight(fromIndex * 2 + 1, weightToFind, sums);
      } else if weightToFind < rightWeight {
        index := Some(fromIndex);
      } else {
        index := FindByEvictionWeight(fromIndex * 2 + 2, weightToFind - rightWeight, sums);
      }
    }

    /** The transaction that a random value below the total leads to, once it is truncated to int. */
    method Pick(random: int) returns (index: Option<nat>)
      requires Valid() && 0 <= random < Sum(Evictions(txIdAndWeights))
      ensures index == Search(Evictions(txIdAndWeights), 0, Int32(random))
      ensures FitsInt(Evictions(txIdAndWeights)) ==>
        && (index.None? <==> Int32(random) < 0)
        && (Drawn(Evictions(txIdAndWeights), 0, random) <==> random <= INT_MAX)
      ensures DrawsFit(Evictions(txIdAndWeights)) <==> EveryDrawMeets(Evictions(txIdAndWeights))
    {
      ghost var vs := Evictions(txIdAndWeights);
      forall i ensures SumsAt(Truncated(vs), vs, i) { }
      DrawExact(vs);
      if FitsInt(vs) { DrawMeets(vs, random); }
      index := FindByEvictionWeight(0, Int32(random), Truncated(vs));
    }

    /**
     Drops the transaction that a random value, truncated to int, leads to, if the cost exceeds the
     capacity. Among sums that fit, this is the owner of the value exactly when the value fits too.
     */
    method MaybeDropRandom(random: int) returns (o: Outcome)
      requires Valid()
      requires Sum(Costs(txIdAndWeights)) > capacity ==> 0 <= random < Sum(Evictions(txIdAndWeights))
      modifies this
      ensures Valid()
      ensures o.Within? <==> old(Sum(Costs(txIdAndWeights))) <= capacity
      ensures !o.Dropped? ==> Abs() == old(Abs())
      ensures o.Endless? ==> Search(Evictions(txIdAndWeights), 0, Int32(random)) == None
      ensures o.Dropped? ==>
        && o.id in old(txIdToIndexMap) && IdOk(old(Abs()), o.id)
        && Search(old(Evictions(txIdAndWeights)), 0, Int32(random)) == Some(old(txIdToIndexMap)[o.id])
        && Abs() == WeightedTxTreeSpec.Remove(old(Abs()), o.id)
      ensures old(FitsInt(Evictions(txIdAndWeights))) && !o.Within? ==>
        && (o.Endless? <==> Int32(random) < 0)
        && (random <= INT_MAX <==>
            o.Dropped? && Selects(old(Evictions(txIdAndWeights)), 0, old(txIdToIndexMap)[o.id], random))
      ensures old(DrawsFit(Evictions(txIdAndWeights))) <==> EveryDrawMeets(old(Evictions(txIdAndWeights)))
    {
      DrawExact(Evictions(txIdAndWeights));
      var totalTxWeight := GetTotalWeight();
      if totalTxWeight.cost <= capacity {
        return Within;
      }
      var index := Pick(random);
      if index.None? {
        return Endless;
      }
      assert PlaceOk(Abs(), index.value);
      var drop := txIdAndWeights[index.value];
      Remove(drop.txId);
      return Dropped(drop.txId);
    }

    /** Removes a list of transactions, some of which may be gone already. */
    method RemoveAll(ids: seq<TxId>, ghost t: Tree, ghost gone: set<TxId>)
      requires Valid() && Without(t, Abs(), gone)
      modifies this
      ensures Valid() && Without(t, Abs(), gone + IdsOf(ids))
      ensures size <= old(size) && Sum(Evictions(txIdAndWeights)) <= old(Sum(Evictions(txIdAndWeights)))
      ensures ids == [] ==> size == old(size)
    {
      assert gone + IdsOf(ids[..0]) == gone;
      for i := 0 to |ids|
        invariant Valid() && Without(t, Abs(), gone + IdsOf(ids[..i]))
        invariant size <= old(size) && Sum(Evictions(txIdAndWeights)) <= old(Sum(Evictions(txIdAndWeights)))
        invariant i == 0 ==> size == old(size)
      {
        assert IdOk(Abs(), ids[i]);
        WithoutNext(t, Abs(), gone + IdsOf(ids[..i]), ids[i]);
        RemoveKeeps(Abs(), ids[i]);
        Remove(ids[i]);
        assert gone + IdsOf(ids[..i]) + {ids[i]} == gone + IdsOf(ids[..i + 1]);
      }
      assert ids[..|ids|] == ids;
    }

    /** What a drop takes with it: the transaction and its descendants in the mempool. */
    static function Family(dropped: seq<TxId>, descendants: TxId -> seq<TxId>): set<TxId> {
      if dropped == [] then {}
      else
        var last := dropped[|dropped| - 1];
        Family(dropped[..|dropped| - 1], descendants) + {last} + IdsOf(descendants(last))
    }

    /**
     Dropping until nothing more is dropped. With sums and draws that fit it ends, with the cost within
     the capacity; exactly the dropped transactions and their descendants are gone.
     */
    method EnsureSizeLimit(random: int -> int, descendants: TxId -> seq<TxId>) returns (dropped: seq<TxId>, done: bool)
      requires Valid()
      requires forall n :: n > 0 ==> 0 <= random(n) < n
      modifies this
      ensures Valid() && (done ==> Sum(Costs(txIdAndWeights)) <= capacity)
      ensures old(DrawsFit(Evictions(txIdAndWeights))) ==> done
      ensures Without(old(Abs()), Abs(), Family(dropped, descendants))
      ensures |dropped| + |txIdAndWeights| <= |old(txIdAndWeights)|
      ensures (forall id :: descendants(id) == []) ==> |dropped| + |txIdAndWeights| == |old(txIdAndWeights)|
    {
      dropped := [];
      ghost var start := Abs();
      WithoutNone(start);
      while true
        invariant Valid() && Without(start, Abs(), Family(dropped, descendants))
        invariant |dropped| + |txIdAndWeights| <= |start.infos|
        invariant (forall id :: descendants(id) == []) ==> |dropped| + |txIdAndWeights| == |start.infos|
        invariant DrawsFit(Evictions(start.infos)) ==> DrawsFit(Evictions(txIdAndWeights))
        decreases size
      {
        ghost var t, gone := Abs(), Family(dropped, descendants);
        SomethingToDrop(t);
        var total := GetTotalWeight();
        var o := MaybeDropRandom(if total.cost > capacity then random(total.evictionWeight) else 0);
        if !o.Dropped? {
          return dropped, o.Within?;
        }
        RemoveKeeps(t, o.id);
        WithoutNext(start, t, gone, o.id);
        RemoveAll(descendants(o.id), start, gone + {o.id});
        dropped := dropped + [o.id];
        if DrawsFit(Evictions(t.infos)) { DrawsStillFit(Evictions(t.infos), Evictions(txIdAndWeights)); }
      }
    }

    static lemma SomethingToDrop(t: Tree)
      requires WeightedTxTreeSpec.Valid(t)
      ensures Sum(Costs(t.infos)) > 0 ==> Sum(Evictions(t.infos)) > 0
      ensures forall id :: id in t.index ==> IdOk(t, id) && t.infos[t.index[id]].txWeight.evictionWeight > 0
    {
      RootSum(Costs(t.infos));
      RootSum(Evictions(t.infos));
      SubtreePositive(Costs(t.infos), 0);
      SubtreePositive(Evictions(t.infos), 0);
      forall id | id in t.index ensures IdOk(t, id) && t.infos[t.index[id]].txWeight.evictionWeight > 0 {
        assert IdOk(t, id);
        assert Evictions(t.infos)[t.index[id]] > 0;
      }
    }
  }
}
