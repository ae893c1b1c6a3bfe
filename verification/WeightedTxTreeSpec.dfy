/**
 The weighted tree from which the mempool evicts transactions at random (ZIP 401). It is a
 complete binary tree in an array; node i has the children 2i + 1 and 2i + 2, and keeps the sum
 of the weights below it.
 */
module WeightedTxTreeSpec {
  import opened Basics

  // ----- Sums over the tree -----

  /** The sum of a node and everything below it. */
  function Subtree(vs: seq<int>, i: nat): int
    decreases |vs| - i
  {
    if i >= |vs| then 0 else vs[i] + Subtree(vs, 2 * i + 1) + Subtree(vs, 2 * i + 2)
  }

  /** The sum of everything strictly below a node. */
  function Below(vs: seq<int>, i: nat): int {
    Subtree(vs, 2 * i + 1) + Subtree(vs, 2 * i + 2)
  }

  function Parent(j: nat): nat
    requires j > 0
  {
    (j - 1) / 2
  }

  /** Node i is node j or above it. */
  predicate Above(i: nat, j: nat)
    decreases j
  {
    i == j || (i < j && Above(i, Parent(j)))
  }

  /** What is below a node is below exactly one of its children. */
  lemma {:induction false} AboveSplit(i: nat, j: nat)
    requires i != j
    ensures Above(i, j) <==> Above(2 * i + 1, j) || Above(2 * i + 2, j)
    ensures !(Above(2 * i + 1, j) && Above(2 * i + 2, j))
    decreases j
  {
    if i < j && Parent(j) != i { AboveSplit(i, Parent(j)); }
  }

  lemma {:induction false} NotAbove(i: nat, j: nat)
    requires j < i
    ensures !Above(i, j)
  {
  }

  /** Changing one value changes the sums of the node and of those above it, and no other. */
  lemma {:induction false} SumUpdate(vs: seq<int>, j: nat, v: int, i: nat)
    requires j < |vs|
    ensures Subtree(vs[j := v], i) == Subtree(vs, i) + if Above(i, j) then v - vs[j] else 0
    decreases |vs| - i
  {
    if i < |vs| {
      SumUpdate(vs, j, v, 2 * i + 1);
      SumUpdate(vs, j, v, 2 * i + 2);
      if i != j {
        AboveSplit(i, j);
      } else {
        NotAbove(2 * i + 1, j);
        NotAbove(2 * i + 2, j);
      }
    } else {
      NotAbove(i, j);
    }
  }

  /** Appending a value adds it to the sums above its place. */
  lemma {:induction false} SumAppend(vs: seq<int>, v: int, i: nat)
    ensures Subtree(vs + [v], i) == Subtree(vs, i) + if Above(i, |vs|) then v else 0
    decreases |vs| - i
  {
    if i < |vs| {
      SumAppend(vs, v, 2 * i + 1);
      SumAppend(vs, v, 2 * i + 2);
      AboveSplit(i, |vs|);
    } else if i > |vs| {
      NotAbove(i, |vs|);
    }
  }

  /** The sum of all values. */
  function Sum(vs: seq<int>): int {
    if vs == [] then 0 else Sum(vs[..|vs| - 1]) + vs[|vs| - 1]
  }

  /** The root is above every node, so its sum is the total. */
  lemma {:induction false} RootSum(vs: seq<int>)
    ensures Subtree(vs, 0) == Sum(vs)
  {
    if vs != [] {
      var n := |vs| - 1;
      RootSum(vs[..n]);
      SumAppend(vs[..n], vs[n], 0);
      AboveRoot(n);
      assert vs[..n] + [vs[n]] == vs;
    }
  }

  lemma {:induction false} AboveRoot(j: nat)
    ensures Above(0, j)
  {
    if j > 0 { AboveRoot(Parent(j)); }
  }

  predicate Positive(vs: seq<int>) {
    forall i :: 0 <= i < |vs| ==> vs[i] > 0
  }

  lemma {:induction false} SubtreePositive(vs: seq<int>, i: nat)
    requires Positive(vs)
    ensures Subtree(vs, i) >= 0 && (i < |vs| <==> Subtree(vs, i) > 0)
    decreases |vs| - i
  {
    if i < |vs| {
      SubtreePositive(vs, 2 * i + 1);
      SubtreePositive(vs, 2 * i + 2);
    }
  }

  // ----- Which values select which node -----

  /** The sum of what comes before node i, in order, within the tree of node from. */
  function Offset(vs: seq<int>, from: nat, i: nat): int
    requires Above(from, i) && i < |vs|
    decreases |vs| - from
  {
    var left := Subtree(vs, 2 * from + 1);
    if i == from then left
    else
      AboveSplit(from, i);
      if Above(2 * from + 1, i) then Offset(vs, 2 * from + 1, i) else left + vs[from] + Offset(vs, 2 * from + 2, i)
  }

  /** The interval of a node: as wide as its weight, from its offset on. */
  predicate Selects(vs: seq<int>, from: nat, i: nat, w: int) {
    i < |vs| && Above(from, i) && Offset(vs, from, i) <= w < Offset(vs, from, i) + vs[i]
  }

  lemma {:induction false} OffsetBounds(vs: seq<int>, from: nat, i: nat)
    requires Positive(vs) && Above(from, i) && i < |vs|
    ensures 0 <= Offset(vs, from, i) && Offset(vs, from, i) + vs[i] <= Subtree(vs, from)
    decreases |vs| - from
  {
    SubtreePositive(vs, 2 * from + 1);
    SubtreePositive(vs, 2 * from + 2);
    if i != from {
      AboveSplit(from, i);
      if Above(2 * from + 1, i) { OffsetBounds(vs, 2 * from + 1, i); } else { OffsetBounds(vs, 2 * from + 2, i); }
    }
  }

  /** No two nodes share a value: the intervals tile the range. */
  lemma {:induction false} SelectsOne(vs: seq<int>, from: nat, i: nat, j: nat, w: int)
    requires Positive(vs) && Selects(vs, from, i, w) && Selects(vs, from, j, w)
    ensures i == j
    decreases |vs| - from
  {
    var left, right := 2 * from + 1, 2 * from + 2;
    if i != from {
      AboveSplit(from, i);
      if Above(left, i) { OffsetBounds(vs, left, i); } else { OffsetBounds(vs, right, i); }
    }
    if j != from {
      AboveSplit(from, j);
      if Above(left, j) { OffsetBounds(vs, left, j); } else { OffsetBounds(vs, right, j); }
    }
    if i != from && j != from {
      if Above(left, i) && Above(left, j) {
        SelectsOne(vs, left, i, j, w);
      } else if !Above(left, i) && !Above(left, j) {
        SelectsOne(vs, right, i, j, w - Subtree(vs, left) - vs[from]);
      }
    }
  }

  // ----- The steps of the search -----

  /** Sums are assigned to 32-bit ints before they are compared. */
  const INT_RANGE := 0x1_0000_0000
  const INT_MAX := 0x7fff_ffff

  function Int32(x: int): int {
    var r := x % INT_RANGE;
    if r > INT_MAX then r - INT_RANGE else r
  }

  datatype Step = Left | Found | Right

  /** Where the search goes from a node whose left subtree, and this with the node, weigh so much. */
  function StepBy(left: int, upToHere: int, w: int): Step {
    if w < left then Left else if w < upToHere then Found else Right
  }

  function LeftWeight(vs: seq<int>, i: nat): int {
    Subtree(vs, 2 * i + 1)
  }

  /** The weight of a node and its left subtree, computed as the total less the right subtree. */
  function UpToHere(vs: seq<int>, i: nat): int {
    Subtree(vs, i) - Subtree(vs, 2 * i + 2)
  }

  /** No sum the search compares exceeds an int. */
  ghost predicate FitsInt(vs: seq<int>) {
    forall i: nat {:trigger UpToHere(vs, i)} :: i < |vs| ==> UpToHere(vs, i) <= INT_MAX
  }

  lemma {:induction false} SubtreeAtMost(vs: seq<int>, from: nat, i: nat)
    requires Positive(vs) && Above(from, i)
    ensures Subtree(vs, i) <= Subtree(vs, from)
    decreases |vs| - from
  {
    SubtreePositive(vs, from);
    SubtreePositive(vs, 2 * from + 1);
    SubtreePositive(vs, 2 * from + 2);
    if i != from && from < |vs| {
      AboveSplit(from, i);
      if Above(2 * from + 1, i) { SubtreeAtMost(vs, 2 * from + 1, i); } else { SubtreeAtMost(vs, 2 * from + 2, i); }
    }
  }

  /** A total that fits an int is enough. */
  lemma TotalFits(vs: seq<int>)
    requires Positive(vs) && Sum(vs) <= INT_MAX
    ensures FitsInt(vs)
  {
    RootSum(vs);
    forall i: nat | i < |vs| ensures UpToHere(vs, i) <= INT_MAX {
      AboveRoot(i);
      SubtreeAtMost(vs, 0, i);
      SubtreePositive(vs, 2 * i + 2);
    }
  }

  /** The numbers that a step of the search compares. */
  lemma StepNumbers(vs: seq<int>, from: nat, w: int)
    requires Positive(vs) && FitsInt(vs) && 0 <= w < Subtree(vs, from)
    ensures from < |vs|
    ensures Int32(LeftWeight(vs, from)) == LeftWeight(vs, from) && Int32(UpToHere(vs, from)) == UpToHere(vs, from)
    ensures UpToHere(vs, from) <= w ==> 0 <= w - UpToHere(vs, from) < Subtree(vs, 2 * from + 2)
  {
    SubtreePositive(vs, from);
    assert UpToHere(vs, from) <= INT_MAX;
    SubtreePositive(vs, 2 * from + 1);
    SubtreePositive(vs, 2 * from + 2);
  }

  /** One step of the search keeps the interval that holds the value. */
  lemma StepSelects(vs: seq<int>, from: nat, i: nat, w: int)
    requires Positive(vs) && from < |vs|
    ensures from == i && StepBy(LeftWeight(vs, from), UpToHere(vs, from), w) == Found ==> Selects(vs, from, i, w)
    ensures Selects(vs, 2 * from + 1, i, w) ==> Selects(vs, from, i, w)
    ensures Selects(vs, 2 * from + 2, i, w - UpToHere(vs, from)) ==> Selects(vs, from, i, w)
  {
    if from < i { AboveSplit(from, i); }
  }

  // ----- The whole search -----

  /** The two sums that are compared at each node, truncated. */
  type Sums = nat -> (int, int)

  function Truncated(vs: seq<int>): Sums {
    (i: nat) => (Int32(LeftWeight(vs, i)), Int32(UpToHere(vs, i)))
  }

  ghost predicate SumsAt(sums: Sums, vs: seq<int>, i: nat) {
    sums(i) == (Int32(LeftWeight(vs, i)), Int32(UpToHere(vs, i)))
  }

  /** The search in a tree of n nodes. Once outside of the tree it goes on for ever. */
  function Walk(sums: Sums, n: nat, from: nat, w: int): (r: Option<nat>)
    ensures r.Some? ==> from <= r.value < n
    decreases n - from
  {
    if from >= n then None
    else
      match StepBy(sums(from).0, sums(from).1, w)
      case Left => Walk(sums, n, 2 * from + 1, w)
      case Found => Some(from)
      case Right => Walk(sums, n, 2 * from + 2, w - sums(from).1)
  }

  function Search(vs: seq<int>, from: nat, w: int): Option<nat> { Walk(Truncated(vs), |vs|, from, w) }

  lemma {:induction false} SearchStep(vs: seq<int>, from: nat, w: int, left: int, right: int)
    requires from < |vs| && left == Int32(LeftWeight(vs, from)) && right == Int32(UpToHere(vs, from))
    ensures w < left ==> Search(vs, from, w) == Search(vs, 2 * from + 1, w)
    ensures left <= w < right ==> Search(vs, from, w) == Some(from)
    ensures left <= w && right <= w ==> Search(vs, from, w) == Search(vs, 2 * from + 2, w - right)
  {
  }

  /** The search ends at the node that owns the value. */
  predicate Finds(vs: seq<int>, from: nat, w: int) {
    Search(vs, from, w).Some? && Selects(vs, from, Search(vs, from, w).value, w)
  }

  lemma {:induction false} SearchFinds(vs: seq<int>, from: nat, w: int)
    requires Positive(vs) && FitsInt(vs) && 0 <= w < Subtree(vs, from)
    ensures Finds(vs, from, w)
    decreases |vs| - from
  {
    StepNumbers(vs, from, w);
    SubtreePositive(vs, 2 * from + 1);
    match StepBy(LeftWeight(vs, from), UpToHere(vs, from), w) {
      case Left => SearchFinds(vs, 2 * from + 1, w);
      case Found =>
      case Right => SearchFinds(vs, 2 * from + 2, w - UpToHere(vs, from));
    }
    StepSelects(vs, from, Search(vs, from, w).value, w);
  }

  /** At a node whose compared sum does not fit, the node's own last value goes astray. */
  lemma {:induction false} LostHere(vs: seq<int>, from: nat, w: int)
    requires Positive(vs) && from < |vs| && UpToHere(vs, from) > INT_MAX && w == UpToHere(vs, from) - 1
    ensures 0 <= w < Subtree(vs, from) && !Finds(vs, from, w)
  {
    SubtreePositive(vs, 2 * from + 1);
    SubtreePositive(vs, 2 * from + 2);
    assert Selects(vs, from, from, w);
    if Finds(vs, from, w) { SelectsOne(vs, from, from, Search(vs, from, w).value, w); }
  }

  /** A node that owns a value left or right of the middle lies in the subtree on that side. */
  lemma {:induction false} SelectsSide(vs: seq<int>, from: nat, i: nat, w: int)
    requires Positive(vs) && Selects(vs, from, i, w)
    ensures w < LeftWeight(vs, from) ==> Selects(vs, 2 * from + 1, i, w)
    ensures w >= UpToHere(vs, from) ==> Selects(vs, 2 * from + 2, i, w - UpToHere(vs, from))
  {
    SubtreePositive(vs, 2 * from + 1);
    SubtreePositive(vs, 2 * from + 2);
    if i != from {
      AboveSplit(from, i);
      if Above(2 * from + 1, i) { OffsetBounds(vs, 2 * from + 1, i); } else { OffsetBounds(vs, 2 * from + 2, i); }
    }
  }

  /** What is lost in a subtree is lost in the whole. */
  lemma {:induction false} LostLeft(vs: seq<int>, from: nat, w: int)
    requires Positive(vs) && from < |vs| && UpToHere(vs, from) <= INT_MAX
    requires 0 <= w < LeftWeight(vs, from) && !Finds(vs, 2 * from + 1, w)
    ensures !Finds(vs, from, w)
  {
    SubtreePositive(vs, 2 * from + 2);
    SearchStep(vs, from, w, LeftWeight(vs, from), UpToHere(vs, from));
    if Finds(vs, from, w) { SelectsSide(vs, from, Search(vs, from, w).value, w); }
  }

  lemma {:induction false} LostRight(vs: seq<int>, from: nat, w: int)
    requires Positive(vs) && from < |vs| && UpToHere(vs, from) <= INT_MAX
    requires w >= UpToHere(vs, from) && !Finds(vs, 2 * from + 2, w - UpToHere(vs, from))
    ensures !Finds(vs, from, w)
  {
    SubtreePositive(vs, 2 * from + 1);
    SearchStep(vs, from, w, LeftWeight(vs, from), UpToHere(vs, from));
    if Finds(vs, from, w) { SelectsSide(vs, from, Search(vs, from, w).value, w); }
  }

  lemma {:induction false} Lost(vs: seq<int>, from: nat, i: nat) returns (w: int)
    requires Positive(vs) && Above(from, i) && i < |vs| && UpToHere(vs, i) > INT_MAX
    ensures 0 <= w < Subtree(vs, from) && !Finds(vs, from, w)
    decreases |vs| - from
  {
    SubtreePositive(vs, 2 * from + 1);
    SubtreePositive(vs, 2 * from + 2);
    if UpToHere(vs, from) > INT_MAX {
      w := UpToHere(vs, from) - 1;
      LostHere(vs, from, w);
    } else {
      AboveSplit(from, i);
      if Above(2 * from + 1, i) {
        w := Lost(vs, 2 * from + 1, i);
        LostLeft(vs, from, w);
      } else {
        var v := Lost(vs, 2 * from + 2, i);
        w := v + UpToHere(vs, from);
        LostRight(vs, from, w);
      }
    }
  }

  /** Every value below the total leads to its owner if and only if no compared sum exceeds an int. */
  lemma SearchExact(vs: seq<int>)
    requires Positive(vs)
    ensures FitsInt(vs) <==> forall w {:trigger Finds(vs, 0, w)} :: 0 <= w < Sum(vs) ==> Finds(vs, 0, w)
  {
    RootSum(vs);
    if FitsInt(vs) {
      forall w | 0 <= w < Sum(vs) ensures Finds(vs, 0, w) { SearchFinds(vs, 0, w); }
    } else {
      var i: nat :| i < |vs| && UpToHere(vs, i) > INT_MAX;
      AboveRoot(i);
      var w := Lost(vs, 0, i);
      assert !Finds(vs, 0, w);
    }
  }

  /** Two transactions: the first owns the value 1, yet the search for it leaves the tree. */
  lemma SearchExample()
    ensures var vs := [INT_MAX, 1];
      Positive(vs) && 1 < Sum(vs) && Selects(vs, 0, 0, 1) && Search(vs, 0, 1) == None
  {
    var vs := [INT_MAX, 1];
    RootSum(vs);
    assert Subtree(vs, 2) == 0 && Subtree(vs, 1) == 1 && Subtree(vs, 0) == INT_MAX + 1;
    assert Search(vs, 2, 1 - Int32(UpToHere(vs, 0))) == None;
  }

  // ----- The draw -----

  /** The search for a draw, which is truncated as well, ends at the node that owns the draw. */
  predicate Drawn(vs: seq<int>, from: nat, d: int) {
    var r := Search(vs, from, Int32(d));
    r.Some? && Selects(vs, from, r.value, d)
  }

  ghost predicate EveryDrawMeets(vs: seq<int>) {
    forall d {:trigger Drawn(vs, 0, d)} :: 0 <= d < Sum(vs) ==> Drawn(vs, 0, d)
  }

  /** No compared sum and no draw exceeds an int. */
  ghost predicate DrawsFit(vs: seq<int>) { FitsInt(vs) && Sum(vs) <= INT_MAX + 1 }

  /** Among sums that fit, a negative value goes left for ever. */
  lemma {:induction false} NegativeLeaves(vs: seq<int>, from: nat, w: int)
    requires Positive(vs) && FitsInt(vs) && w < 0
    ensures Search(vs, from, w) == None
    decreases |vs| - from
  {
    if from < |vs| {
      assert UpToHere(vs, from) <= INT_MAX;
      SubtreePositive(vs, 2 * from + 1);
      SubtreePositive(vs, 2 * from + 2);
      SearchStep(vs, from, w, LeftWeight(vs, from), UpToHere(vs, from));
      NegativeLeaves(vs, 2 * from + 1, w);
    }
  }

  /** Among sums that fit, a draw meets its owner if and only if it is an int; it is lost if it turns negative. */
  lemma DrawMeets(vs: seq<int>, d: int)
    requires Positive(vs) && FitsInt(vs) && 0 <= d < Sum(vs)
    ensures Drawn(vs, 0, d) <==> d <= INT_MAX
    ensures Search(vs, 0, Int32(d)) == None <==> Int32(d) < 0
  {
    var w := Int32(d);
    RootSum(vs);
    if w < 0 {
      NegativeLeaves(vs, 0, w);
    } else {
      SearchFinds(vs, 0, w);
      var i := Search(vs, 0, w).value;
      SubtreePositive(vs, 2 * i + 1);
      assert UpToHere(vs, i) <= INT_MAX;
    }
  }

  lemma {:induction false} SearchBelow(vs: seq<int>, from: nat, w: int)
    ensures Search(vs, from, w).Some? ==> Above(from, Search(vs, from, w).value)
    decreases |vs| - from
  {
    if from < |vs| {
      var left, right := Int32(LeftWeight(vs, from)), Int32(UpToHere(vs, from));
      SearchStep(vs, from, w, left, right);
      SearchBelow(vs, 2 * from + 1, w);
      SearchBelow(vs, 2 * from + 2, w - right);
      if Search(vs, from, w).Some? && Search(vs, from, w).value != from { AboveSplit(from, Search(vs, from, w).value); }
    }
  }

  /** A search that turns to the other side than the draw's owner does not meet it. */
  lemma {:induction false} WrongSide(vs: seq<int>, from: nat, d: int)
    requires Positive(vs) && from < |vs|
    ensures d < LeftWeight(vs, from) && Int32(d) >= Int32(LeftWeight(vs, from)) ==> !Drawn(vs, from, d)
    ensures d >= LeftWeight(vs, from) && Int32(d) < Int32(LeftWeight(vs, from)) ==> !Drawn(vs, from, d)
  {
    var w, left, right := Int32(d), Int32(LeftWeight(vs, from)), Int32(UpToHere(vs, from));
    SearchStep(vs, from, w, left, right);
    SearchBelow(vs, 2 * from + 1, w);
    SearchBelow(vs, 2 * from + 2, w - right);
    if Drawn(vs, from, d) {
      var i := Search(vs, from, w).value;
      if i != from {
        AboveSplit(from, i);
        if Above(2 * from + 1, i) { OffsetBounds(vs, 2 * from + 1, i); } else { OffsetBounds(vs, 2 * from + 2, i); }
      }
    }
  }

  /** A draw that is lost in the left subtree, when the search goes there, is lost in the whole. */
  lemma {:induction false} DrawLostLeft(vs: seq<int>, from: nat, d: int)
    requires Positive(vs) && from < |vs| && 0 <= d < LeftWeight(vs, from) && !Drawn(vs, 2 * from + 1, d)
    ensures !Drawn(vs, from, d)
  {
    SearchStep(vs, from, Int32(d), Int32(LeftWeight(vs, from)), Int32(UpToHere(vs, from)));
    if Int32(d) >= Int32(LeftWeight(vs, from)) {
      WrongSide(vs, from, d);
    } else if Drawn(vs, from, d) {
      SelectsSide(vs, from, Search(vs, from, Int32(d)).value, d);
    }
  }

  /** In a subtree with values beyond an int, the draw 0 or the first draw beyond an int is lost. */
  lemma {:induction false} DrawLost(vs: seq<int>, from: nat) returns (d: int)
    requires Positive(vs) && Subtree(vs, from) > INT_MAX + 1
    ensures 0 <= d < Subtree(vs, from) && !Drawn(vs, from, d)
    decreases |vs| - from
  {
    var left := LeftWeight(vs, from);
    SubtreePositive(vs, 2 * from + 1);
    if left > 0 && Int32(left) <= 0 {
      d := 0;
      WrongSide(vs, from, d);
    } else if left <= INT_MAX {
      d := INT_MAX + 1;
      WrongSide(vs, from, d);
    } else {
      d := DrawLost(vs, 2 * from + 1);
      DrawLostLeft(vs, from, d);
      SubtreePositive(vs, 2 * from + 2);
    }
  }

  /** Every draw below the total meets its owner if and only if all sums and all draws fit an int. */
  lemma DrawExact(vs: seq<int>)
    requires Positive(vs)
    ensures DrawsFit(vs) <==> EveryDrawMeets(vs)
  {
    RootSum(vs);
    SearchExact(vs);
    if Sum(vs) <= INT_MAX + 1 {
      forall d | 0 <= d < Sum(vs) ensures Drawn(vs, 0, d) <==> Finds(vs, 0, d) {}
      if !FitsInt(vs) {
        var w :| 0 <= w < Sum(vs) && !Finds(vs, 0, w);
        assert !Drawn(vs, 0, w);
      }
    } else {
      var d := DrawLost(vs, 0);
      assert !Drawn(vs, 0, d);
    }
  }

  /** Three transactions whose sums all fit: the last one owns the draw 2^31, which leaves the tree. */
  lemma DrawExample()
    ensures var vs, d := [1_000_000_000, 1_000_000_000, 1_000_000_000], 0x8000_0000;
      Positive(vs) && FitsInt(vs) && d < Sum(vs) && Selects(vs, 0, 2, d) && Search(vs, 0, Int32(d)) == None
  {
    var vs := [1_000_000_000, 1_000_000_000, 1_000_000_000];
    RootSum(vs);
    assert Subtree(vs, 1) == 1_000_000_000 && Subtree(vs, 2) == 1_000_000_000 && Subtree(vs, 0) == 3_000_000_000;
    forall i: nat | i < |vs| ensures UpToHere(vs, i) <= INT_MAX { assert i == 0 || i == 1 || i == 2; }
    AboveSplit(0, 2);
    assert Above(2, 2) && Offset(vs, 2, 2) == 0;
    NegativeLeaves(vs, 0, Int32(0x8000_0000));
  }

  // ----- Keeping the sums -----

  datatype TxWeight = TxWeight(cost: int, evictionWeight: int)

  const ZERO_WEIGHT := TxWeight(0, 0)

  function Add(a: TxWeight, b: TxWeight): TxWeight {
    TxWeight(a.cost + b.cost, a.evictionWeight + b.evictionWeight)
  }

  function Negate(a: TxWeight): TxWeight {
    TxWeight(-a.cost, -a.evictionWeight)
  }

  /** Adds a difference to the sums strictly above a node. */
  function Propagate(child: seq<TxWeight>, from: nat, delta: TxWeight): (r: seq<TxWeight>)
    requires from <= |child|
    ensures |r| == |child|
    decreases from
  {
    if from == 0 then child
    else Propagate(child[Parent(from) := Add(child[Parent(from)], delta)], Parent(from), delta)
  }

  lemma {:induction false} PropagateAt(child: seq<TxWeight>, from: nat, delta: TxWeight, i: nat)
    requires from <= |child| && i < |child|
    ensures Propagate(child, from, delta)[i] == if i < from && Above(i, from) then Add(child[i], delta) else child[i]
    decreases from
  {
    if from > 0 {
      var p := Parent(from);
      PropagateAt(child[p := Add(child[p], delta)], p, delta, i);
      if p < i < from { NotAbove(i, p); }
    }
  }

  lemma {:induction false} PropagateTake(child: seq<TxWeight>, from: nat, delta: TxWeight, n: nat)
    requires from <= n <= |child|
    ensures Propagate(child, from, delta)[..n] == Propagate(child[..n], from, delta)
    decreases from
  {
    if from > 0 {
      var p := Parent(from);
      PropagateTake(child[p := Add(child[p], delta)], p, delta, n);
      assert child[p := Add(child[p], delta)][..n] == child[..n][p := Add(child[p], delta)];
    }
  }

  type TxId = int

  datatype TxInfo = TxInfo(txId: TxId, txWeight: TxWeight)

  function Costs(infos: seq<TxInfo>): (r: seq<int>)
    ensures |r| == |infos|
  {
    seq(|infos|, i requires 0 <= i < |infos| => infos[i].txWeight.cost)
  }

  function Evictions(infos: seq<TxInfo>): (r: seq<int>)
    ensures |r| == |infos|
  {
    seq(|infos|, i requires 0 <= i < |infos| => infos[i].txWeight.evictionWeight)
  }

  predicate ChildOk(infos: seq<TxInfo>, child: seq<TxWeight>, i: nat) {
    i < |infos| == |child| ==>
      child[i].cost == Below(Costs(infos), i) && child[i].evictionWeight == Below(Evictions(infos), i)
  }

  /** Each node knows the sums of what is strictly below it. */
  ghost predicate SumsOk(infos: seq<TxInfo>, child: seq<TxWeight>) {
    |child| == |infos| && forall i: nat {:trigger ChildOk(infos, child, i)} :: ChildOk(infos, child, i)
  }

  lemma BelowUpdate(vs: seq<int>, j: nat, v: int, i: nat)
    requires j < |vs|
    ensures Below(vs[j := v], i) == Below(vs, i) + if i < j && Above(i, j) then v - vs[j] else 0
  {
    SumUpdate(vs, j, v, 2 * i + 1);
    SumUpdate(vs, j, v, 2 * i + 2);
    if i < j {
      AboveSplit(i, j);
    } else {
      NotAbove(2 * i + 1, j);
      NotAbove(2 * i + 2, j);
    }
  }

  lemma BelowAppend(vs: seq<int>, v: int, i: nat)
    ensures Below(vs + [v], i) == Below(vs, i) + if i < |vs| && Above(i, |vs|) then v else 0
  {
    SumAppend(vs, v, 2 * i + 1);
    SumAppend(vs, v, 2 * i + 2);
    if i < |vs| {
      AboveSplit(i, |vs|);
    } else {
      NotAbove(2 * i + 1, |vs|);
      NotAbove(2 * i + 2, |vs|);
    }
  }

  lemma SumsUpdate(infos: seq<TxInfo>, child: seq<TxWeight>, j: nat, info: TxInfo, delta: TxWeight)
    requires SumsOk(infos, child) && j < |infos| && delta == Add(info.txWeight, Negate(infos[j].txWeight))
    ensures SumsOk(infos[j := info], Propagate(child, j, delta))
  {
    var infos', child' := infos[j := info], Propagate(child, j, delta);
    assert Costs(infos') == Costs(infos)[j := info.txWeight.cost];
    assert Evictions(infos') == Evictions(infos)[j := info.txWeight.evictionWeight];
    forall i: nat ensures ChildOk(infos', child', i) {
      if i < |infos| {
        assert ChildOk(infos, child, i);
        PropagateAt(child, j, delta, i);
        BelowUpdate(Costs(infos), j, info.txWeight.cost, i);
        BelowUpdate(Evictions(infos), j, info.txWeight.evictionWeight, i);
      }
    }
  }

  lemma Appended(infos: seq<TxInfo>, info: TxInfo, i: nat)
    ensures Costs(infos + [info]) == Costs(infos) + [info.txWeight.cost]
    ensures Evictions(infos + [info]) == Evictions(infos) + [info.txWeight.evictionWeight]
    ensures var up := i < |infos| && Above(i, |infos|);
      && Below(Costs(infos + [info]), i) == Below(Costs(infos), i) + (if up then info.txWeight.cost else 0)
      && Below(Evictions(infos + [info]), i) ==
         Below(Evictions(infos), i) + if up then info.txWeight.evictionWeight else 0
  {
    assert Costs(infos + [info]) == Costs(infos) + [info.txWeight.cost];
    assert Evictions(infos + [info]) == Evictions(infos) + [info.txWeight.evictionWeight];
    BelowAppend(Costs(infos), info.txWeight.cost, i);
    BelowAppend(Evictions(infos), info.txWeight.evictionWeight, i);
  }

  lemma SumsAppend(infos: seq<TxInfo>, child: seq<TxWeight>, info: TxInfo)
    requires SumsOk(infos, child)
    ensures SumsOk(infos + [info], Propagate(child + [ZERO_WEIGHT], |infos|, info.txWeight))
  {
    var n, infos', child' := |infos|, infos + [info], Propagate(child + [ZERO_WEIGHT], |infos|, info.txWeight);
    forall i: nat ensures ChildOk(infos', child', i) {
      if i <= n {
        assert ChildOk(infos, child, i);
        PropagateAt(child + [ZERO_WEIGHT], n, info.txWeight, i);
        Appended(infos, info, i);
      }
    }
  }

  /** Taking the last node away. */
  lemma SumsDrop(infos: seq<TxInfo>, child: seq<TxWeight>, n: nat)
    requires SumsOk(infos, child) && n + 1 == |infos|
    ensures SumsOk(infos[..n], Propagate(child, n, Negate(infos[n].txWeight))[..n])
  {
    var infos', child' := infos[..n], Propagate(child, n, Negate(infos[n].txWeight))[..n];
    assert infos' + [infos[n]] == infos;
    forall i: nat ensures ChildOk(infos', child', i) {
      if i < n {
        assert ChildOk(infos, child, i);
        PropagateAt(child, n, Negate(infos[n].txWeight), i);
        Appended(infos', infos[n], i);
      }
    }
  }

  // ----- The collection -----

  /** The vectors and the index of the source. */
  datatype Tree = Tree(infos: seq<TxInfo>, child: seq<TxWeight>, index: map<TxId, nat>)

  predicate PlaceOk(t: Tree, i: nat) {
    i < |t.infos| ==> t.infos[i].txId in t.index && t.index[t.infos[i].txId] == i
  }

  predicate IdOk(t: Tree, id: TxId) {
    id in t.index ==> t.index[id] < |t.infos| && t.infos[t.index[id]].txId == id
  }

  /** The index finds each transaction where it is, and nothing else. */
  ghost predicate IndexOk(t: Tree) {
    && (forall i: nat {:trigger PlaceOk(t, i)} :: PlaceOk(t, i))
    && (forall id {:trigger IdOk(t, id)} :: IdOk(t, id))
  }

  ghost predicate Valid(t: Tree) {
    IndexOk(t) && SumsOk(t.infos, t.child) && Positive(Costs(t.infos)) && Positive(Evictions(t.infos))
  }

  function Insert(t: Tree, info: TxInfo): Tree
    requires |t.child| == |t.infos|
  {
    if info.txId in t.index then t
    else Tree(t.infos + [info], Propagate(t.child + [ZERO_WEIGHT], |t.infos|, info.txWeight),
      t.index[info.txId := |t.infos|])
  }

  /** The last transaction takes the place of the removed one. */
  function Remove(t: Tree, id: TxId): Tree
    requires |t.child| == |t.infos| && IdOk(t, id)
  {
    if id !in t.index then t
    else
      var n, r := |t.infos| - 1, t.index[id];
      var last := t.infos[n];
      var child := Propagate(t.child, n, Negate(last.txWeight));
      if r == n then Tree(t.infos[..n], child[..n], t.index - {id})
      else Tree(t.infos[..n][r := last],
                Propagate(child, r, Add(last.txWeight, Negate(t.infos[r].txWeight)))[..n],
                t.index[last.txId := r] - {id})
  }

  lemma InsertKeeps(t: Tree, info: TxInfo)
    requires Valid(t) && info.txWeight.cost > 0 && info.txWeight.evictionWeight > 0
    ensures Valid(Insert(t, info))
    ensures info.txId !in t.index ==> Sum(Costs(Insert(t, info).infos)) == Sum(Costs(t.infos)) + info.txWeight.cost
  {
    if info.txId !in t.index {
      var t' := Insert(t, info);
      SumsAppend(t.infos, t.child, info);
      Appended(t.infos, info, 0);
      assert (Costs(t.infos) + [info.txWeight.cost])[..|t.infos|] == Costs(t.infos);
      forall i: nat ensures PlaceOk(t', i) { assert PlaceOk(t, i); }
      forall id ensures IdOk(t', id) { assert IdOk(t, id); }
    }
  }

  lemma RemoveIndex(t: Tree, id: TxId)
    requires IndexOk(t) && id in t.index && |t.child| == |t.infos| && IdOk(t, id)
    ensures IndexOk(Remove(t, id))
  {
    var t', n := Remove(t, id), |t.infos| - 1;
    assert PlaceOk(t, n);
    forall i: nat ensures PlaceOk(t', i) { assert PlaceOk(t, i) && PlaceOk(t, t.index[id]); }
    forall j ensures IdOk(t', j) { assert IdOk(t, j); }
  }

  lemma RemoveSums(t: Tree, id: TxId)
    requires SumsOk(t.infos, t.child) && id in t.index && IdOk(t, id)
    ensures SumsOk(Remove(t, id).infos, Remove(t, id).child)
  {
    var n, r := |t.infos| - 1, t.index[id];
    var last := t.infos[n];
    SumsDrop(t.infos, t.child, n);
    var child := Propagate(t.child, n, Negate(last.txWeight));
    if r != n {
      var delta := Add(last.txWeight, Negate(t.infos[r].txWeight));
      SumsUpdate(t.infos[..n], child[..n], r, last, delta);
      PropagateTake(child, r, delta, n);
    }
  }

  lemma {:induction false} SumReplace(vs: seq<int>, r: nat, n: nat)
    requires r < n && n + 1 == |vs|
    ensures Sum(vs[..n][r := vs[n]]) == Sum(vs) - vs[r]
  {
    RootSum(vs[..n]);
    SumUpdate(vs[..n], r, vs[n], 0);
    AboveRoot(r);
    RootSum(vs[..n][r := vs[n]]);
  }

  /** Removing a transaction takes exactly its weights from the totals. */
  lemma RemoveTotal(t: Tree, id: TxId)
    requires id in t.index && IdOk(t, id) && |t.child| == |t.infos|
    ensures Sum(Costs(Remove(t, id).infos)) == Sum(Costs(t.infos)) - t.infos[t.index[id]].txWeight.cost
    ensures Sum(Evictions(Remove(t, id).infos)) ==
      Sum(Evictions(t.infos)) - t.infos[t.index[id]].txWeight.evictionWeight
  {
    var n, r, cs, es := |t.infos| - 1, t.index[id], Costs(t.infos), Evictions(t.infos);
    if r == n {
      assert Costs(t.infos[..n]) == cs[..n] && Evictions(t.infos[..n]) == es[..n];
    } else {
      SumReplace(cs, r, n);
      SumReplace(es, r, n);
      assert Costs(Remove(t, id).infos) == cs[..n][r := cs[n]];
      assert Evictions(Remove(t, id).infos) == es[..n][r := es[n]];
    }
  }

  lemma RemoveKeeps(t: Tree, id: TxId)
    requires Valid(t) && IdOk(t, id)
    ensures Valid(Remove(t, id))
    ensures id in t.index ==> |Remove(t, id).infos| == |t.infos| - 1
  {
    if id in t.index {
      RemoveIndex(t, id);
      RemoveSums(t, id);
      RemovePositive(t, id);
    }
  }

  lemma RemovePositive(t: Tree, id: TxId)
    requires |t.child| == |t.infos| && IdOk(t, id) && Positive(Costs(t.infos)) && Positive(Evictions(t.infos))
    ensures Positive(Costs(Remove(t, id).infos)) && Positive(Evictions(Remove(t, id).infos))
  {
    var infos' := Remove(t, id).infos;
    forall i | 0 <= i < |infos'| ensures Costs(infos')[i] > 0 && Evictions(infos')[i] > 0 {
      var j := if id in t.index && i == t.index[id] then |t.infos| - 1 else i;
      assert infos'[i] == t.infos[j] && Costs(t.infos)[j] > 0 && Evictions(t.infos)[j] > 0;
    }
  }

  /** The others stay, with their weights. */
  lemma RemoveOthers(t: Tree, id: TxId, other: TxId)
    requires Valid(t) && IdOk(t, id) && other != id
    ensures other in Remove(t, id).index <==> other in t.index
    ensures other in t.index ==> IdOk(t, other) && IdOk(Remove(t, id), other)
    ensures other in t.index ==> Remove(t, id).infos[Remove(t, id).index[other]] == t.infos[t.index[other]]
    ensures id !in Remove(t, id).index
  {
    RemoveKeeps(t, id);
    assert IdOk(t, other) && IdOk(Remove(t, id), other);
    if id in t.index { assert PlaceOk(t, |t.infos| - 1); }
  }

  // ----- Many removals -----

  function IdsOf(ids: seq<TxId>): set<TxId> { set id | id in ids }

  predicate Remains(t: Tree, t': Tree, gone: set<TxId>, id: TxId) {
    && (id in t'.index <==> id in t.index && id !in gone)
    && (id in t'.index ==> IdOk(t, id) && IdOk(t', id) && t'.infos[t'.index[id]] == t.infos[t.index[id]])
  }

  /** Exactly the given transactions are gone, and the others have their weights. */
  ghost predicate Without(t: Tree, t': Tree, gone: set<TxId>) {
    forall id {:trigger Remains(t, t', gone, id)} :: Remains(t, t', gone, id)
  }

  lemma WithoutNone(t: Tree)
    requires Valid(t)
    ensures Without(t, t, {})
  {
    forall id ensures Remains(t, t, {}, id) { assert IdOk(t, id); }
  }

  lemma WithoutNext(t: Tree, t': Tree, gone: set<TxId>, id: TxId)
    requires Without(t, t', gone) && Valid(t') && IdOk(t', id)
    ensures Without(t, Remove(t', id), gone + {id})
    ensures Sum(Evictions(Remove(t', id).infos)) <= Sum(Evictions(t'.infos)) - if id in t'.index then 1 else 0
  {
    forall other ensures Remains(t, Remove(t', id), gone + {id}, other) {
      assert Remains(t, t', gone, other);
      if other != id {
        RemoveOthers(t', id, other);
      } else {
        RemoveOthers(t', id, id + 1);
      }
    }
    if id in t'.index {
      RemoveTotal(t', id);
      assert Evictions(t'.infos)[t'.index[id]] > 0;
    }
  }

  /** Draws that fit still fit when anything was removed. */
  lemma DrawsStillFit(vs: seq<int>, vs': seq<int>)
    requires DrawsFit(vs) && Positive(vs') && Sum(vs') < Sum(vs)
    ensures DrawsFit(vs')
  {
    TotalFits(vs');
  }
}
