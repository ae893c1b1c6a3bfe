/**
 Folding a step over a list of values, in general: what follows for the whole list when the step
 is linear and takes only zero to zero. Step and sum are parameters.
 */
module Folds {

  function Fold<W>(step: (W, W) -> W, c: W, vs: seq<W>): W
    decreases |vs|
  {
    if vs == [] then c else Fold(step, step(c, vs[0]), vs[1..])
  }

  lemma {:induction false} FoldConcat<W>(step: (W, W) -> W, c: W, xs: seq<W>, ys: seq<W>)
    ensures Fold(step, c, xs + ys) == Fold(step, Fold(step, c, xs), ys)
    decreases |xs|
  {
    if xs == [] {
      assert xs + ys == ys;
    } else {
      FoldConcat(step, step(c, xs[0]), xs[1..], ys);
      assert (xs + ys)[1..] == xs[1..] + ys;
    }
  }

  lemma FoldLast<W>(step: (W, W) -> W, c: W, vs: seq<W>, v: W)
    ensures Fold(step, c, vs + [v]) == step(Fold(step, c, vs), v)
  {
    FoldConcat(step, c, vs, [v]);
    assert [v][1..] == [];
  }

  function Sums<W>(xor: (W, W) -> W, xs: seq<W>, ys: seq<W>): (r: seq<W>)
    requires |xs| == |ys|
    ensures |r| == |xs|
  {
    seq(|xs|, i requires 0 <= i < |xs| => xor(xs[i], ys[i]))
  }

  ghost predicate LinearAt<W>(step: (W, W) -> W, xor: (W, W) -> W, a: W, b: W, x: W, y: W) {
    step(xor(a, b), xor(x, y)) == xor(step(a, x), step(b, y))
  }

  ghost predicate Linear<W(!new)>(step: (W, W) -> W, xor: (W, W) -> W) {
    forall a, b, x, y {:trigger LinearAt(step, xor, a, b, x, y)} :: LinearAt(step, xor, a, b, x, y)
  }

  /** The fold of sums is the sum of the folds. */
  lemma {:induction false} FoldLinear<W(!new)>(step: (W, W) -> W, xor: (W, W) -> W, a: W, b: W, xs: seq<W>, ys: seq<W>)
    requires |xs| == |ys| && Linear(step, xor)
    ensures Fold(step, xor(a, b), Sums(xor, xs, ys)) == xor(Fold(step, a, xs), Fold(step, b, ys))
    decreases |xs|
  {
    if xs != [] {
      assert LinearAt(step, xor, a, b, xs[0], ys[0]);
      FoldLinear(step, xor, step(a, xs[0]), step(b, ys[0]), xs[1..], ys[1..]);
      assert Sums(xor, xs, ys)[1..] == Sums(xor, xs[1..], ys[1..]);
    }
  }

  function Repeat<W>(w: W, n: nat): (r: seq<W>)
    ensures |r| == n
  {
    seq(n, i => w)
  }

  ghost predicate InjectiveAt<W>(step: (W, W) -> W, zero: W, c: W) {
    step(c, zero) == zero <==> c == zero
  }

  ghost predicate Injective<W(!new)>(step: (W, W) -> W, zero: W) {
    forall c {:trigger InjectiveAt(step, zero, c)} :: InjectiveAt(step, zero, c)
  }

  /** Zeros lead only from zero to zero, however many. */
  lemma {:induction false} FoldZeros<W(!new)>(step: (W, W) -> W, zero: W, c: W, n: nat)
    requires Injective(step, zero)
    ensures Fold(step, c, Repeat(zero, n)) == zero <==> c == zero
    decreases n
  {
    if n > 0 {
      assert Repeat(zero, n)[1..] == Repeat(zero, n - 1);
      FoldZeros(step, zero, step(c, zero), n - 1);
      assert InjectiveAt(step, zero, c);
    }
  }

  /** Zeros around a window do not hide it. */
  lemma WindowShows<W(!new)>(step: (W, W) -> W, zero: W, w: seq<W>, before: nat, after: nat)
    requires Injective(step, zero) && Fold(step, zero, w) != zero
    ensures Fold(step, zero, Repeat(zero, before) + (w + Repeat(zero, after))) != zero
  {
    FoldConcat(step, zero, Repeat(zero, before), w + Repeat(zero, after));
    FoldZeros(step, zero, zero, before);
    FoldConcat(step, zero, w, Repeat(zero, after));
    FoldZeros(step, zero, Fold(step, zero, w), after);
  }
}
