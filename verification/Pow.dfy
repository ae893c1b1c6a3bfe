/**
 Targets and proof of work: the work of a block, the check of a claimed target, and the
 difficulty adjustment (sections 7.7.3 and 7.7.5 of the Zcash Protocol Specification), carried
 out on 256-bit integers and proved on numbers.
 */
module Pow {
  import opened Powers
  import opened Limbs
  import opened ArithUint256
  import opened Compact

  // ----- Work -----

  /** A code that stands for a usable target. */
  predicate ValidTarget(nBits: Code) {
    var d := Decode(nBits);
    !d.negative && !d.overflow && d.value != 0
  }

  /** 2^256 divided by target + 1, rounded down. */
  function Work(nBits: Code): nat {
    if ValidTarget(nBits) then RANGE / (Decode(nBits).value + 1) else 0
  }

  method GetBlockProof(nBits: Code) returns (r: ArithUint256)
    ensures r.Valid() && r.Val() == Work(nBits)
  {
    var bnTarget := new ArithUint256(0);
    var fNegative, fOverflow := SetCompact(bnTarget, nBits);
    var zero := new ArithUint256(0);
    var c := bnTarget.CompareTo(zero);
    if fNegative || fOverflow || c == 0 {
      r := new ArithUint256(0);
      return;
    }
    TargetBelow(nBits);
    r := WorkOf(bnTarget);
  }

  /** The work is computed within 256 bits, from the complement of the target. */
  method WorkOf(bnTarget: ArithUint256) returns (r: ArithUint256)
    requires bnTarget.Valid() && 0 < bnTarget.Val() < RANGE - 1
    ensures r.Valid() && r.Val() == RANGE / (bnTarget.Val() + 1)
  {
    WorkFits(bnTarget.Val());
    r := bnTarget.Not();
    var one := new ArithUint256(1);
    var next := new ArithUint256.Copy(bnTarget);
    next.AddAssign(one);
    var ok := r.DivAssign(next);
    r.AddAssign(one);
  }

  /** A decoded target is never the largest number, so adding one to it does not wrap. */
  lemma TargetBelow(c: Code)
    requires !Decode(c).overflow
    ensures Decode(c).value + 1 < RANGE
  {
    OverflowExact(c);
    var n := UpShift(c);
    if n == 0 {
      ExactSmall(c);
    } else {
      assert n >= 8;
      WholeBytes(WordOf(c), n);
    }
  }

  lemma WholeBytes(word: nat, n: nat)
    requires n >= 8
    ensures (word * Pow2(n)) % 256 == 0
  {
    Pow2Add(8, n - 8);
    Pow2Of23();
    MulAssoc(word, 256, Pow2(n - 8));
    Multiple(word * Pow2(n - 8), word * Pow2(n));
  }

  lemma Multiple(x: int, y: int)
    requires y == 256 * x
    ensures y % 256 == 0
  {
  }

  /** The complement divided by t + 1, plus one, is 2^256 divided by t + 1. */
  lemma WorkFits(t: int)
    requires 0 < t < RANGE - 1
    ensures (t + 1) % RANGE == t + 1
    ensures ((RANGE - 1 - t) / (t + 1) + 1) % RANGE == RANGE / (t + 1)
  {
    var d, q, m := t + 1, (RANGE - 1 - t) / (t + 1), (RANGE - 1 - t) % (t + 1);
    assert RANGE - d == q * d + m;
    assert (q + 1) * d == q * d + d;
    DivUnique(RANGE, d, q + 1, m);
    QuotientBelow(q, d, m);
  }

  lemma QuotientBelow(q: int, d: int, m: int)
    requires d >= 2 && 0 <= m < d && RANGE - d == q * d + m && d < RANGE
    ensures 0 <= q && (q + 1) % RANGE == q + 1
  {
    if q < 0 { MulLe(q, -1, d); }
    MulLe(2, d, if q < 0 then 0 else q);
    ArithUint256.Small(q + 1);
  }

  /** The hash meets the claimed target, and the target is one that may be claimed. */
  method CheckProofOfWork(hash: ArithUint256, nBits: Code, powLimit: ArithUint256) returns (r: bool)
    requires hash.Valid() && powLimit.Valid()
    ensures r <==> ValidTarget(nBits) && hash.Val() <= Exact(nBits) <= powLimit.Val()
  {
    OverflowExact(nBits);
    var bnTarget := new ArithUint256(0);
    var fNegative, fOverflow := SetCompact(bnTarget, nBits);
    var zero := new ArithUint256(0);
    var isZero := bnTarget.CompareTo(zero);
    var overLimit := bnTarget.CompareTo(powLimit);
    if fNegative || isZero == 0 || fOverflow || overLimit > 0 {
      return false;
    }
    var over := hash.CompareTo(bnTarget);
    if over > 0 {
      return false;
    }
    return true;
  }

  // ----- Retargeting -----

  /** The limits that apply at a height; the source's integer division truncates toward zero. */
  datatype Params = Params(powLimit: nat, window: nat, timespan: nat, minTimespan: nat, maxTimespan: nat)

  predicate Sane(p: Params) {
    && 0 < p.window && 0 < p.timespan < BASE && p.minTimespan <= p.maxTimespan < BASE
    && p.powLimit < RANGE && p.window < BASE
  }

  function TruncDiv(a: int, b: int): int
    requires b > 0
  {
    if a >= 0 then a / b else -((-a) / b)
  }

  function Damped(p: Params, actual: int): int {
    p.timespan + TruncDiv(actual - p.timespan, 4)
  }

  function Clamped(p: Params, span: int): int {
    var atLeast := if span < p.minTimespan then p.minTimespan else span;
    if atLeast > p.maxTimespan then p.maxTimespan else atLeast
  }

  /** A damped timespan: the deviation from the expected one is quartered, and the rest is dropped. */
  predicate Quartered(p: Params, actual: int, damped: int) {
    var deviation, step := actual - p.timespan, damped - p.timespan;
    if deviation >= 0 then 4 * step <= deviation < 4 * step + 4 else 4 * step - 4 < deviation <= 4 * step
  }

  /** The value within the bounds that is nearest to another. */
  predicate Nearest(p: Params, span: int, r: int) {
    && p.minTimespan <= r <= p.maxTimespan
    && (r < span ==> r == p.maxTimespan) && (r > span ==> r == p.minTimespan)
  }

  /** Exactly one timespan is a quarter step from the expected one, and exactly one is nearest within the bounds. */
  lemma SpanBounds(p: Params, actual: int, damped: int, span: int)
    requires p.minTimespan <= p.maxTimespan
    ensures Quartered(p, actual, damped) <==> damped == Damped(p, actual)
    ensures Nearest(p, damped, span) <==> span == Clamped(p, damped)
    ensures -4 < (actual - p.timespan) - 4 * (Damped(p, actual) - p.timespan) < 4
  {
  }

  /** A longer actual timespan never gives a shorter one. */
  lemma SpanMonotone(p: Params, a: int, b: int)
    requires p.minTimespan <= p.maxTimespan && a <= b
    ensures Clamped(p, Damped(p, a)) <= Clamped(p, Damped(p, b))
  {
    SpanBounds(p, a, Damped(p, a), Clamped(p, Damped(p, a)));
    SpanBounds(p, b, Damped(p, b), Clamped(p, Damped(p, b)));
  }

  /** The new target as it is computed, with 32-bit and 256-bit wrap-around. */
  function NextTarget(p: Params, avg: nat, actual: int): nat
    requires Sane(p)
  {
    var raw := ((avg / p.timespan) * (Clamped(p, Damped(p, actual)) % BASE)) % RANGE;
    if raw > p.powLimit then p.powLimit else raw
  }

  method LimitTimespan(p: Params, actual: int) returns (nActualTimespan: int)
    ensures nActualTimespan == Clamped(p, Damped(p, actual))
    ensures p.minTimespan <= p.maxTimespan ==> exists damped {:trigger Quartered(p, actual, damped)} ::
      Quartered(p, actual, damped) && Nearest(p, damped, nActualTimespan)
  {
    nActualTimespan := p.timespan + TruncDiv(actual - p.timespan, 4);
    if nActualTimespan < p.minTimespan {
      nActualTimespan := p.minTimespan;
    }
    if nActualTimespan > p.maxTimespan {
      nActualTimespan := p.maxTimespan;
    }
    if p.minTimespan <= p.maxTimespan { SpanBounds(p, actual, Damped(p, actual), nActualTimespan); }
  }

  method CalculateNextWorkRequired(bnAvg: ArithUint256, bnPowLimit: ArithUint256, p: Params,
                                   nLastBlockTime: int, nFirstBlockTime: int) returns (nBits: int)
    requires bnAvg.Valid() && bnPowLimit.Valid() && Sane(p) && bnPowLimit.Val() == p.powLimit
    ensures nBits == Encode(NextTarget(p, bnAvg.Val(), nLastBlockTime - nFirstBlockTime))
  {
    var nActualTimespan := LimitTimespan(p, nLastBlockTime - nFirstBlockTime);
    var bnNew := new ArithUint256.Copy(bnAvg);
    var span := new ArithUint256(p.timespan);
    var ok := bnNew.DivAssign(span);
    bnNew.MulUint32(nActualTimespan % BASE);
    ghost var raw := (bnAvg.Val() / p.timespan * (nActualTimespan % BASE)) % RANGE;
    assert bnNew.Val() == raw;
    var c := bnNew.CompareTo(bnPowLimit);
    if c > 0 {
      bnNew.Assign(bnPowLimit);
    }
    assert bnNew.Val() == if raw > p.powLimit then p.powLimit else raw;
    nBits := GetCompact(bnNew, false);
  }

  /** Rounding the mean down before the division by the timespan changes nothing. */
  lemma DoubleFloor(total: nat, window: nat, timespan: nat)
    requires window > 0 && timespan > 0
    ensures window * timespan > 0 && (total / window) / timespan == total / (window * timespan)
  {
    var y, x0 := total / window, total % window;
    var r, y0 := y / timespan, y % timespan;
    var d := window * timespan;
    MulLe(1, timespan, window);
    MulLe(y0, timespan - 1, window);
    MulLe(0, y0, window);
    assert window * (timespan - 1) == d - window by { DistributeAdd(window, timespan, -1); }
    assert window * y == r * d + window * y0 by {
      DistributeAdd(window, timespan * r, y0);
      MulAssoc(window, timespan, r);
    }
    DivUnique(total, d, r, window * y0 + x0);
  }

  /** The condition on the network parameters under which sums and products of targets do not wrap. */
  predicate Roomy(p: Params) {
    Sane(p) && p.window * p.powLimit < RANGE && p.maxTimespan <= p.window * p.timespan
  }

  /** total / (window * timespan), rounded down once or twice. */
  function MeanPerSecond(p: Params, total: nat): (r: nat)
    requires Sane(p)
    ensures p.window * p.timespan > 0 && r == total / (p.window * p.timespan)
  {
    DoubleFloor(total, p.window, p.timespan);
    (total / p.window) / p.timespan
  }

  /**
   With room for the sum and targets within powLimit, nothing wraps: the new target is the mean
   per second times the clamped timespan, capped at powLimit, and before the cap it lies between
   the bounds that the shortest and the longest timespan give.
   */
  lemma RetargetExact(p: Params, total: nat, actual: int, mean: nat, damped: int, span: int)
    requires Roomy(p) && total <= p.window * p.powLimit
    requires mean == MeanPerSecond(p, total) && Quartered(p, actual, damped) && Nearest(p, damped, span)
    ensures NextTarget(p, total / p.window, actual) == if mean * span > p.powLimit then p.powLimit else mean * span
    ensures mean * p.minTimespan <= mean * span <= mean * p.maxTimespan
  {
    var avg := total / p.window;
    SpanBounds(p, actual, damped, span);
    DivBound(total, p.window);
    DivBound(avg, p.timespan);
    QuotientsFit(total, avg, mean, p.window, p.timespan);
    ScaledFits(mean, span, p.minTimespan, p.maxTimespan, p.window * p.timespan, p.window * p.powLimit);
  }

  lemma QuotientsFit(total: int, avg: int, q: int, window: int, timespan: int)
    requires window > 0 && timespan > 0 && total >= 0 && avg * window <= total && q * timespan <= avg
    ensures q * (window * timespan) <= total
  {
    MulLe(q * timespan, avg, window);
    MulAssoc(q, timespan, window);
  }

  lemma ScaledFits(q: nat, span: nat, lo: nat, hi: nat, whole: nat, limit: nat)
    requires lo <= span <= hi <= whole && hi < BASE && q * whole <= limit < RANGE
    ensures (q * (span % BASE)) % RANGE == q * span
    ensures q * lo <= q * span <= q * hi
  {
    MulLe(lo, span, q);
    MulLe(span, hi, q);
    MulLe(hi, whole, q);
    MulLe(0, span, q);
    ArithUint256.Small(q * span);
  }

  /** Whatever comes out, it decodes without a flag to a target within the limit. */
  lemma TargetWithinLimit(p: Params, avg: nat, actual: int)
    requires Sane(p)
    ensures 0 <= Encode(NextTarget(p, avg, actual)) < BASE
    ensures var d := Decode(Encode(NextTarget(p, avg, actual)));
      !d.negative && !d.overflow && d.value <= p.powLimit
    ensures Encode(NextTarget(p, avg, actual)) <= Encode(p.powLimit)
  {
    var x := NextTarget(p, avg, actual);
    DecodeEncode(x);
    RoundsDown(x);
    EncodeMonotone(x, p.powLimit);
  }

  // ----- The required work of the next block -----

  /** What the adjustment reads of a block: its target, its time and the median of the times before it. */
  datatype Block = Block(nBits: Code, nTime: int, medianTimePast: int)

  /** Rules that differ between networks. The special rule admits easy blocks that come late. */
  datatype Network = Network(params: Params, noRetargeting: bool, easyAfterHeight: int, spacing: int)

  /** The sum of the last n targets of a chain. */
  function TotalTarget(chain: seq<Block>, n: nat): nat
    requires n <= |chain|
  {
    if n == 0 then 0 else TotalTarget(chain, n - 1) + Decode(chain[|chain| - n].nBits).value
  }

  /** Whether the next block, if its time is known, may be an easy one. */
  predicate EasyBlock(net: Network, chain: seq<Block>, nextTime: seq<int>)
    requires chain != []
  {
    && 0 <= net.easyAfterHeight <= |chain| - 1 && nextTime != []
    && nextTime[0] > chain[|chain| - 1].nTime + net.spacing * 6
  }

  /** The compact target the block after the chain must meet; the chain is listed from genesis on. */
  function NextWork(net: Network, chain: seq<Block>, nextTime: seq<int>): int
    requires Sane(net.params)
  {
    var p := net.params;
    if chain == [] then Encode(p.powLimit)
    else if net.noRetargeting then chain[|chain| - 1].nBits
    else if EasyBlock(net, chain, nextTime) || |chain| <= p.window then Encode(p.powLimit)
    else
      var first := chain[|chain| - 1 - p.window];
      Encode(NextTarget(p, (TotalTarget(chain, p.window) % RANGE) / p.window,
                        chain[|chain| - 1].medianTimePast - first.medianTimePast))
  }

  method GetNextWorkRequired(net: Network, bnPowLimit: ArithUint256, chain: seq<Block>, nextTime: seq<int>)
    returns (nBits: int)
    requires Sane(net.params) && bnPowLimit.Valid() && bnPowLimit.Val() == net.params.powLimit
    ensures nBits == NextWork(net, chain, nextTime)
  {
    var p := net.params;
    var nProofOfWorkLimit := GetCompact(bnPowLimit, false);
    if |chain| == 0 {
      return nProofOfWorkLimit;
    }
    var last := chain[|chain| - 1];
    if net.noRetargeting {
      return last.nBits;
    }
    if net.easyAfterHeight >= 0 && |chain| - 1 >= net.easyAfterHeight {
      if |nextTime| > 0 && nextTime[0] > last.nTime + net.spacing * 6 {
        return nProofOfWorkLimit;
      }
    }
    var bnTot, i := SumTargets(chain, p.window);
    if i == |chain| {
      return nProofOfWorkLimit;
    }
    var window := new ArithUint256(p.window);
    var ok := bnTot.DivAssign(window);
    assert i == p.window && bnTot.Val() == (TotalTarget(chain, p.window) % RANGE) / p.window;
    nBits := CalculateNextWorkRequired(bnTot, bnPowLimit, p, last.medianTimePast,
      chain[|chain| - 1 - i].medianTimePast);
  }

  /** Walks back from the last block and adds up targets, for a window or until the chain ends. */
  method SumTargets(chain: seq<Block>, window: nat) returns (bnTot: ArithUint256, i: nat)
    ensures i == (if window < |chain| then window else |chain|)
    ensures bnTot.Valid() && fresh(bnTot) && fresh(bnTot.pn) && bnTot.Val() == TotalTarget(chain, i) % RANGE
  {
    bnTot := new ArithUint256(0);
    i := 0;
    while i < |chain| && i < window
      invariant i <= |chain| && i <= window
      invariant bnTot.Valid() && fresh(bnTot) && fresh(bnTot.pn) && bnTot.Val() == TotalTarget(chain, i) % RANGE
    {
      var bnTmp := new ArithUint256(0);
      var fNegative, fOverflow := SetCompact(bnTmp, chain[|chain| - 1 - i].nBits);
      bnTot.AddAssign(bnTmp);
      AddMod(TotalTarget(chain, i), Decode(chain[|chain| - 1 - i].nBits).value);
      i := i + 1;
    }
  }

  lemma AddMod(x: nat, y: nat)
    ensures (x % RANGE + y) % RANGE == (x + y) % RANGE
  {
  }

  /** Targets within the limit add up to at most the window times the limit. */
  lemma {:induction false} TotalWithin(chain: seq<Block>, n: nat, limit: nat)
    requires n <= |chain| && forall i :: 0 <= i < |chain| ==> Decode(chain[i].nBits).value <= limit
    ensures TotalTarget(chain, n) <= Times(limit, n)
  {
    if n > 0 { TotalWithin(chain, n - 1, limit); }
  }

  lemma TotalSmall(p: Params, chain: seq<Block>)
    requires Roomy(p) && p.window <= |chain|
    requires forall i :: 0 <= i < |chain| ==> Decode(chain[i].nBits).value <= p.powLimit
    ensures TotalTarget(chain, p.window) <= p.window * p.powLimit
    ensures TotalTarget(chain, p.window) % RANGE == TotalTarget(chain, p.window)
  {
    TotalWithin(chain, p.window, p.powLimit);
    TimesIs(p.powLimit, p.window);
    ArithUint256.Small(TotalTarget(chain, p.window));
  }

  /** The sum of the targets of some blocks. */
  function Targets(blocks: seq<Block>): nat {
    if blocks == [] then 0 else Decode(blocks[0].nBits).value + Targets(blocks[1..])
  }

  /** The total is the sum over the last n blocks. */
  lemma {:induction false} TotalIsLast(chain: seq<Block>, n: nat)
    requires n <= |chain|
    ensures TotalTarget(chain, n) == Targets(chain[|chain| - n..])
  {
    if n > 0 {
      TotalIsLast(chain, n - 1);
      assert chain[|chain| - n..][1..] == chain[|chain| - (n - 1)..];
    }
  }

  /** The next block comes late: more than six times the spacing after the last one. */
  predicate ComesLate(net: Network, chain: seq<Block>, nextTime: seq<int>)
    requires chain != []
  {
    nextTime != [] && nextTime[0] - chain[|chain| - 1].nTime > 6 * net.spacing
  }

  /** When nothing is adjusted: first blocks, networks without retargeting, late blocks where they may be easy. */
  lemma NextWorkFixed(net: Network, chain: seq<Block>, nextTime: seq<int>)
    requires Sane(net.params)
    ensures |chain| <= net.params.window && (chain == [] || !net.noRetargeting) ==>
      NextWork(net, chain, nextTime) == Encode(net.params.powLimit)
    ensures chain != [] && net.noRetargeting ==> NextWork(net, chain, nextTime) == chain[|chain| - 1].nBits
    ensures !net.noRetargeting && 0 <= net.easyAfterHeight < |chain| && ComesLate(net, chain, nextTime) ==>
      NextWork(net, chain, nextTime) == Encode(net.params.powLimit)
  {
  }

  /**
   On a chain whose targets are within the limit, the required target is the mean target of the
   window, scaled by the damped and clamped timespan in one rounding, and capped at the limit.
   */
  lemma NextWorkExact(net: Network, chain: seq<Block>, nextTime: seq<int>, mean: nat, damped: int, span: int)
    requires Roomy(net.params) && net.params.window < |chain| && !net.noRetargeting
    requires 0 <= net.easyAfterHeight < |chain| ==> !ComesLate(net, chain, nextTime)
    requires forall i :: 0 <= i < |chain| ==> Decode(chain[i].nBits).value <= net.params.powLimit
    requires var p := net.params;
      && mean == MeanPerSecond(p, Targets(chain[|chain| - p.window..]))
      && Quartered(p, chain[|chain| - 1].medianTimePast - chain[|chain| - 1 - p.window].medianTimePast, damped)
      && Nearest(p, damped, span)
    ensures mean * span >= 0
    ensures NextWork(net, chain, nextTime) ==
      Encode(if mean * span > net.params.powLimit then net.params.powLimit else mean * span)
  {
    var p := net.params;
    var total := TotalTarget(chain, p.window);
    TotalIsLast(chain, p.window);
    TotalSmall(p, chain);
    RetargetExact(p, total, chain[|chain| - 1].medianTimePast - chain[|chain| - 1 - p.window].medianTimePast, mean,
      damped, span);
    MulLe(0, span, mean);
  }
}
