/**
 Shifts over limbs. A shift by 32k + s moves whole limbs by k and pieces of limbs by s; the
 pieces that meet in a limb are joined by a bitwise or, which is a sum because they do not overlap.
 */
module LimbShifts {
  import opened Powers
  import opened Limbs

  // ----- Bitwise or -----

  function Or(x: nat, y: nat): nat
    decreases x + y
  {
    if x == 0 && y == 0 then 0
    else 2 * Or(x / 2, y / 2) + if x % 2 == 1 || y % 2 == 1 then 1 else 0
  }

  lemma {:induction false} OrZero(x: nat)
    ensures Or(x, 0) == x && Or(0, x) == x
  {
    if x > 0 { OrZero(x / 2); }
  }

  /** Bits that do not overlap: or is addition. */
  lemma {:induction false} OrDisjoint(m: nat, y: nat, s: nat)
    requires y < Pow2(s)
    ensures Doubled(m, s) >= 0
    ensures Or(Doubled(m, s), y) == Doubled(m, s) + y && Or(y, Doubled(m, s)) == Doubled(m, s) + y
  {
    if s == 0 {
      OrZero(m);
    } else {
      OrDisjoint(m, y / 2, s - 1);
    }
  }

  // ----- Pieces of a limb -----

  /** The 32-bit left shift of a limb. */
  function Lo(x: Limb, s: nat): Limb {
    Doubled(x, s) % BASE
  }

  /** What the left shift pushes out. */
  function Hi(x: Limb, s: nat): nat
    requires s <= 32
  {
    Halved(x, 32 - s)
  }

  /** What the right shift pushes out. */
  function Rest(x: Limb, s: nat): int {
    x - Doubled(Halved(x, s), s)
  }

  lemma Doubled32(x: int, s: nat)
    requires s <= 32
    ensures Doubled(Doubled(x, s), 32 - s) == BASE * x
  {
    DoubledTwice(x, s, 32 - s);
    DoubledIs(x, 32);
    Pow2Of32();
  }

  /** A shifted limb splits into what stays, a multiple of 2^s, and what goes out, which is below 2^s. */
  lemma SplitLimb(x: Limb, s: nat)
    requires s <= 32
    ensures Doubled(x, s) == BASE * Hi(x, s) + Lo(x, s)
    ensures Hi(x, s) < Pow2(s)
    ensures 0 <= Rest(x, 32 - s) && Lo(x, s) == Doubled(Rest(x, 32 - s), s) && Lo(x, s) <= BASE - Pow2(s)
  {
    var t, h := 32 - s, Hi(x, s);
    HalvedBounds(x, t);
    var r := x - Doubled(h, t);
    DoubledAdd(Doubled(h, t), r, s);
    Doubled32(h, t);
    RestShifted(r, s);
    HighSmall(h, s, x);
    BaseSplit(Doubled(x, s), h, Doubled(r, s));
  }

  lemma BaseSplit(x: int, h: int, l: int)
    requires x == BASE * h + l && 0 <= l < BASE
    ensures x % BASE == l && x / BASE == h
  {
  }

  lemma RestShifted(r: int, s: nat)
    requires s <= 32 && 0 <= r < Pow2(32 - s)
    ensures 0 <= Doubled(r, s) <= BASE - Pow2(s)
  {
    DoubledLess(-1, r, s);
    DoubledAdd(0, -1, s);
    DoubledAdd(1, -1, s);
    DoubledOne(s);
    DoubledOne(32 - s);
    Doubled32(1, 32 - s);
    DoubledLess(r, Pow2(32 - s), s);
    DoubledAdd(r, 1, s);
    DoubledLess(Pow2(32 - s), r + 1, s);
  }

  lemma HighSmall(h: nat, s: nat, x: Limb)
    requires s <= 32 && Doubled(h, 32 - s) <= x
    ensures h < Pow2(s)
  {
    DoubledOne(s);
    Doubled32(1, s);
    DoubledLess(h, Pow2(s), 32 - s);
  }

  // ----- Left -----

  /** A left shift by less than a limb, with what comes in from below. */
  function Shl(a: seq<Limb>, s: nat, carry: int): (r: seq<Limb>)
    requires s < 32 && 0 <= carry < Pow2(s)
    ensures |r| == |a|
  {
    if a == [] then []
    else SplitLimb(a[0], s); [Lo(a[0], s) + carry] + Shl(a[1..], s, Hi(a[0], s))
  }

  lemma {:induction false} ShlValue(a: seq<Limb>, s: nat, carry: int) returns (q: int)
    requires s < 32 && 0 <= carry < Pow2(s)
    ensures Doubled(Value(a), s) + carry == Value(Shl(a, s, carry)) + Up(q, |a|)
  {
    if a == [] {
      q := carry;
      DoubledIs(0, s);
    } else {
      SplitLimb(a[0], s);
      q := ShlValue(a[1..], s, Hi(a[0], s));
      DoubledAdd(a[0], BASE * Value(a[1..]), s);
      DoubledBase(Value(a[1..]), s);
      ConsValue(Lo(a[0], s) + carry, Shl(a[1..], s, Hi(a[0], s)));
    }
  }

  lemma {:induction false} DoubledBase(x: int, s: nat)
    ensures Doubled(BASE * x, s) == BASE * Doubled(x, s)
  {
    if s > 0 { DoubledBase(x, s - 1); }
  }

  lemma ConsValue(x: Limb, s: seq<Limb>)
    ensures Value([x] + s) == x + BASE * Value(s)
  {
    assert ([x] + s)[1..] == s;
  }

  /** Limb m of a shifted number. */
  lemma {:induction false} ShlAt(a: seq<Limb>, s: nat, carry: int, m: nat)
    requires s < 32 && 0 <= carry < Pow2(s) && m < |a|
    ensures Shl(a, s, carry)[m] == Lo(a[m], s) + if m == 0 then carry else Hi(a[m - 1], s)
  {
    SplitLimb(a[0], s);
    if m > 0 { ShlAt(a[1..], s, Hi(a[0], s), m - 1); }
  }

  function ShiftLeft(a: seq<Limb>, k: nat, s: nat): (r: seq<Limb>)
    requires s < 32
    ensures |r| == |a|
  {
    if k <= |a| then Zeros(k) + Shl(a[..|a| - k], s, 0) else Zeros(|a|)
  }

  lemma {:induction false} UpDoubled(x: int, k: nat)
    ensures Up(x, k) == Doubled(x, 32 * k)
  {
    if k > 0 {
      UpDoubled(x, k - 1);
      DoubledTwice(x, 32 * (k - 1), 32);
      Doubled32(Doubled(x, 32 * (k - 1)), 32);
    }
  }

  lemma ShiftAmount(x: int, k: nat, s: nat)
    ensures x * Pow2(32 * k + s) == Up(Doubled(x, s), k)
  {
    UpDoubled(Doubled(x, s), k);
    DoubledTwice(x, s, 32 * k);
    DoubledIs(x, 32 * k + s);
  }

  /** Shifting left multiplies by a power of two, modulo the range. */
  lemma ShiftLeftValue(a: seq<Limb>, k: nat, s: nat)
    requires s < 32
    ensures Value(ShiftLeft(a, k, s)) == (Value(a) * Pow2(32 * k + s)) % Pow2(32 * |a|)
  {
    var n, x := |a|, Doubled(Value(a), s);
    ShiftAmount(Value(a), k, s);
    var q: int;
    if k <= n {
      q := ShiftLeftWithin(a, k, s);
    } else {
      q := Up(x, k - n);
      UpUp(x, k - n, n);
      ZeroValue(Zeros(n));
    }
    ValueBound(ShiftLeft(a, k, s));
    UpPow2(n);
    ModIs(Value(ShiftLeft(a, k, s)), q, Up(x, k), n);
  }

  lemma ShiftLeftWithin(a: seq<Limb>, k: nat, s: nat) returns (q: int)
    requires s < 32 && k <= |a|
    ensures Up(Doubled(Value(a), s), k) == Value(ShiftLeft(a, k, s)) + Up(q, |a|)
  {
    var n := |a|;
    var low, high := a[..n - k], a[n - k..];
    assert low + high == a;
    ValueConcat(low, high);
    var q0 := ShlValue(low, s, 0);
    var shl := Value(Shl(low, s, 0));
    q := q0 + Doubled(Value(high), s);
    DoubledAdd(Value(low), Up(Value(high), n - k), s);
    UpMoves(Value(high), n - k, s);
    UpAdd(q0, Doubled(Value(high), s), n - k);
    UpAdd(shl, Up(q, n - k), k);
    UpUp(q, n - k, k);
    ValueConcat(Zeros(k), Shl(low, s, 0));
    ZeroValue(Zeros(k));
  }

  lemma {:induction false} UpMoves(x: int, n: nat, s: nat)
    ensures Doubled(Up(x, n), s) == Up(Doubled(x, s), n)
  {
    if n > 0 {
      UpMoves(x, n - 1, s);
      DoubledBase(Up(x, n - 1), s);
    }
  }

  // ----- Right -----

  /** The right shift of a limb. */
  function Down(x: Limb, s: nat): Limb {
    HalvedBounds(x, s);
    Halved(x, s)
  }

  /** A right shift by less than a limb. */
  function Shr(a: seq<Limb>, s: nat): (r: seq<Limb>)
    requires s < 32
    ensures |r| == |a|
  {
    if a == [] then []
    else if |a| == 1 then [Down(a[0], s)]
    else JoinDown(a[0], a[1], s); [Down(a[0], s) + Lo(a[1], 32 - s)] + Shr(a[1..], s)
  }

  /** What comes down from the limb above meets what is left of the limb. */
  lemma JoinDown(x: Limb, above: Limb, s: nat)
    requires s < 32
    ensures Down(x, s) < Pow2(32 - s) && Lo(above, 32 - s) == Doubled(Rest(above, s), 32 - s)
    ensures 0 <= Down(x, s) + Lo(above, 32 - s) < BASE
    ensures Doubled(Lo(above, 32 - s), s) == BASE * Rest(above, s)
  {
    SplitLimb(above, 32 - s);
    SplitLimb(x, 32 - s);
    Doubled32(Rest(above, s), 32 - s);
  }

  lemma {:induction false} ShrValue(a: seq<Limb>, s: nat)
    requires s < 32 && a != []
    ensures Value(a) == Doubled(Value(Shr(a, s)), s) + Rest(a[0], s)
  {
    if |a| == 1 {
      assert a[1..] == [];
      ConsValue(Down(a[0], s), []);
    } else {
      var lo, rest := Lo(a[1], 32 - s), Shr(a[1..], s);
      JoinDown(a[0], a[1], s);
      ShrValue(a[1..], s);
      ConsValue(Down(a[0], s) + lo, rest);
      DoubledAdd(Down(a[0], s) + lo, BASE * Value(rest), s);
      DoubledAdd(Down(a[0], s), lo, s);
      DoubledBase(Value(rest), s);
    }
  }

  lemma {:induction false} ShrAt(a: seq<Limb>, s: nat, m: nat)
    requires s < 32 && m < |a|
    ensures Shr(a, s)[m] == Down(a[m], s) + if m + 1 < |a| then Lo(a[m + 1], 32 - s) else 0
  {
    if |a| > 1 { JoinDown(a[0], a[1], s); }
    if m > 0 { ShrAt(a[1..], s, m - 1); }
  }

  function ShiftRight(a: seq<Limb>, k: nat, s: nat): (r: seq<Limb>)
    requires s < 32
    ensures |r| == |a|
  {
    if k <= |a| then Shr(a[k..], s) + Zeros(k) else Zeros(|a|)
  }

  /** Shifting right divides by a power of two. */
  lemma ShiftRightValue(a: seq<Limb>, k: nat, s: nat)
    requires s < 32
    ensures Value(ShiftRight(a, k, s)) == Value(a) / Pow2(32 * k + s)
  {
    var n, r := |a|, Value(ShiftRight(a, k, s));
    if k < n {
      ValueConcat(Shr(a[k..], s), Zeros(k));
      ZeroValue(Zeros(k));
      UpMul(0, n - k);
      ShiftRightWithin(a, k, s, r);
    } else {
      ZeroValue(ShiftRight(a, k, s));
      ValueBound(a);
      UpPow2(n);
      Pow2Mono(32 * n, 32 * k + s);
      DivUnique(Value(a), Pow2(32 * k + s), 0, Value(a));
    }
  }

  lemma ShiftRightWithin(a: seq<Limb>, k: nat, s: nat, r: int)
    requires s < 32 && k < |a| && r == Value(Shr(a[k..], s))
    ensures r == Value(a) / Pow2(32 * k + s)
  {
    var low, high, rest := a[..k], a[k..], Rest(a[k], s);
    assert low + high == a;
    ValueConcat(low, high);
    ShrValue(high, s);
    UpAdd(Doubled(r, s), rest, k);
    UpDoubled(Doubled(r, s), k);
    DoubledTwice(r, s, 32 * k);
    DoubledIs(r, 32 * k + s);
    LowPart(low, rest, k, s, a[k]);
    DivUnique(Value(a), Pow2(32 * k + s), r, Value(low) + Up(rest, k));
  }

  /** What a right shift drops is below the power it divides by. */
  lemma LowPart(low: seq<Limb>, rest: int, k: nat, s: nat, x: Limb)
    requires |low| == k && rest == Rest(x, s)
    ensures 0 <= Value(low) + Up(rest, k) < Pow2(32 * k + s)
  {
    HalvedBounds(x, s);
    ValueBound(low);
    UpMul(rest, k);
    UpMul(rest + 1, k);
    UpAdd(rest, 1, k);
    MulLe(0, rest, Up(1, k));
    UpDoubled(rest + 1, k);
    UpDoubled(Pow2(s), k);
    DoubledLess(Pow2(s), rest + 1, 32 * k);
    DoubledOne(s);
    DoubledTwice(1, s, 32 * k);
    DoubledOne(32 * k + s);
  }

  // ----- The highest bit -----

  /** The position of the highest set bit plus one, or zero. */
  function Bits(x: nat): nat {
    if x == 0 then 0 else 1 + Bits(x / 2)
  }

  lemma {:induction false} BitsBounds(x: nat)
    ensures x < Pow2(Bits(x))
    ensures x > 0 ==> Bits(x) > 0 && Pow2(Bits(x) - 1) <= x
  {
    if x > 0 { BitsBounds(x / 2); }
  }

  lemma {:induction false} BitsUnique(x: nat, n: nat)
    requires n > 0 && Pow2(n - 1) <= x < Pow2(n)
    ensures Bits(x) == n
    decreases n
  {
    if n > 1 { BitsUnique(x / 2, n - 1); }
  }

  lemma {:induction false} BitsMono(x: nat, y: nat)
    requires x <= y
    ensures Bits(x) <= Bits(y)
    decreases y
  {
    if x > 0 { BitsMono(x / 2, y / 2); }
  }

  /** The bits of a number are those of its highest limb that is not zero, and all below. */
  lemma TopLimb(a: seq<Limb>, m: nat)
    requires m < |a| && a[m] > 0 && forall i :: m < i < |a| ==> a[i] == 0
    ensures Bits(Value(a)) == 32 * m + Bits(a[m])
  {
    TopValue(a, m, a[m]);
    TopBits(Value(a), a[m], m, Bits(a[m]));
  }

  lemma TopBits(v: nat, x: int, m: nat, n: nat)
    requires x > 0 && n == Bits(x) && Up(x, m) <= v < Up(x + 1, m)
    ensures Bits(v) == 32 * m + n
  {
    BitsBounds(x);
    PowerUp(n - 1, x, m);
    PowerUp(n, x, m);
    BitsUnique(v, 32 * m + n);
  }

  lemma TopValue(a: seq<Limb>, m: nat, x: int)
    requires m < |a| && x == a[m] && forall i :: m < i < |a| ==> a[i] == 0
    ensures Up(x, m) <= Value(a) < Up(x + 1, m)
  {
    var low, high := a[..m], a[m..];
    assert a == low + high;
    ValueConcat(low, high);
    OneLimb(high);
    ValueBound(low);
    UpAdd(x, 1, m);
  }

  lemma PowerUp(n: nat, x: int, m: nat)
    ensures Pow2(n) <= x ==> Pow2(32 * m + n) <= Up(x, m)
    ensures x < Pow2(n) ==> Up(x + 1, m) <= Pow2(32 * m + n)
  {
    UpDoubled(x, m);
    UpDoubled(x + 1, m);
    DoubledOne(n);
    DoubledTwice(1, n, 32 * m);
    DoubledOne(32 * m + n);
    DoubledLess(x, Pow2(n), 32 * m);
    DoubledLess(Pow2(n), x + 1, 32 * m);
  }

  /** Nothing of a limb lies above its 32 bits. */
  lemma NothingAbove(x: Limb)
    ensures Halved(x, 32) == 0 && Lo(x, 32) == 0 && Hi(x, 0) == 0
  {
    HalvedBounds(x, 32);
    Pow2Of32();
    DoubledIs(Halved(x, 32), 32);
    DoubledIs(x, 32);
  }

  /** The two pieces that meet in a limb do not overlap. */
  lemma OrPieces(below: Limb, x: Limb, s: nat)
    requires s < 32
    ensures Or(Hi(below, s), Lo(x, s)) == Lo(x, s) + Hi(below, s) < BASE
  {
    SplitLimb(below, s);
    SplitLimb(x, s);
    OrDisjoint(Rest(x, 32 - s), Hi(below, s), s);
  }

  lemma OrPiecesDown(x: Limb, above: Limb, s: nat)
    requires s < 32
    ensures Or(Down(x, s), Lo(above, 32 - s)) == Down(x, s) + Lo(above, 32 - s) < BASE
  {
    JoinDown(x, above, s);
    SplitLimb(above, 32 - s);
    OrDisjoint(Rest(above, s), Down(x, s), 32 - s);
  }

  /** The lowest c bits are clear. */
  predicate Clear(x: Limb, c: nat) {
    Doubled(Halved(x, c), c) == x
  }

  lemma ClearLess(x: Limb, c: nat)
    requires Clear(x, c + 1)
    ensures Clear(x, c)
  {
    HalvedBounds(x, c);
    var h := Halved(x, c);
    DoubledTwice(h / 2, 1, c);
    assert Doubled(h / 2, 1) == 2 * (h / 2);
    DoubledLess(2 * (h / 2), h, c);
  }

  lemma ClearZero(c: nat)
    ensures Clear(0, c)
  {
    HalvedBounds(0, c);
    DoubledIs(0, c);
  }

  /** Setting a bit above which nothing is unknown: the lowest t + 1 bits were clear. */
  lemma SetBit(x: Limb, t: nat)
    requires t < 32 && Clear(x, t + 1)
    ensures Or(x, Pow2(t)) == x + Pow2(t) < BASE && Clear(x + Pow2(t), t)
  {
    var h := Halved(x, t + 1);
    Pow2Mono(t, t + 1);
    OrDisjoint(h, Pow2(t), t + 1);
    HighSmall(h, 31 - t, x);
    BelowTop(h, t + 1);
    ClearAfter(h, t);
  }

  lemma ClearAfter(h: nat, t: nat)
    requires 0 <= Doubled(h, t + 1) + Pow2(t) < BASE
    ensures Clear(Doubled(h, t + 1) + Pow2(t), t)
  {
    DoubledTwice(h, 1, t);
    assert Doubled(h, 1) == 2 * h;
    DoubledAdd(2 * h, 1, t);
    DoubledOne(t);
    HalvedOf(2 * h + 1, t);
  }

  lemma BelowTop(h: int, t: nat)
    requires t <= 32 && h < Pow2(32 - t)
    ensures Doubled(h, t) + Pow2(t) <= BASE
  {
    DoubledAdd(h, 1, t);
    DoubledOne(t);
    DoubledOne(32 - t);
    Doubled32(1, 32 - t);
    DoubledLess(Pow2(32 - t), h + 1, t);
  }

  lemma {:induction false} HalvedOf(h: nat, t: nat)
    ensures Doubled(h, t) >= 0 && Halved(Doubled(h, t), t) == h
  {
    DoubledLess(-1, h, t);
    DoubledIs(-1, t);
    DoubledIs(0, t);
    DoubledLess(h, 0, t);
    HalvedBounds(Doubled(h, t), t);
    var g := Halved(Doubled(h, t), t);
    DoubledLess(h, g, t);
    DoubledAdd(g, 1, t);
    DoubledOne(t);
    DoubledLess(h, g + 1, t);
  }

  /** The highest bit of a limb, found from above. */
  lemma TopBit(x: Limb, n: nat)
    requires Halved(x, n) % 2 == 1 && Halved(x, n + 1) == 0
    ensures Bits(x) == n + 1
  {
    HalvedBounds(x, n);
    HalvedBounds(x, n + 1);
    DoubledOne(n);
    DoubledIs(0, n + 1);
    BitsUnique(x, n + 1);
  }

  // ----- The shift loops -----

  /** Limb m of a number shifted left by 32k + s bits. */
  function LeftLimb(x: seq<Limb>, k: nat, s: nat, m: nat): int
    requires s < 32 && m < |x|
  {
    if m < k then 0 else Lo(x[m - k], s) + if m == k then 0 else Hi(x[m - k - 1], s)
  }

  /** Limb m after i limbs have been treated: the next limb holds what was pushed out of the last. */
  predicate LeftAt(p: seq<int>, x: seq<Limb>, k: nat, s: nat, i: nat, m: nat)
    requires s < 32 && i <= |x| == |p| && m < |x|
  {
    p[m] == if m < i + k then LeftLimb(x, k, s, m) else if m == i + k && i > 0 then Hi(x[i - 1], s) else 0
  }

  ghost predicate LeftSoFar(p: seq<int>, x: seq<Limb>, k: nat, s: nat, i: nat) {
    && s < 32 && i <= |x| == |p|
    && forall m: nat {:trigger LeftAt(p, x, k, s, i, m)} :: m < |x| ==> LeftAt(p, x, k, s, i, m)
  }

  /** One round of the loop. */
  function LeftPut(p: seq<Limb>, x: seq<Limb>, k: nat, s: nat, i: nat): (r: seq<int>)
    requires s < 32 && i < |x| == |p|
    ensures |r| == |p|
  {
    var all: seq<int> := p;
    var q := if i + k + 1 < |p| && s != 0 then all[i + k + 1 := Or(p[i + k + 1], Halved(x[i], 32 - s))] else all;
    if i + k < |p| then q[i + k := Or(p[i + k], Lo(x[i], s))] else q
  }

  lemma LeftStart(p: seq<Limb>, x: seq<Limb>, k: nat, s: nat)
    requires s < 32 && |p| == |x| && forall m :: 0 <= m < |p| ==> p[m] == 0
    ensures LeftSoFar(p, x, k, s, 0)
  {
    forall m: nat | m < |x| ensures LeftAt(p, x, k, s, 0, m) {
    }
  }

  lemma LeftFits(p: seq<Limb>, x: seq<Limb>, k: nat, s: nat, i: nat)
    requires i < |x| && LeftSoFar(p, x, k, s, i)
    ensures i + k + 1 < |x| ==> Or(p[i + k + 1], Halved(x[i], 32 - s)) == Hi(x[i], s) < BASE
    ensures i + k < |x| ==>
      Or(p[i + k], Lo(x[i], s)) == Lo(x[i], s) + (if i == 0 then 0 else Hi(x[i - 1], s)) < BASE
  {
    OrZero(Hi(x[i], s));
    OrZero(Lo(x[i], s));
    HalvedBounds(x[i], 32 - s);
    if i + k + 1 < |x| { assert LeftAt(p, x, k, s, i, i + k + 1); }
    if i + k < |x| { assert LeftAt(p, x, k, s, i, i + k); }
    if i > 0 { OrPieces(x[i - 1], x[i], s); }
  }

  lemma LeftMoves(p: seq<Limb>, x: seq<Limb>, k: nat, s: nat, i: nat)
    requires i < |x| && LeftSoFar(p, x, k, s, i)
    ensures LeftSoFar(LeftPut(p, x, k, s, i), x, k, s, i + 1)
  {
    LeftFits(p, x, k, s, i);
    NothingAbove(x[i]);
    var r, next := LeftPut(p, x, k, s, i), i + 1;
    forall m: nat | m < |x| ensures LeftAt(r, x, k, s, next, m) {
      assert LeftAt(p, x, k, s, i, m);
    }
  }

  lemma LeftDone(p: seq<Limb>, x: seq<Limb>, k: nat, s: nat)
    requires LeftSoFar(p, x, k, s, |x|)
    ensures p == ShiftLeft(x, k, s)
  {
    var n := |x|;
    forall m: nat | m < n ensures p[m] == ShiftLeft(x, k, s)[m] {
      assert LeftAt(p, x, k, s, n, m);
      if k <= m { ShlAt(x[..n - k], s, 0, m - k); }
    }
  }

  /** Limb m of a number shifted right by 32k + s bits. */
  function RightLimb(x: seq<Limb>, k: nat, s: nat, m: nat): int
    requires s < 32 && m + k < |x|
  {
    Down(x[m + k], s) + if m + k + 1 < |x| then Lo(x[m + k + 1], 32 - s) else 0
  }

  predicate RightAt(p: seq<int>, x: seq<Limb>, k: nat, s: nat, i: nat, m: nat)
    requires s < 32 && i <= |x| == |p| && m < |x|
  {
    p[m] == if m + k + 1 < i then RightLimb(x, k, s, m) else if m + k + 1 == i then Down(x[i - 1], s) else 0
  }

  ghost predicate RightSoFar(p: seq<int>, x: seq<Limb>, k: nat, s: nat, i: nat) {
    && s < 32 && i <= |x| == |p|
    && forall m: nat {:trigger RightAt(p, x, k, s, i, m)} :: m < |x| ==> RightAt(p, x, k, s, i, m)
  }

  function RightPut(p: seq<Limb>, x: seq<Limb>, k: nat, s: nat, i: nat): (r: seq<int>)
    requires s < 32 && i < |x| == |p|
    ensures |r| == |p|
  {
    var all: seq<int> := p;
    var q := if i - k - 1 >= 0 && s != 0 then all[i - k - 1 := Or(p[i - k - 1], Lo(x[i], 32 - s))] else all;
    if i - k >= 0 then q[i - k := Or(p[i - k], Down(x[i], s))] else q
  }

  lemma RightStart(p: seq<Limb>, x: seq<Limb>, k: nat, s: nat)
    requires s < 32 && |p| == |x| && forall m :: 0 <= m < |p| ==> p[m] == 0
    ensures RightSoFar(p, x, k, s, 0)
  {
    forall m: nat | m < |x| ensures RightAt(p, x, k, s, 0, m) {
    }
  }

  lemma RightFits(p: seq<Limb>, x: seq<Limb>, k: nat, s: nat, i: nat)
    requires i < |x| && RightSoFar(p, x, k, s, i)
    ensures i - k - 1 >= 0 ==> Or(p[i - k - 1], Lo(x[i], 32 - s)) == RightLimb(x, k, s, i - k - 1) < BASE
    ensures i - k >= 0 ==> Or(p[i - k], Down(x[i], s)) == Down(x[i], s) < BASE
  {
    OrZero(Down(x[i], s));
    if i - k - 1 >= 0 {
      assert RightAt(p, x, k, s, i, i - k - 1);
      OrPiecesDown(x[i - 1], x[i], s);
    }
    if i - k >= 0 { assert RightAt(p, x, k, s, i, i - k); }
  }

  lemma RightMoves(p: seq<Limb>, x: seq<Limb>, k: nat, s: nat, i: nat)
    requires i < |x| && RightSoFar(p, x, k, s, i)
    ensures RightSoFar(RightPut(p, x, k, s, i), x, k, s, i + 1)
  {
    RightFits(p, x, k, s, i);
    NothingAbove(x[i]);
    var r, next := RightPut(p, x, k, s, i), i + 1;
    forall m: nat | m < |x| ensures RightAt(r, x, k, s, next, m) {
      assert RightAt(p, x, k, s, i, m);
    }
  }

  lemma RightDone(p: seq<Limb>, x: seq<Limb>, k: nat, s: nat)
    requires RightSoFar(p, x, k, s, |x|)
    ensures p == ShiftRight(x, k, s)
  {
    var n := |x|;
    forall m: nat | m < n ensures p[m] == ShiftRight(x, k, s)[m] {
      assert RightAt(p, x, k, s, n, m);
      if m + k < n { ShrAt(x[k..], s, m); }
    }
  }
}
