/** Powers and the few facts about products and quotients that the arithmetic models use. */
module Powers {

  function Pow(b: nat, n: nat): (r: nat)
    ensures b > 0 ==> r > 0
  {
    if n == 0 then 1 else b * Pow(b, n - 1)
  }

  function Pow2(n: nat): (r: nat)
    ensures r > 0
  {
    if n == 0 then 1 else 2 * Pow2(n - 1)
  }

  lemma {:induction false} PowAdd(b: nat, m: nat, n: nat)
    ensures Pow(b, m + n) == Pow(b, m) * Pow(b, n)
  {
    if m > 0 {
      PowAdd(b, m - 1, n);
      MulAssoc(b, Pow(b, m - 1), Pow(b, n));
    }
  }

  lemma {:induction false} Pow2Add(m: nat, n: nat)
    ensures Pow2(m + n) == Pow2(m) * Pow2(n)
  {
    if m > 0 {
      Pow2Add(m - 1, n);
      MulAssoc(2, Pow2(m - 1), Pow2(n));
    }
  }

  lemma {:induction false} Pow2Mono(m: nat, n: nat)
    requires m <= n
    ensures Pow2(m) <= Pow2(n)
    ensures m < n ==> 2 * Pow2(m) <= Pow2(n)
    decreases n - m
  {
    if m < n { Pow2Mono(m + 1, n); }
  }

  lemma {:induction false} Pow2AtLeast(n: nat)
    ensures Pow2(n) > n
  {
    if n > 0 { Pow2AtLeast(n - 1); }
  }

  /** The position of the highest bit of n. */
  function Log2(n: nat): nat {
    if n <= 1 then 0 else 1 + Log2(n / 2)
  }

  lemma {:induction false} Log2Exact(n: nat, k: nat)
    requires Pow2(k) <= n < 2 * Pow2(k)
    ensures Log2(n) == k
    decreases k
  {
    if k > 0 { Log2Exact(n / 2, k - 1); }
  }

  lemma {:induction false} Log2AtLeast(n: nat, k: nat)
    requires Pow2(k) <= n
    ensures k <= Log2(n)
    decreases k
  {
    if k > 0 { Log2AtLeast(n / 2, k - 1); }
  }

  /** x times 2^n, by doubling: linear arithmetic for the shift proofs. */
  function Doubled(x: int, n: nat): int {
    if n == 0 then x else 2 * Doubled(x, n - 1)
  }

  lemma {:induction false} DoubledIs(x: int, n: nat)
    ensures Doubled(x, n) == x * Pow2(n)
  {
    if n > 0 {
      DoubledIs(x, n - 1);
      MulAssoc(x, 2, Pow2(n - 1));
    }
  }

  lemma {:induction false} DoubledAdd(x: int, y: int, n: nat)
    ensures Doubled(x + y, n) == Doubled(x, n) + Doubled(y, n)
  {
    if n > 0 { DoubledAdd(x, y, n - 1); }
  }

  lemma {:induction false} DoubledTwice(x: int, m: nat, n: nat)
    ensures Doubled(Doubled(x, m), n) == Doubled(x, m + n)
  {
    if n > 0 { DoubledTwice(x, m, n - 1); }
  }

  lemma {:induction false} DoubledLess(x: int, y: int, n: nat)
    ensures x < y <==> Doubled(x, n) < Doubled(y, n)
  {
    if n > 0 { DoubledLess(x, y, n - 1); }
  }

  lemma {:induction false} DoubledOne(n: nat)
    ensures Doubled(1, n) == Pow2(n)
  {
    if n > 0 { DoubledOne(n - 1); }
  }

  /** x divided by 2^n, by halving. */
  function Halved(x: nat, n: nat): nat {
    if n == 0 then x else Halved(x, n - 1) / 2
  }

  lemma {:induction false} HalvedBounds(x: nat, n: nat)
    ensures Doubled(Halved(x, n), n) <= x < Doubled(Halved(x, n), n) + Pow2(n)
    ensures Halved(x, n) <= x
  {
    if n > 0 {
      HalvedBounds(x, n - 1);
      var h := Halved(x, n - 1);
      DoubledAdd(2 * (h / 2), h % 2, n - 1);
      DoubledTwice(h / 2, 1, n - 1);
      assert Doubled(h / 2, 1) == 2 * (h / 2);
      DoubledOne(n - 1);
      assert Doubled(0, n - 1) == 0 by { DoubledIs(0, n - 1); }
    }
  }

  lemma HalvedIs(x: nat, n: nat)
    ensures Halved(x, n) == x / Pow2(n)
  {
    HalvedBounds(x, n);
    DoubledIs(Halved(x, n), n);
    DivUnique(x, Pow2(n), Halved(x, n), x - Doubled(Halved(x, n), n));
  }

  /** A product, by repeated addition: an atom for the solver until it is told what it is. */
  function Times(x: int, y: nat): int {
    if y == 0 then 0 else x + Times(x, y - 1)
  }

  lemma {:induction false} TimesIs(x: int, y: nat)
    ensures Times(x, y) == x * y
  {
    if y > 0 { TimesIs(x, y - 1); }
  }

  lemma TimesAdd(x: int, y: nat, z: nat)
    ensures Times(x, y + z) == Times(x, y) + Times(x, z)
  {
    TimesIs(x, y);
    TimesIs(x, z);
    TimesIs(x, y + z);
    DistributeAdd(x, y, z);
  }

  lemma TimesSum(x: int, y: int, z: nat)
    ensures Times(x + y, z) == Times(x, z) + Times(y, z)
  {
    TimesIs(x, z);
    TimesIs(y, z);
    TimesIs(x + y, z);
  }

  lemma DistributeAdd(x: int, y: int, z: int)
    ensures x * (y + z) == x * y + x * z
  {
  }

  lemma {:induction false} PowPow(b: nat, m: nat, n: nat)
    ensures Pow(Pow(b, m), n) == Pow(b, m * n)
    decreases n
  {
    if n > 0 {
      PowPow(b, m, n - 1);
      PowAdd(b, m, m * (n - 1));
      assert m * n == m + m * (n - 1);
    } else {
      assert m * 0 == 0;
    }
  }

  /** Powers grow with the base. */
  lemma {:induction false} PowBase(x: nat, y: nat, n: nat)
    requires x <= y
    ensures Pow(x, n) <= Pow(y, n) && (x < y && n > 0 ==> Pow(x, n) < Pow(y, n))
    decreases n
  {
    if n > 0 {
      PowBase(x, y, n - 1);
      MulLe(x, y, Pow(x, n - 1));
      MulLe(Pow(x, n - 1), Pow(y, n - 1), y);
      if x < y && x > 0 { MulLt(x, y, Pow(x, n - 1)); }
      if x == 0 && x < y { MulLe(1, y, Pow(y, n - 1)); }
    }
  }

  lemma {:induction false} PowExponent(b: nat, m: nat, n: nat)
    requires b > 0 && m <= n
    ensures Pow(b, m) <= Pow(b, n)
    decreases n - m
  {
    if m < n {
      PowExponent(b, m + 1, n);
      MulLe(1, b, Pow(b, m));
    }
  }

  lemma PowPowIs(b: nat, m: nat, n: nat, e: nat)
    requires e == m * n
    ensures Pow(Pow(b, m), n) == Pow(b, e)
  {
    PowPow(b, m, n);
  }

  /** If q digits of base a fit p digits of base b, then n digits of base a fit k of base b once pn <= kq. */
  lemma RoomFor(a: nat, b: nat, p: nat, q: nat, n: nat, k: nat, nq: nat, pn: nat, kq: nat)
    requires b > 0 && q > 0 && Pow(a, q) <= Pow(b, p)
    requires nq == n * q && pn == p * n && kq == k * q && pn <= kq
    ensures Pow(a, n) <= Pow(b, k)
  {
    PowPowIs(a, n, q, nq);
    PowPowIs(a, q, n, nq);
    PowBase(Pow(a, q), Pow(b, p), n);
    PowPowIs(b, p, n, pn);
    PowPowIs(b, k, q, kq);
    PowExponent(b, pn, kq);
    if Pow(b, k) < Pow(a, n) { PowBase(Pow(b, k), Pow(a, n), q); }
  }

  lemma MulAssoc(a: int, b: int, c: int)
    ensures a * (b * c) == (a * b) * c
  {
  }

  lemma MulLe(a: int, b: int, c: int)
    requires a <= b && c >= 0
    ensures a * c <= b * c && c * a <= c * b
  {
  }

  lemma MulLt(a: int, b: int, c: int)
    requires a < b && c > 0
    ensures a * c < b * c && c * a < c * b
    ensures (a + 1) * c <= b * c
  {
    MulLe(a + 1, b, c);
  }

  /** Quotient and remainder are unique. */
  lemma DivUnique(n: int, d: int, q: int, r: int)
    requires d > 0 && n == q * d + r && 0 <= r < d
    ensures n / d == q && n % d == r
  {
    var q', r' := n / d, n % d;
    assert n == q' * d + r';
    if q' < q { MulLt(q', q, d); }
    if q < q' { MulLt(q, q', d); }
  }

  lemma DivBound(n: int, d: int)
    requires d > 0
    ensures (n / d) * d <= n < (n / d + 1) * d
  {
    assert (n / d + 1) * d == (n / d) * d + d;
  }
}
