/**
 The compact code of an amount, first on all natural numbers, then as the 64-bit numbers of the
 source with their wrap-around.
 */
module Amounts {
  import opened Powers

  datatype Width = W32 | W64

  function Limit(w: Width): nat { if w == W32 then 4294967296 else 18446744073709551616 }
  function Wrap(n: int, w: Width): nat { if w == W32 then n % 4294967296 else n % 18446744073709551616 }

  lemma WrapSmall(n: nat, w: Width)
    requires n < Limit(w)
    ensures Wrap(n, w) == n
  {
  }

  // ----- The codes without a limit on their size -----

  /** Takes factors of ten off n, up to nine in all. */
  function Strip(n: nat, e: nat): (r: (nat, nat))
    requires n > 0 && e <= 9
    ensures r.0 > 0 && e <= r.1 <= 9 && (r.1 < 9 ==> r.0 % 10 != 0)
  {
    if n % 10 == 0 && e < 9 then Strip(n / 10, e + 1) else (n, e)
  }

  function Tens(n: nat, e: nat): (r: nat)
    ensures n > 0 ==> r > 0
  {
    if e == 0 then n else 10 * Tens(n, e - 1)
  }

  function Compact(m: nat, e: nat): nat
    requires m > 0
  {
    if e < 9 && m % 10 != 0 then 1 + (m / 10 * 9 + m % 10 - 1) * 10 + e else 1 + (m - 1) * 10 + 9
  }

  function CompressAmount(n: nat): nat {
    if n == 0 then 0 else var r := Strip(n, 0); Compact(r.0, r.1)
  }

  function Mantissa(y: nat, e: nat): nat { if e < 9 then y / 9 * 10 + (y % 9 + 1) else y + 1 }

  function DecompressAmount(x: nat): nat {
    if x == 0 then 0 else Tens(Mantissa((x - 1) / 10, (x - 1) % 10), (x - 1) % 10)
  }

  lemma {:induction false} TensOfStrip(n: nat, e: nat)
    requires n > 0 && e <= 9
    ensures Tens(Strip(n, e).0, Strip(n, e).1 - e) == n
    decreases 9 - e
  {
    if n % 10 == 0 && e < 9 { TensOfStrip(n / 10, e + 1); }
  }

  lemma {:induction false} StripOfTens(m: nat, e: nat, k: nat)
    requires m > 0 && e + k <= 9 && (m % 10 != 0 || e + k == 9)
    ensures Strip(Tens(m, e), k) == (m, e + k)
    decreases e
  {
    if e > 0 { StripOfTens(m, e - 1, k + 1); }
  }

  lemma CompactBack(m: nat, e: nat)
    requires m > 0 && e <= 9 && (e < 9 ==> m % 10 != 0)
    ensures var x := Compact(m, e); x > 0 && (x - 1) % 10 == e && Mantissa((x - 1) / 10, e) == m
  {
  }

  lemma MantissaBack(y: nat, e: nat)
    requires e <= 9
    ensures var m := Mantissa(y, e); m > 0 && (e < 9 ==> m % 10 != 0) && Compact(m, e) == 1 + y * 10 + e
  {
    if e < 9 { MantissaParts(y, y / 9, y % 9, Mantissa(y, e)); }
  }

  lemma MantissaParts(y: nat, q: nat, r: nat, m: nat)
    requires q == y / 9 && r == y % 9 && m == q * 10 + (r + 1)
    ensures m / 10 == q && m % 10 == r + 1 && m / 10 * 9 + m % 10 - 1 == y
  {
  }

  /** The two amount codes are inverse bijections on the natural numbers. */
  lemma DecompressCompress(n: nat)
    ensures DecompressAmount(CompressAmount(n)) == n
  {
    if n > 0 {
      var r := Strip(n, 0);
      CompactBack(r.0, r.1);
      TensOfStrip(n, 0);
    }
  }

  lemma CompressDecompress(x: nat)
    ensures CompressAmount(DecompressAmount(x)) == x
  {
    if x > 0 {
      var y, e := (x - 1) / 10, (x - 1) % 10;
      MantissaBack(y, e);
      StripOfTens(Mantissa(y, e), e, 0);
    }
  }

  lemma {:induction false} TensAtLeast(m: nat, e: nat)
    ensures Tens(m, e) >= m && (e > 0 ==> Tens(m, e) >= 10 * m)
  {
    if e > 0 { TensAtLeast(m, e - 1); }
  }

  /** How large an amount may be for its code to fit 64 bits; MAX_MONEY is far below. */
  lemma CompressFits(n: nat)
    ensures CompressAmount(n) <= 9 * n
    ensures n <= 21416000000000000 ==> CompressAmount(n) < Limit(W64)
  {
    if n > 0 {
      var r := Strip(n, 0);
      TensOfStrip(n, 0);
      TensAtLeast(r.0, r.1);
      CompactBound(r.0, r.1, n);
    }
  }

  lemma CompactBound(m: nat, e: nat, n: nat)
    requires m > 0 && e <= 9 && n >= m && (e > 0 ==> n >= 10 * m) && (e < 9 ==> m % 10 != 0)
    ensures Compact(m, e) <= 9 * n
  {
  }

  // ----- The codes in 64 bits -----

  /** The 64-bit code of an amount, itself taken modulo 2^64. */
  function AmountCode(v: int): (x: nat)
    ensures x < Limit(W64)
  {
    Wrap(CompressAmount(Wrap(v, W64)), W64)
  }

  /** The signed 64-bit amount of a code. */
  function AmountOf(x: nat): int {
    var v := Wrap(DecompressAmount(x), W64);
    if v >= 9223372036854775808 then v - Limit(W64) else v
  }

  // ----- When an amount comes back -----

  /** A code that does not fit belongs to an amount with a last digit, which it has in its lowest place. */
  lemma TooLong(u: nat, y: int)
    requires 0 < u < Limit(W64) && CompressAmount(u) >= Limit(W64) && y == u / 10 * 9 + u % 10 - 1
    ensures u % 10 != 0 && CompressAmount(u) == 1 + 10 * y && Mantissa(y, 0) == u && y >= 0
  {
    var r := Strip(u, 0);
    TensOfStrip(u, 0);
    TensAtLeast(r.0, r.1);
  }

  /** Lowering a code lowers the amount by ten ninths of it. */
  lemma MantissaLowered(y: nat, b: nat, t: nat)
    requires t < 9 && y >= 9 * b + t
    ensures Mantissa(y - 9 * b - t, 0) == Mantissa(y, 0) - 10 * b - t - if y % 9 < t then 1 else 0
  {
  }

  /** A linear congruence modulo 2^64 with an odd factor has one solution below 2^64. */
  lemma OneSolution(a: int, rhs: int, inv: int, w: int, u0: int, c0: int, u: int, j: int)
    requires inv * a == 1 + w * 18446744073709551616 && inv * rhs == u0 + c0 * 18446744073709551616
    requires a * u == rhs + j * 18446744073709551616
    requires 0 <= u < 18446744073709551616 && 0 <= u0 < 18446744073709551616
    ensures u == u0
  {
    var x, y := inv * j, w * u;
    MulAssoc(inv, a, u);
    assert (1 + w * 18446744073709551616) * u == u + 18446744073709551616 * y;
    assert inv * (rhs + j * 18446744073709551616) == inv * rhs + 18446744073709551616 * x;
    assert u - u0 == 18446744073709551616 * (x - y + c0);
  }

  /** What a code that lost k times 2^64 decodes to. */
  lemma LoweredCode(y: nat, k: nat, e: nat, s: nat, b: nat, t: nat, u: nat) returns (m: nat)
    requires k * 18446744073709551616 == 10 * s - e && e < 9 && s == 9 * b + t && t < 9 && y >= s
    requires Mantissa(y, 0) == u
    ensures var x := 1 + 10 * y - k * 18446744073709551616;
      x > 0 && DecompressAmount(x) == Tens(m, e) && (m == u - 10 * b - t || m == u - 10 * b - t - 1)
  {
    var x := 1 + 10 * y - k * 18446744073709551616;
    m := Mantissa(y - s, e);
    assert (x - 1) / 10 == y - s && (x - 1) % 10 == e;
    MantissaLowered(y, b, t);
  }

  lemma TensAre(m: nat)
    ensures Tens(m, 0) == m && Tens(m, 2) == 100 * m && Tens(m, 4) == 10000 * m
    ensures Tens(m, 6) == 1000000 * m && Tens(m, 8) == 100000000 * m
  {
    assert Tens(m, 1) == 10 * m;
    assert Tens(m, 3) == 1000 * m;
    assert Tens(m, 5) == 100000 * m;
    assert Tens(m, 7) == 10000000 * m;
  }

  /* A code that lost k times 2^64 decodes to another amount. For each k the equation that the amount
     would have to satisfy has one solution, whose own code loses another multiple of 2^64. */

  lemma {:induction false} AstrayOne(u: nat, y: nat, m: nat, j: int)
    requires 0 < u < 18446744073709551616 && u % 10 != 0 && y == u / 10 * 9 + u % 10 - 1
    requires 18446744073709551616 <= 1 + 10 * y < 36893488147419103232
    requires m == u - 2049638230412172402 || m == u - 2049638230412172403
    ensures 10000 * m != u + j * 18446744073709551616
  {
    if 10000 * m == u + j * 18446744073709551616 {
      if m == u - 2049638230412172402 {
        OneSolution(9999, 20496382304121724020000, 13458245626333751279, 7295,
                    15288550632769423584, 14953606251481945867176, u, j);
      } else {
        OneSolution(9999, 20496382304121724030000, 13458245626333751279, 7295,
                    10300052185393623248, 14953606251481945874472, u, j);
      }
    }
  }

  lemma {:induction false} AstrayTwo(u: nat, y: nat, m: nat, j: int)
    requires 0 < u < 18446744073709551616 && u % 10 != 0 && y == u / 10 * 9 + u % 10 - 1
    requires 36893488147419103232 <= 1 + 10 * y < 55340232221128654848
    requires m == u - 4099276460824344804 || m == u - 4099276460824344805
    ensures 100000000 * m != u + j * 18446744073709551616
  {
    if 100000000 * m == u + j * 18446744073709551616 {
      if m == u - 4099276460824344804 {
        OneSolution(99999999, 409927646082434480400000000, 300153063250403071, 1627133,
                    14480868974329830400, 6670068072231179356278725, u, j);
      } else {
        OneSolution(99999999, 409927646082434480500000000, 300153063250403071, 1627133,
                    14781022037580233472, 6670068072231179357905858, u, j);
      }
    }
  }

  lemma {:induction false} AstrayThree(u: nat, y: nat, m: nat, j: int)
    requires 0 < u < 18446744073709551616 && u % 10 != 0 && y == u / 10 * 9 + u % 10 - 1
    requires 55340232221128654848 <= 1 + 10 * y < 73786976294838206464
    requires m == u - 6148914691236517205 || m == u - 6148914691236517206
    ensures 100 * m != u + j * 18446744073709551616
  {
    if 100 * m == u + j * 18446744073709551616 {
      if m == u - 6148914691236517205 {
        OneSolution(99, 614891469123651720500, 12670490878911611211, 68,
                    1925417731599313468, 422349695963720373677, u, j);
      } else {
        OneSolution(99, 614891469123651720600, 12670490878911611211, 68,
                    14595908610510924680, 422349695963720373745, u, j);
      }
    }
  }

  lemma {:induction false} AstrayFour(u: nat, y: nat, m: nat, j: int)
    requires 0 < u < 18446744073709551616 && u % 10 != 0 && y == u / 10 * 9 + u % 10 - 1
    requires 73786976294838206464 <= 1 + 10 * y < 92233720368547758080
    requires m == u - 8198552921648689607 || m == u - 8198552921648689608
    ensures 1000000 * m != u + j * 18446744073709551616
  {
    if 1000000 * m == u + j * 18446744073709551616 {
      if m == u - 8198552921648689607 {
        OneSolution(999999, 8198552921648689607000000, 1672254362768354751, 90653,
                    14161661572577611840, 743224161230379889323260, u, j);
      } else {
        OneSolution(999999, 8198552921648689608000000, 1672254362768354751, 90653,
                    15833915935345966592, 743224161230379889413913, u, j);
      }
    }
  }

  lemma {:induction false} AstraySix(u: nat, y: nat, m: nat, j: int)
    requires 0 < u < 18446744073709551616 && u % 10 != 0 && y == u / 10 * 9 + u % 10 - 1
    requires 110680464442257309696 <= 1 + 10 * y < 129127208515966861312
    requires m == u - 12297829382473034411 || m == u - 12297829382473034412
    ensures 10000 * m != u + j * 18446744073709551616
  {
    if 10000 * m == u + j * 18446744073709551616 {
      if m == u - 12297829382473034411 {
        OneSolution(9999, 122978293824730344110000, 13458245626333751279, 7295,
                    4486081875444583760, 89721637508891675195765, u, j);
      } else {
        OneSolution(9999, 122978293824730344120000, 13458245626333751279, 7295,
                    17944327501778335040, 89721637508891675203060, u, j);
      }
    }
  }

  lemma {:induction false} AstraySeven(u: nat, y: nat, m: nat, j: int)
    requires 0 < u < 18446744073709551616 && u % 10 != 0 && y == u / 10 * 9 + u % 10 - 1
    requires 129127208515966861312 <= 1 + 10 * y < 147573952589676412928
    requires m == u - 14347467612885206813 || m == u - 14347467612885206814
    ensures 100000000 * m != u + j * 18446744073709551616
  {
    if 100000000 * m == u + j * 18446744073709551616 {
      if m == u - 14347467612885206813 {
        OneSolution(99999999, 1434746761288520681300000000, 300153063250403071, 1627133,
                    4266028162630124288, 23345238252809127745348407, u, j);
      } else {
        OneSolution(99999999, 1434746761288520681400000000, 300153063250403071, 1627133,
                    4566181225880527360, 23345238252809127746975540, u, j);
      }
    }
  }

  lemma {:induction false} AstrayEight(u: nat, y: nat, m: nat, j: int)
    requires 0 < u < 18446744073709551616 && u % 10 != 0 && y == u / 10 * 9 + u % 10 - 1
    requires 147573952589676412928 <= 1 + 10 * y < 166020696663385964544
    requires m == u - 16397105843297379214 || m == u - 16397105843297379215
    ensures 100 * m != u + j * 18446744073709551616
  {
    if 100 * m == u + j * 18446744073709551616 {
      if m == u - 16397105843297379214 {
        OneSolution(99, 1639710584329737921400, 12670490878911611211, 68,
                    7432526512302726184, 1126265855903254329851, u, j);
      } else {
        OneSolution(99, 1639710584329737921500, 12670490878911611211, 68,
                    1656273317504785780, 1126265855903254329920, u, j);
      }
    }
  }

  lemma {:induction false} LostOne(u: nat, y: nat)
    requires 0 < u < 18446744073709551616 && u % 10 != 0 && y == u / 10 * 9 + u % 10 - 1 && Mantissa(y, 0) == u
    requires 18446744073709551616 <= 1 + 10 * y < 36893488147419103232
    ensures Wrap(DecompressAmount(1 + 10 * y - 18446744073709551616), W64) != u
  {
    var m := LoweredCode(y, 1, 4, 1844674407370955162, 204963823041217240, 2, u);
    TensAre(m);
    AstrayOne(u, y, m, 10000 * m / 18446744073709551616);
  }

  lemma {:induction false} LostTwo(u: nat, y: nat)
    requires 0 < u < 18446744073709551616 && u % 10 != 0 && y == u / 10 * 9 + u % 10 - 1 && Mantissa(y, 0) == u
    requires 36893488147419103232 <= 1 + 10 * y < 55340232221128654848
    ensures Wrap(DecompressAmount(1 + 10 * y - 36893488147419103232), W64) != u
  {
    var m := LoweredCode(y, 2, 8, 3689348814741910324, 409927646082434480, 4, u);
    TensAre(m);
    AstrayTwo(u, y, m, 100000000 * m / 18446744073709551616);
  }

  lemma {:induction false} LostThree(u: nat, y: nat)
    requires 0 < u < 18446744073709551616 && u % 10 != 0 && y == u / 10 * 9 + u % 10 - 1 && Mantissa(y, 0) == u
    requires 55340232221128654848 <= 1 + 10 * y < 73786976294838206464
    ensures Wrap(DecompressAmount(1 + 10 * y - 55340232221128654848), W64) != u
  {
    var m := LoweredCode(y, 3, 2, 5534023222112865485, 614891469123651720, 5, u);
    TensAre(m);
    AstrayThree(u, y, m, 100 * m / 18446744073709551616);
  }

  lemma {:induction false} LostFour(u: nat, y: nat)
    requires 0 < u < 18446744073709551616 && u % 10 != 0 && y == u / 10 * 9 + u % 10 - 1 && Mantissa(y, 0) == u
    requires 73786976294838206464 <= 1 + 10 * y < 92233720368547758080
    ensures Wrap(DecompressAmount(1 + 10 * y - 73786976294838206464), W64) != u
  {
    var m := LoweredCode(y, 4, 6, 7378697629483820647, 819855292164868960, 7, u);
    TensAre(m);
    AstrayFour(u, y, m, 1000000 * m / 18446744073709551616);
  }

  lemma {:induction false} LostFive(u: nat, y: nat)
    requires 0 < u < 18446744073709551616 && u % 10 != 0 && y == u / 10 * 9 + u % 10 - 1 && Mantissa(y, 0) == u
    requires 92233720368547758080 <= 1 + 10 * y < 110680464442257309696
    ensures Wrap(DecompressAmount(1 + 10 * y - 92233720368547758080), W64) != u
  {
    var m := LoweredCode(y, 5, 0, 9223372036854775808, 1024819115206086200, 8, u);
    TensAre(m);
  }

  lemma {:induction false} LostSix(u: nat, y: nat)
    requires 0 < u < 18446744073709551616 && u % 10 != 0 && y == u / 10 * 9 + u % 10 - 1 && Mantissa(y, 0) == u
    requires 110680464442257309696 <= 1 + 10 * y < 129127208515966861312
    ensures Wrap(DecompressAmount(1 + 10 * y - 110680464442257309696), W64) != u
  {
    var m := LoweredCode(y, 6, 4, 11068046444225730970, 1229782938247303441, 1, u);
    TensAre(m);
    AstraySix(u, y, m, 10000 * m / 18446744073709551616);
  }

  lemma {:induction false} LostSeven(u: nat, y: nat)
    requires 0 < u < 18446744073709551616 && u % 10 != 0 && y == u / 10 * 9 + u % 10 - 1 && Mantissa(y, 0) == u
    requires 129127208515966861312 <= 1 + 10 * y < 147573952589676412928
    ensures Wrap(DecompressAmount(1 + 10 * y - 129127208515966861312), W64) != u
  {
    var m := LoweredCode(y, 7, 8, 12912720851596686132, 1434746761288520681, 3, u);
    TensAre(m);
    AstraySeven(u, y, m, 100000000 * m / 18446744073709551616);
  }

  lemma {:induction false} LostEight(u: nat, y: nat)
    requires 0 < u < 18446744073709551616 && u % 10 != 0 && y == u / 10 * 9 + u % 10 - 1 && Mantissa(y, 0) == u
    requires 147573952589676412928 <= 1 + 10 * y < 166020696663385964544
    ensures Wrap(DecompressAmount(1 + 10 * y - 147573952589676412928), W64) != u
  {
    var m := LoweredCode(y, 8, 2, 14757395258967641293, 1639710584329737921, 4, u);
    TensAre(m);
    AstrayEight(u, y, m, 100 * m / 18446744073709551616);
  }

  /** An amount whose code does not fit 64 bits comes back as another one. */
  lemma {:induction false} Lost(u: nat)
    requires 0 < u < Limit(W64) && CompressAmount(u) >= Limit(W64)
    ensures Wrap(DecompressAmount(Wrap(CompressAmount(u), W64)), W64) != u
  {
    var y := u / 10 * 9 + u % 10 - 1;
    TooLong(u, y);
    LostBy(u, y, (1 + 10 * y) / 18446744073709551616);
  }

  lemma Turns(u: nat, y: nat, k: int)
    requires u < Limit(W64) && y == u / 10 * 9 + u % 10 - 1
    requires k > 0 && k * 18446744073709551616 <= 1 + 10 * y < k * 18446744073709551616 + 18446744073709551616
    ensures k <= 8 && Wrap(1 + 10 * y, W64) == 1 + 10 * y - k * 18446744073709551616
  {
    assert 10 * y <= 9 * u;
  }

  lemma {:induction false} LostBy(u: nat, y: nat, k: int)
    requires k > 0
    requires 0 < u < Limit(W64) && u % 10 != 0 && y == u / 10 * 9 + u % 10 - 1 && Mantissa(y, 0) == u
    requires k * 18446744073709551616 <= 1 + 10 * y < k * 18446744073709551616 + 18446744073709551616
    ensures Wrap(DecompressAmount(Wrap(1 + 10 * y, W64)), W64) != u
  {
    Turns(u, y, k);
    if k <= 4 { LostFew(u, y, k); } else { LostMany(u, y, k); }
  }

  lemma {:induction false} LostFew(u: nat, y: nat, k: int)
    requires 1 <= k <= 4
    requires 0 < u < Limit(W64) && u % 10 != 0 && y == u / 10 * 9 + u % 10 - 1 && Mantissa(y, 0) == u
    requires k * 18446744073709551616 <= 1 + 10 * y < k * 18446744073709551616 + 18446744073709551616
    ensures Wrap(DecompressAmount(1 + 10 * y - k * 18446744073709551616), W64) != u
  {
    if k == 1 {
      LostOne(u, y);
    } else if k == 2 {
      LostTwo(u, y);
    } else if k == 3 {
      LostThree(u, y);
    } else {
      LostFour(u, y);
    }
  }

  lemma {:induction false} LostMany(u: nat, y: nat, k: int)
    requires 5 <= k <= 8
    requires 0 < u < Limit(W64) && u % 10 != 0 && y == u / 10 * 9 + u % 10 - 1 && Mantissa(y, 0) == u
    requires k * 18446744073709551616 <= 1 + 10 * y < k * 18446744073709551616 + 18446744073709551616
    ensures Wrap(DecompressAmount(1 + 10 * y - k * 18446744073709551616), W64) != u
  {
    if k == 5 {
      LostFive(u, y);
    } else if k == 6 {
      LostSix(u, y);
    } else if k == 7 {
      LostSeven(u, y);
    } else {
      LostEight(u, y);
    }
  }

  lemma SignedIs(d: nat, v: int, u: nat)
    requires -9223372036854775808 <= v < 9223372036854775808 && u == Wrap(v, W64) && d < Limit(W64)
    ensures (if d >= 9223372036854775808 then d - Limit(W64) else d) == v <==> d == u
  {
  }

  /** An amount comes back exactly when its code fits 64 bits. */
  lemma {:induction false} AmountExact(v: int)
    requires -9223372036854775808 <= v < 9223372036854775808
    ensures AmountOf(AmountCode(v)) == v <==> CompressAmount(Wrap(v, W64)) < Limit(W64)
  {
    var u := Wrap(v, W64);
    var x := AmountCode(v);
    SignedIs(Wrap(DecompressAmount(x), W64), v, u);
    if CompressAmount(u) < Limit(W64) {
      WrapSmall(CompressAmount(u), W64);
      DecompressCompress(u);
      WrapSmall(u, W64);
    } else {
      Lost(u);
    }
  }

  lemma {:induction false} TensPower(m: nat, e: nat)
    ensures Tens(m, e) == m * Pow(10, e)
  {
    if e > 0 {
      TensPower(m, e - 1);
      MulAssoc(m, 10, Pow(10, e - 1));
    }
  }

  lemma CompactShort(k: nat, d: nat, e: nat)
    requires e < 9 && 1 <= d <= 9
    ensures Compact(10 * k + d, e) == 10 * (9 * k + d - 1) + e + 1
  {
    var m := 10 * k + d;
    assert m / 10 == k && m % 10 == d;
  }

  lemma CompressOfTens(m: nat, e: nat)
    requires m > 0 && e <= 9 && (m % 10 != 0 || e == 9)
    ensures CompressAmount(m * Pow(10, e)) == Compact(m, e)
  {
    TensPower(m, e);
    StripOfTens(m, e, 0);
  }

  /** The code of 10k + d followed by e zeros: k and the last digit count in nines, the zeros stand last. */
  lemma CompressExact(k: nat, d: nat, e: nat)
    requires e < 9 && 1 <= d <= 9
    ensures CompressAmount((10 * k + d) * Pow(10, e)) == 10 * (9 * k + d - 1) + e + 1
  {
    CompressOfTens(10 * k + d, e);
    CompactShort(k, d, e);
  }

  lemma TenToNine(e: nat)
    requires e == 9
    ensures Pow(10, e) == 1_000_000_000
  {
    assert Pow(10, e - 8) == 10 && Pow(10, e - 7) == 100 && Pow(10, e - 6) == 1000 && Pow(10, e - 5) == 10000;
    assert Pow(10, e - 4) == 100000 && Pow(10, e - 3) == 1000000 && Pow(10, e - 2) == 10000000;
    assert Pow(10, e - 1) == 100000000;
  }

  /** With nine zeros or more, the number without nine of them is the code, with a zero. */
  lemma CompressRound(k: nat)
    requires k > 0
    ensures CompressAmount(k * 1_000_000_000) == 10 * k
  {
    TenToNine(9);
    CompressOfTens(k, 9);
  }
}
