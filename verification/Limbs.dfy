/** Numbers as lists of 32-bit limbs, least significant first. */
module Limbs {
  import opened Powers

  const BASE := 0x1_0000_0000

  type Limb = x: int | 0 <= x < BASE

  /** The number that limbs stand for. */
  function Value(s: seq<Limb>): (r: nat) {
    if s == [] then 0 else s[0] + BASE * Value(s[1..])
  }

  /** x moved up by n limbs. */
  function Up(x: int, n: nat): int {
    if n == 0 then x else BASE * Up(x, n - 1)
  }

  lemma {:induction false} UpAdd(x: int, y: int, n: nat)
    ensures Up(x + y, n) == Up(x, n) + Up(y, n)
  {
    if n > 0 { UpAdd(x, y, n - 1); }
  }

  lemma {:induction false} UpMul(x: int, n: nat)
    ensures Up(x, n) == x * Up(1, n) && Up(1, n) > 0
  {
    if n > 0 {
      UpMul(x, n - 1);
      assert BASE * (x * Up(1, n - 1)) == x * (BASE * Up(1, n - 1));
    }
  }

  lemma UpTimes(x: int, y: nat, n: nat)
    ensures Up(y, n) >= 0 && Times(x, Up(y, n)) == Up(Times(x, y), n)
  {
    UpMul(y, n);
    MulLe(0, y, Up(1, n));
    TimesIs(x, Up(y, n));
    TimesIs(x, y);
    UpMul(x * y, n);
    MulAssoc(x, y, Up(1, n));
  }

  lemma TimesUp(x: int, y: nat, n: nat)
    ensures Times(Up(x, n), y) == Up(Times(x, y), n)
  {
    UpMul(x, n);
    TimesIs(Up(x, n), y);
    TimesIs(x, y);
    UpMul(x * y, n);
    MulAssoc(y, x, Up(1, n));
  }

  lemma {:induction false} UpUp(x: int, m: nat, n: nat)
    ensures Up(Up(x, m), n) == Up(x, m + n)
  {
    if n > 0 { UpUp(x, m, n - 1); }
  }

  lemma {:induction false} UpPow2(n: nat)
    ensures Up(1, n) == Pow2(32 * n)
  {
    if n > 0 {
      UpPow2(n - 1);
      Pow2Add(32, 32 * (n - 1));
      assert 32 * n == 32 + 32 * (n - 1);
      assert Pow2(32) == BASE by { Pow2Of32(); }
    }
  }

  lemma Pow2Of32()
    ensures Pow2(32) == BASE
  {
    assert Pow2(8) == 256;
    Pow2Add(8, 8);
    Pow2Add(16, 16);
  }

  lemma {:induction false} ValueBound(s: seq<Limb>)
    ensures Value(s) < Up(1, |s|)
  {
    if s != [] { ValueBound(s[1..]); }
  }

  /** A number below the range of n limbs that differs from x by whole ranges is x modulo the range. */
  lemma ModIs(r: int, q: int, x: int, n: nat)
    requires 0 <= r < Up(1, n) && x == r + Up(q, n)
    ensures x % Up(1, n) == r
  {
    UpMul(q, n);
    DivUnique(x, Up(1, n), q, r);
  }

  lemma {:induction false} ValueConcat(s: seq<Limb>, t: seq<Limb>)
    ensures Value(s + t) == Value(s) + Up(Value(t), |s|)
  {
    if s == [] {
      assert s + t == t;
    } else {
      ValueConcat(s[1..], t);
      assert (s + t)[1..] == s[1..] + t;
    }
  }

  /** Changing one limb changes the number by the difference, moved up. */
  lemma {:induction false} ValueUpdate(s: seq<Limb>, i: nat, x: Limb)
    requires i < |s|
    ensures Value(s[i := x]) == Value(s) + Up(x - s[i], i)
  {
    if i == 0 {
      assert s[i := x][1..] == s[1..];
    } else {
      ValueUpdate(s[1..], i - 1, x);
      assert s[i := x][1..] == s[1..][i - 1 := x];
    }
  }

  function Zeros(n: nat): (s: seq<Limb>)
    ensures |s| == n && forall i :: 0 <= i < n ==> s[i] == 0
  {
    seq(n, i => 0)
  }

  lemma {:induction false} ZeroValue(s: seq<Limb>)
    requires forall i :: 0 <= i < |s| ==> s[i] == 0
    ensures Value(s) == 0
  {
    if s != [] { ZeroValue(s[1..]); }
  }

  /** One limb more. */
  lemma ValuePrefix(s: seq<Limb>, i: nat)
    requires i < |s|
    ensures Value(s[..i + 1]) == Value(s[..i]) + Up(s[i], i)
  {
    assert s[..i + 1] == s[..i] + [s[i]];
    ValueConcat(s[..i], [s[i]]);
    OneLimb([s[i]]);
  }

  lemma OneLimb(a: seq<Limb>)
    requires a != [] && forall i :: 0 < i < |a| ==> a[i] == 0
    ensures Value(a) == a[0]
  {
    ZeroValue(a[1..]);
  }

  /** The low part of a sum stays, the high part is carried into the next limb. */
  lemma Carry(n: int, i: nat)
    ensures Up(n, i) == Up(n % BASE, i) + Up(n / BASE, i + 1)
  {
    UpAdd(n % BASE, BASE * (n / BASE), i);
    UpBase(n / BASE, i);
  }

  lemma {:induction false} UpBase(x: int, i: nat)
    ensures Up(BASE * x, i) == Up(x, i + 1)
  {
    if i > 0 { UpBase(x, i - 1); }
  }

  function Complement(a: seq<Limb>): (r: seq<Limb>)
    ensures |r| == |a|
  {
    seq(|a|, i requires 0 <= i < |a| => BASE - 1 - a[i])
  }

  lemma {:induction false} ComplementValue(a: seq<Limb>)
    ensures Value(Complement(a)) == Up(1, |a|) - 1 - Value(a)
  {
    if a != [] {
      ComplementValue(a[1..]);
      assert Complement(a)[1..] == Complement(a[1..]);
    }
  }

  // ----- Products -----

  /** A product of two limbs with two more limbs added still fits 64 bits. */
  lemma LimbProduct(p: Limb, x: Limb, b: Limb, carry: Limb)
    ensures 0 <= carry + p + Times(x, b) < BASE * BASE
    ensures 0 <= (carry + p + Times(x, b)) / BASE < BASE
  {
    TimesIs(x, b);
    MulLe(x, BASE - 1, b);
    MulLe(b, BASE - 1, BASE - 1);
    MulLe(0, x, b);
  }

  /** One limb more in a product. */
  lemma TimesPrefix(x: int, b: seq<Limb>, i: nat)
    requires i < |b|
    ensures Times(x, Value(b[..i + 1])) == Times(x, Value(b[..i])) + Up(Times(x, b[i]), i)
  {
    ValuePrefix(b, i);
    UpTimes(x, b[i], i);
    TimesAdd(x, Value(b[..i]), Up(b[i], i));
  }

  /** Leaving out the upper limbs of b changes a product by whole ranges. */
  lemma CutOff(x: int, b: seq<Limb>, n: nat) returns (q: int)
    requires n <= |b|
    ensures Times(x, Value(b)) == Times(x, Value(b[..n])) + Up(q, n)
  {
    var low, high := Value(b[..n]), Value(b[n..]);
    ValueConcat(b[..n], b[n..]);
    assert b[..n] + b[n..] == b;
    q := Times(x, high);
    UpTimes(x, high, n);
    TimesAdd(x, low, Up(high, n));
  }

  // ----- Comparison -----

  /** The highest limb in which two numbers differ decides. */
  lemma {:induction false} HighestDecides(a: seq<Limb>, b: seq<Limb>, i: nat)
    requires |a| == |b| && i < |a| && a[i] < b[i] && a[i + 1..] == b[i + 1..]
    ensures Value(a) < Value(b)
  {
    if i > 0 {
      assert a[1..][i - 1 + 1..] == a[i + 1..] && b[1..][i - 1 + 1..] == b[i + 1..];
      HighestDecides(a[1..], b[1..], i - 1);
    } else {
      assert a[1..] == b[1..];
    }
  }

  /** Equal numbers have equal limbs. */
  lemma {:induction false} ValueUnique(a: seq<Limb>, b: seq<Limb>)
    requires |a| == |b| && Value(a) == Value(b)
    ensures a == b
  {
    if a != [] {
      assert a[0] == b[0];
      ValueUnique(a[1..], b[1..]);
      assert a == [a[0]] + a[1..] && b == [b[0]] + b[1..];
    }
  }
}
