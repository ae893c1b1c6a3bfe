/**
 256-bit unsigned integers in eight 32-bit limbs that operators update in place. Each operator is
 proved to compute what it should on the numbers the limbs stand for, modulo 2^256.
 */
module ArithUint256 {
  import opened Powers
  import opened Limbs
  import opened LimbShifts

  const WIDTH := 8

  /** 2^256. */
  const RANGE := 0x1_00000000_00000000_00000000_00000000_00000000_00000000_00000000_00000000

  lemma Range(s: seq<Limb>)
    requires |s| == WIDTH
    ensures Up(1, WIDTH) == RANGE && 0 <= Value(s) < RANGE
  {
    UpUp(1, 4, 4);
    ValueBound(s);
  }

  lemma RangeIs()
    ensures Pow2(256) == RANGE
  {
    UpPow2(WIDTH);
    Range(Zeros(WIDTH));
  }

  lemma ModRange(s: seq<Limb>, q: int, x: int)
    requires |s| == WIDTH && x == Value(s) + Up(q, WIDTH)
    ensures Value(s) == x % RANGE
  {
    Range(s);
    ModIs(Value(s), q, x, WIDTH);
  }

  class ArithUint256 {
    const pn: array<Limb>

    ghost predicate Valid()
      reads this
    {
      pn.Length == WIDTH
    }

    ghost function Val(): nat
      requires Valid()
      reads this, pn
    {
      Value(pn[..])
    }

    constructor (b: nat)
      requires b < BASE * BASE
      ensures Valid() && fresh(pn) && Val() == b
    {
      pn := new Limb[WIDTH](i => 0);
      new;
      SetUint64(b);
    }

    constructor Copy(b: ArithUint256)
      requires b.Valid()
      ensures Valid() && fresh(pn) && pn[..] == b.pn[..]
    {
      pn := new Limb[WIDTH](i => 0);
      new;
      Assign(b);
    }

    method Assign(b: ArithUint256)
      requires Valid() && b.Valid()
      modifies pn
      ensures pn[..] == old(b.pn[..])
    {
      var i := 0;
      while i < WIDTH
        invariant 0 <= i <= WIDTH && pn[..i] == old(b.pn[..i]) && b.pn[i..] == old(b.pn[i..])
      {
        pn[i] := b.pn[i];
        i := i + 1;
      }
    }

    method SetUint64(b: nat)
      requires Valid() && b < BASE * BASE
      modifies pn
      ensures Val() == b
    {
      pn[0] := b % BASE;
      pn[1] := b / BASE;
      var i := 2;
      while i < WIDTH
        invariant 2 <= i <= WIDTH && pn[0] == b % BASE && pn[1] == b / BASE
        invariant forall j :: 2 <= j < i ==> pn[j] == 0
      {
        pn[i] := 0;
        i := i + 1;
      }
      OneLimb(pn[1..]);
      assert pn[..][1..] == pn[1..];
    }

    // ----- Addition and subtraction -----

    method AddAssign(b: ArithUint256)
      requires Valid() && b.Valid()
      modifies pn
      ensures Val() == (old(Val()) + old(b.Val())) % RANGE
    {
      ghost var x, y := pn[..], b.pn[..];
      var carry, i := 0, 0;
      while i < WIDTH
        invariant 0 <= i <= WIDTH && 0 <= carry <= 1
        invariant forall j :: i <= j < WIDTH ==> pn[j] == x[j] && b.pn[j] == y[j]
        invariant Value(pn[..i]) + Up(carry, i) == Value(x[..i]) + Value(y[..i])
      {
        var n := carry + pn[i] + b.pn[i];
        ghost var done := pn[..i];
        pn[i] := n % BASE;
        assert pn[..i] == done;
        AddStep(pn[..], x, y, i, carry, n);
        carry := n / BASE;
        i := i + 1;
      }
      Whole(x, y, pn[..]);
      ModRange(pn[..], carry, Value(x) + Value(y));
    }

    static lemma AddStep(z: seq<Limb>, x: seq<Limb>, y: seq<Limb>, i: nat, carry: int, n: int)
      requires i < |x| == |y| == |z| && n == carry + x[i] + y[i] && z[i] == n % BASE
      requires Value(z[..i]) + Up(carry, i) == Value(x[..i]) + Value(y[..i])
      ensures Value(z[..i + 1]) + Up(n / BASE, i + 1) == Value(x[..i + 1]) + Value(y[..i + 1])
    {
      ValuePrefix(x, i);
      ValuePrefix(y, i);
      ValuePrefix(z, i);
      Carry(n, i);
      UpAdd(carry, x[i], i);
      UpAdd(carry + x[i], y[i], i);
    }

    static lemma Whole(x: seq<Limb>, y: seq<Limb>, z: seq<Limb>)
      requires |x| == |y| == |z| == WIDTH
      ensures x[..WIDTH] == x && y[..WIDTH] == y && z[..WIDTH] == z
    {
    }

    /** The complement: all bits turned. */
    method Not() returns (ret: ArithUint256)
      requires Valid()
      ensures ret.Valid() && fresh(ret) && fresh(ret.pn)
      ensures ret.Val() == RANGE - 1 - Val()
    {
      ret := new ArithUint256(0);
      var i := 0;
      while i < WIDTH
        invariant 0 <= i <= WIDTH && forall j :: 0 <= j < i ==> ret.pn[j] == BASE - 1 - pn[j]
      {
        ret.pn[i] := BASE - 1 - pn[i];
        i := i + 1;
      }
      assert ret.pn[..] == Complement(pn[..]);
      ComplementValue(pn[..]);
      Range(pn[..]);
    }

    method Increment()
      requires Valid()
      modifies pn
      ensures Val() == (old(Val()) + 1) % RANGE
    {
      ghost var x, s := Val(), pn[..];
      var i := 0;
      while pn[i] == BASE - 1 && i < WIDTH - 1
        invariant 0 <= i < WIDTH && pn[..] == s && x + 1 == Value(s) + Up(1, i)
      {
        RollOver(s, i);
        pn[i] := 0;
        s := s[i := 0];
        i := i + 1;
      }
      LastLimb(s, i, x);
      pn[i] := (pn[i] + 1) % BASE;
      s := s[i := (s[i] + 1) % BASE];
      assert pn[..] == s;
    }

    static lemma LastLimb(s: seq<Limb>, i: nat, x: int)
      requires i < |s| == WIDTH && (s[i] == BASE - 1 ==> i == WIDTH - 1) && x + 1 == Value(s) + Up(1, i)
      ensures Value(s[i := (s[i] + 1) % BASE]) == (x + 1) % RANGE
    {
      if s[i] == BASE - 1 {
        RollOver(s, i);
        ModRange(s[i := 0], 1, x + 1);
      } else {
        ValueUpdate(s, i, s[i] + 1);
        UpMul(0, WIDTH);
        ModRange(s[i := s[i] + 1], 0, x + 1);
      }
    }

    /** A limb that rolls over turns what it had to take into one for the next limb. */
    static lemma RollOver(s: seq<Limb>, i: nat)
      requires i < |s| && s[i] == BASE - 1
      ensures Value(s) + Up(1, i) == Value(s[i := 0]) + Up(1, i + 1)
    {
      ValueUpdate(s, i, 0);
      UpAdd(1 - BASE, BASE, i);
      UpBase(1, i);
    }

    /** Two's complement. */
    method Negate() returns (ret: ArithUint256)
      requires Valid()
      ensures ret.Valid() && fresh(ret) && fresh(ret.pn)
      ensures ret.Val() == (RANGE - Val()) % RANGE
    {
      ret := Not();
      ret.Increment();
    }

    method SubAssign(b: ArithUint256)
      requires Valid() && b.Valid()
      modifies pn
      ensures Val() == (old(Val()) - old(b.Val())) % RANGE
    {
      Range(pn[..]);
      Range(b.pn[..]);
      ghost var x, y := Val(), b.Val();
      var neg := b.Negate();
      AddAssign(neg);
      SubMod(x, y);
    }

    static lemma SubMod(x: int, y: int)
      requires 0 <= x < RANGE && 0 <= y < RANGE
      ensures (x + (RANGE - y) % RANGE) % RANGE == (x - y) % RANGE
    {
    }

    // ----- Multiplication -----

    method MulUint32(b32: Limb)
      requires Valid()
      modifies pn
      ensures Val() == (old(Val()) * b32) % RANGE
    {
      ghost var x := pn[..];
      var carry: Limb, i := 0, 0;
      TimesIs(b32, 0);
      while i < WIDTH
        invariant 0 <= i <= WIDTH
        invariant forall j :: i <= j < WIDTH ==> pn[j] == x[j]
        invariant Value(pn[..i]) + Up(carry, i) == Times(b32, Value(x[..i]))
      {
        LimbProduct(0, b32, pn[i], carry);
        TimesIs(b32, pn[i]);
        var n := carry + b32 * pn[i];
        ghost var done := pn[..i];
        pn[i] := n % BASE;
        assert pn[..i] == done;
        MulStep(pn[..], x, i, b32, carry, n);
        carry := n / BASE;
        i := i + 1;
      }
      Whole(x, x, pn[..]);
      TimesIs(b32, Value(x));
      ModRange(pn[..], carry, Value(x) * b32);
    }

    static lemma MulStep(z: seq<Limb>, x: seq<Limb>, i: nat, b: int, carry: int, n: int)
      requires i < |x| == |z| && n == carry + Times(b, x[i]) && z[i] == n % BASE
      requires Value(z[..i]) + Up(carry, i) == Times(b, Value(x[..i]))
      ensures Value(z[..i + 1]) + Up(n / BASE, i + 1) == Times(b, Value(x[..i + 1]))
    {
      TimesPrefix(b, x, i);
      ValuePrefix(z, i);
      Carry(n, i);
      UpAdd(carry, Times(b, x[i]), i);
    }

    /** Adds a row: one limb of the other factor times b, moved up by j limbs. */
    method MulRow(x: Limb, b: ArithUint256, j: nat) returns (ghost q: int)
      requires Valid() && b.Valid() && j < WIDTH && (b.pn == pn ==> pn[..] == Zeros(WIDTH))
      modifies pn
      ensures b.pn[..] == old(b.pn[..])
      ensures Val() + Up(q, WIDTH) == old(Val()) + Up(Times(x, old(b.Val())), j)
    {
      ghost var p, y, s := Val(), b.pn[..], pn[..];
      var carry: Limb, i := 0, 0;
      ZeroRow(x, j);
      while i + j < WIDTH
        invariant 0 <= i <= WIDTH - j && pn[..] == s && b.pn[..] == y && (b.pn == pn ==> carry == 0)
        invariant Value(s) + Up(carry, i + j) == p + Up(Times(x, Value(y[..i])), j)
      {
        LimbProduct(pn[i + j], x, b.pn[i], carry);
        TimesIs(x, b.pn[i]);
        var n := carry + pn[i + j] + x * b.pn[i];
        RowStep(s, y, i, j, x, carry, n, p);
        pn[i + j] := n % BASE;
        s := s[i + j := n % BASE];
        carry := n / BASE;
        i := i + 1;
      }
      var q0 := CutOff(x, y, WIDTH - j);
      UpAdd(Times(x, Value(y[..i])), Up(q0, WIDTH - j), j);
      UpUp(q0, WIDTH - j, j);
      UpAdd(carry, q0, WIDTH);
      q := carry + q0;
    }

    static lemma ZeroRow(x: Limb, j: nat)
      ensures Times(x, 0) == 0 && Up(0, j) == 0
    {
      TimesIs(x, 0);
      UpMul(0, j);
    }

    static lemma RowStep(s: seq<Limb>, y: seq<Limb>, i: nat, j: nat, x: int, carry: int, n: int, p: int)
      requires i + j < |s| == |y| && n == carry + s[i + j] + Times(x, y[i])
      requires Value(s) + Up(carry, i + j) == p + Up(Times(x, Value(y[..i])), j)
      ensures Value(s[i + j := n % BASE]) + Up(n / BASE, i + j + 1) == p + Up(Times(x, Value(y[..i + 1])), j)
    {
      ValueUpdate(s, i + j, n % BASE);
      Carry(n, i + j);
      UpAdd(n % BASE - s[i + j], s[i + j], i + j);
      UpAdd(carry, s[i + j], i + j);
      UpAdd(carry + s[i + j], Times(x, y[i]), i + j);
      TimesPrefix(x, y, i);
      UpAdd(Times(x, Value(y[..i])), Up(Times(x, y[i]), i), j);
      UpUp(Times(x, y[i]), i, j);
    }

    /** Multiplying a number by itself in place clears it, because the factor is cleared first. */
    method MulAssign(b: ArithUint256)
      requires Valid() && b.Valid()
      modifies pn
      ensures b.pn != pn ==> Val() == (old(Val()) * old(b.Val())) % RANGE
      ensures b.pn == pn ==> Val() == 0
    {
      var a := new ArithUint256.Copy(this);
      ghost var x := pn[..];
      SetUint64(0);
      Range(pn[..]);
      ZeroLimbs(pn[..]);
      ghost var y, q := b.pn[..], 0;
      var j := 0;
      TimesIs(0, Value(y));
      UpMul(0, WIDTH);
      while j < WIDTH
        invariant 0 <= j <= WIDTH && a.pn[..] == x && b.pn[..] == y
        invariant b.pn == pn ==> y == Zeros(WIDTH)
        invariant Val() + Up(q, WIDTH) == Times(Value(x[..j]), Value(y))
      {
        var q' := MulRow(a.pn[j], b, j);
        ColumnStep(x, Value(y), j);
        UpAdd(q, q', WIDTH);
        q := q + q';
        j := j + 1;
      }
      Whole(x, y, pn[..]);
      TimesIs(Value(x), Value(y));
      ModRange(pn[..], q, Value(x) * Value(y));
      ZeroValue(Zeros(WIDTH));
    }

    static lemma ZeroLimbs(s: seq<Limb>)
      requires Value(s) == 0
      ensures s == Zeros(|s|)
    {
      ZeroValue(Zeros(|s|));
      ValueUnique(s, Zeros(|s|));
    }

    static lemma ColumnStep(x: seq<Limb>, y: nat, j: nat)
      requires j < |x|
      ensures Times(Value(x[..j + 1]), y) == Times(Value(x[..j]), y) + Up(Times(x[j], y), j)
    {
      ValuePrefix(x, j);
      TimesSum(Value(x[..j]), Up(x[j], j), y);
      TimesUp(x[j], y, j);
    }

    // ----- Shifts -----

    method Clear()
      requires Valid()
      modifies pn
      ensures forall m :: 0 <= m < WIDTH ==> pn[m] == 0
    {
      var i := 0;
      while i < WIDTH
        invariant 0 <= i <= WIDTH && forall m :: 0 <= m < i ==> pn[m] == 0
      {
        pn[i] := 0;
        i := i + 1;
      }
    }

    method ShiftLeftAssign(shift: nat)
      requires Valid()
      modifies pn
      ensures Val() == (old(Val()) * Pow2(shift)) % RANGE
    {
      var a := new ArithUint256.Copy(this);
      ghost var x := pn[..];
      Clear();
      var k, s := shift / 32, shift % 32;
      var i := 0;
      LeftStart(pn[..], x, k, s);
      while i < WIDTH
        invariant 0 <= i <= WIDTH && a.pn[..] == x && LeftSoFar(pn[..], x, k, s, i)
      {
        ghost var p := pn[..];
        LeftFits(p, x, k, s, i);
        if i + k + 1 < WIDTH && s != 0 {
          pn[i + k + 1] := Or(pn[i + k + 1], Halved(a.pn[i], 32 - s));
        }
        if i + k < WIDTH {
          pn[i + k] := Or(pn[i + k], Lo(a.pn[i], s));
        }
        assert pn[..] == LeftPut(p, x, k, s, i);
        LeftMoves(p, x, k, s, i);
        i := i + 1;
      }
      Shifted(pn[..], x, k, s);
    }

    static lemma Shifted(p: seq<Limb>, x: seq<Limb>, k: nat, s: nat)
      requires |x| == WIDTH && LeftSoFar(p, x, k, s, WIDTH)
      ensures Value(p) == (Value(x) * Pow2(32 * k + s)) % RANGE
    {
      LeftDone(p, x, k, s);
      ShiftLeftValue(x, k, s);
      RangeIs();
    }

    method ShiftRightAssign(shift: nat)
      requires Valid()
      modifies pn
      ensures Val() == old(Val()) / Pow2(shift)
    {
      var a := new ArithUint256.Copy(this);
      ghost var x := pn[..];
      Clear();
      var k, s := shift / 32, shift % 32;
      var i := 0;
      RightStart(pn[..], x, k, s);
      while i < WIDTH
        invariant 0 <= i <= WIDTH && a.pn[..] == x && RightSoFar(pn[..], x, k, s, i)
      {
        ghost var p := pn[..];
        RightFits(p, x, k, s, i);
        if i - k - 1 >= 0 && s != 0 {
          pn[i - k - 1] := Or(pn[i - k - 1], Lo(a.pn[i], 32 - s));
        }
        if i - k >= 0 {
          pn[i - k] := Or(pn[i - k], Down(a.pn[i], s));
        }
        assert pn[..] == RightPut(p, x, k, s, i);
        RightMoves(p, x, k, s, i);
        i := i + 1;
      }
      RightDone(pn[..], x, k, s);
      ShiftRightValue(x, k, s);
    }

    // ----- Comparison and size -----

    method CompareTo(b: ArithUint256) returns (r: int)
      requires Valid() && b.Valid()
      ensures r == if Val() < b.Val() then -1 else if Val() > b.Val() then 1 else 0
    {
      var i := WIDTH - 1;
      while i >= 0
        invariant -1 <= i < WIDTH && forall j :: i < j < WIDTH ==> pn[j] == b.pn[j]
      {
        assert pn[..][i + 1..] == b.pn[..][i + 1..];
        if pn[i] < b.pn[i] {
          HighestDecides(pn[..], b.pn[..], i);
          return -1;
        }
        if pn[i] > b.pn[i] {
          HighestDecides(b.pn[..], pn[..], i);
          return 1;
        }
        i := i - 1;
      }
      assert pn[..] == b.pn[..];
      return 0;
    }

    /** The position of the highest set bit plus one, or zero. */
    method BitCount() returns (r: nat)
      requires Valid()
      ensures r == Bits(Val())
    {
      var pos := WIDTH - 1;
      while pos >= 0
        invariant -1 <= pos < WIDTH && forall i :: pos < i < WIDTH ==> pn[i] == 0
      {
        if pn[pos] != 0 {
          TopLimb(pn[..], pos);
          var bits := 31;
          NothingAbove(pn[pos]);
          while bits > 0
            invariant 0 <= bits <= 31 && Halved(pn[pos], bits + 1) == 0
          {
            if Halved(pn[pos], bits) % 2 == 1 {
              TopBit(pn[pos], bits);
              return 32 * pos + bits + 1;
            }
            bits := bits - 1;
          }
          assert Halved(pn[pos], 1) == Halved(pn[pos], 0) / 2;
          return 32 * pos + 1;
        }
        pos := pos - 1;
      }
      ZeroValue(pn[..]);
      return 0;
    }

    method GetLow64() returns (r: nat)
      requires Valid()
      ensures r == Val() % (BASE * BASE)
    {
      r := pn[0] + BASE * pn[1];
      var s := pn[..];
      LowPair(s);
    }

    static lemma LowPair(s: seq<Limb>)
      requires |s| >= 2
      ensures s[0] + BASE * s[1] == Value(s) % (BASE * BASE)
    {
      assert Value(s) == s[0] + BASE * Value(s[1..]);
      assert Value(s[1..]) == s[1] + BASE * Value(s[2..]) by { assert s[1..][1..] == s[2..]; }
    }

    // ----- Division -----

    /** The lowest n bits of all the limbs together are clear. */
    static ghost predicate ClearBelow(s: seq<Limb>, n: nat) {
      forall m: nat {:trigger ClearLimb(s, n, m)} :: m < |s| ==> ClearLimb(s, n, m)
    }

    static predicate ClearLimb(s: seq<Limb>, n: nat, m: nat)
      requires m < |s|
    {
      if n <= 32 * m then true else if n >= 32 * m + 32 then s[m] == 0 else LimbShifts.Clear(s[m], n - 32 * m)
    }

    /** Sets a bit of the quotient below those already set. */
    method SetBitOf(shift: nat)
      requires Valid() && shift < 256 && ClearBelow(pn[..], shift + 1)
      modifies pn
      ensures Val() == old(Val()) + Pow2(shift) && ClearBelow(pn[..], shift)
    {
      ghost var s := pn[..];
      BitFits(s, shift);
      pn[shift / 32] := Or(pn[shift / 32], Pow2(shift % 32));
      assert pn[..] == s[shift / 32 := s[shift / 32] + Pow2(shift % 32)];
    }

    static lemma BitFits(s: seq<Limb>, shift: nat)
      requires |s| == WIDTH && shift < 256 && ClearBelow(s, shift + 1)
      ensures var m, t := shift / 32, shift % 32;
        && Or(s[m], Pow2(t)) == s[m] + Pow2(t) < BASE
        && ClearBelow(s[m := s[m] + Pow2(t)], shift)
        && Value(s[m := s[m] + Pow2(t)]) == Value(s) + Pow2(shift)
    {
      var m, t := shift / 32, shift % 32;
      assert ClearLimb(s, shift + 1, m);
      if t == 31 { ClearZero(32); }
      SetBit(s[m], t);
      var s' := s[m := s[m] + Pow2(t)];
      forall j: nat | j < |s'| ensures ClearLimb(s', shift, j) {
        assert ClearLimb(s, shift + 1, j);
      }
      ValueUpdate(s, m, s[m] + Pow2(t));
      UpDoubled(Pow2(t), m);
      DoubledOne(t);
      DoubledTwice(1, t, 32 * m);
      DoubledOne(shift);
    }

    static lemma ClearFewer(s: seq<Limb>, n: nat)
      requires ClearBelow(s, n + 1)
      ensures ClearBelow(s, n)
    {
      forall m: nat | m < |s| ensures ClearLimb(s, n, m) {
        assert ClearLimb(s, n + 1, m);
        if 32 * m < n < 32 * m + 32 {
          if n + 1 == 32 * m + 32 { ClearZero(n - 32 * m); } else { ClearLess(s[m], n - 32 * m); }
        }
      }
    }

    /** What long division keeps: n is d times the quotient so far plus the rest, and the divisor is d shifted. */
    ghost predicate Dividing(num: ArithUint256, div: ArithUint256, shift: int, n: nat, d: nat)
      reads this, pn, num, num.pn, div, div.pn
    {
      && Valid() && num.Valid() && div.Valid() && -1 <= shift < 256
      && pn != num.pn && pn != div.pn && num.pn != div.pn
      && ClearBelow(pn[..], shift + 1)
      && n == Times(d, Val()) + num.Val() && num.Val() < Doubled(d, shift + 1)
      && (shift >= 0 ==> div.Val() == Doubled(d, shift))
    }

    method DivRound(num: ArithUint256, div: ArithUint256, shift: nat, ghost n: nat, ghost d: nat)
      requires d > 0 && Dividing(num, div, shift, n, d)
      modifies pn, num.pn, div.pn
      ensures Dividing(num, div, shift - 1, n, d)
    {
      var c := num.CompareTo(div);
      if c >= 0 {
        ghost var q, r := Val(), num.Val();
        Range(num.pn[..]);
        num.SubAssign(div);
        SetBitOf(shift);
        QuotientStep(n, d, q, r, shift);
      } else {
        ClearFewer(pn[..], shift);
      }
      HalfStep(d, shift);
      div.ShiftRightAssign(1);
    }

    /**
     Long division, one bit at a time. It fails exactly for a zero divisor, and then the dividend
     has already been cleared.
     */
    method DivAssign(b: ArithUint256) returns (ok: bool)
      requires Valid() && b.Valid()
      modifies pn
      ensures ok <==> old(b.Val()) != 0
      ensures ok ==> Val() == old(Val()) / old(b.Val())
      ensures !ok ==> Val() == 0
    {
      var div := new ArithUint256.Copy(b);
      var num := new ArithUint256.Copy(this);
      ghost var n, d := Val(), b.Val();
      SetUint64(0);
      var numBits := num.BitCount();
      var divBits := div.BitCount();
      if divBits == 0 {
        return false;
      }
      if divBits > numBits {
        Smaller(n, d);
        return true;
      }
      var shift := numBits - divBits;
      Range(num.pn[..]);
      Aligned(n, d, numBits, divBits);
      div.ShiftLeftAssign(shift);
      ClearStart(pn[..], shift + 1);
      TimesIs(d, 0);
      DivRounds(num, div, shift, n, d);
      ok := true;
    }

    method DivRounds(num: ArithUint256, div: ArithUint256, top: nat, ghost n: nat, ghost d: nat)
      requires d > 0 && Dividing(num, div, top, n, d)
      modifies pn, num.pn, div.pn
      ensures Val() == n / d
    {
      var shift: int := top;
      while shift >= 0
        invariant Dividing(num, div, shift, n, d)
      {
        DivRound(num, div, shift, n, d);
        shift := shift - 1;
      }
      Divided(n, d, Val(), num.Val());
    }

    static lemma Divided(n: nat, d: nat, q: nat, r: nat)
      requires n == Times(d, q) + r && r < d
      ensures n / d == q
    {
      TimesIs(d, q);
      DivUnique(n, d, q, r);
    }

    static lemma ClearStart(s: seq<Limb>, n: nat)
      requires |s| == WIDTH && Value(s) == 0
      ensures ClearBelow(s, n)
    {
      ZeroLimbs(s);
      forall m: nat | m < |s| ensures ClearLimb(s, n, m) {
        if 32 * m < n < 32 * m + 32 { ClearZero(n - 32 * m); }
      }
    }

    static lemma Smaller(n: nat, d: nat)
      requires Bits(d) > Bits(n)
      ensures d > 0 && n / d == 0
    {
      if d <= n { BitsMono(d, n); }
      DivUnique(n, d, 0, n);
    }

    /** The aligned divisor fits, and the dividend is less than twice as large. */
    static lemma Aligned(n: nat, d: nat, b: nat, k: nat)
      requires n < RANGE && b == Bits(n) && k == Bits(d) && 0 < k <= b
      ensures b <= 256 && (d * Pow2(b - k)) % RANGE == Doubled(d, b - k) && n < Doubled(d, b - k + 1)
    {
      BitsBounds(d);
      BitsBounds(n);
      FewBits(n);
      AlignedAt(n, d, b, k);
    }

    static lemma AlignedAt(n: nat, d: nat, b: nat, k: nat)
      requires 0 < k <= b && Pow2(k - 1) <= d < Pow2(k) && n < Pow2(b) <= RANGE
      ensures (d * Pow2(b - k)) % RANGE == Doubled(d, b - k) && n < Doubled(d, b - k + 1)
    {
      PowersUp(d, k, b - k);
      PowersUp(d, k - 1, b - k + 1);
      DoubledIs(d, b - k);
      Small(Doubled(d, b - k));
    }

    static lemma Small(x: int)
      requires 0 <= x < RANGE
      ensures x % RANGE == x
    {
    }

    static lemma FewBits(n: nat)
      requires n < RANGE
      ensures Bits(n) <= 256 && Pow2(Bits(n)) <= RANGE
    {
      RangeIs();
      BitsBounds(n);
      if Bits(n) > 256 { Pow2Mono(256, Bits(n) - 1); }
      Pow2Mono(Bits(n), 256);
    }

    static lemma PowersUp(d: nat, k: nat, shift: nat)
      ensures d < Pow2(k) ==> 0 <= Doubled(d, shift) < Pow2(k + shift)
      ensures Pow2(k) <= d ==> Pow2(k + shift) <= Doubled(d, shift)
      ensures d <= Pow2(k) ==> Doubled(d, shift) <= Pow2(k + shift)
    {
      DoubledLess(Pow2(k), d, shift);
      DoubledOne(k);
      DoubledTwice(1, k, shift);
      DoubledOne(k + shift);
      DoubledLess(d, Pow2(k), shift);
      DoubledIs(d, shift);
      MulLe(0, d, Pow2(shift));
    }

    static lemma QuotientStep(n: int, d: nat, q: nat, r: int, shift: nat)
      requires n == Times(d, q) + r && Doubled(d, shift) <= r < Doubled(d, shift + 1) && r < RANGE && d > 0
      ensures n == Times(d, q + Pow2(shift)) + (r - Doubled(d, shift))
      ensures (r - Doubled(d, shift)) % RANGE == r - Doubled(d, shift) && 0 <= r - Doubled(d, shift) < Doubled(d, shift)
    {
      TimesAdd(d, q, Pow2(shift));
      TimesIs(d, Pow2(shift));
      DoubledIs(d, shift);
      MulLe(0, d, Pow2(shift));
    }

    static lemma HalfStep(d: nat, shift: nat)
      ensures Pow2(1) == 2 && (shift > 0 ==> Doubled(d, shift) / 2 == Doubled(d, shift - 1))
    {
    }
  }
}
