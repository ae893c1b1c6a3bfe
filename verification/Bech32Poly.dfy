/**
 The checksum of Bech32 (BIP 173): a remainder of polynomials over GF(32), six coefficients of
 five bits in one word. It is linear and each step can be undone, which is what makes the
 checksum exist, be unique and detect bursts of errors. A word is the sequence of its bits.
 */
module Bech32Poly {
  import opened Folds

  // ----- Words -----

  type Word = s: seq<bool> | |s| == 30 witness seq(30, i => false)

  const ZERO: Word := seq(30, i => false)

  function Xor(a: Word, b: Word): Word { seq(30, i requires 0 <= i < 30 => a[i] != b[i]) }

  /** Bit i of a number. */
  function BitOf(n: nat, i: nat): bool {
    if i == 0 then n % 2 == 1 else BitOf(n / 2, i - 1)
  }

  function ToWord(n: nat): Word { seq(30, i requires 0 <= i < 30 => BitOf(n, i)) }

  function If(b: bool, n: nat): nat { if b then n else 0 }

  /** The number in the five bits from position 5k on. */
  function Group(w: Word, k: nat): (n: nat)
    requires k < 6
    ensures n < 32
  {
    If(w[5 * k], 1) + If(w[5 * k + 1], 2) + If(w[5 * k + 2], 4) + If(w[5 * k + 3], 8) + If(w[5 * k + 4], 16)
  }

  lemma XorZero(a: Word)
    ensures Xor(a, ZERO) == a && Xor(ZERO, a) == a && Xor(a, a) == ZERO
  {
  }

  lemma XorSwap(a: Word, b: Word, c: Word, d: Word)
    ensures Xor(Xor(a, b), Xor(c, d)) == Xor(Xor(a, c), Xor(b, d))
  {
  }

  /** The bits of a number below 32, and no others. */
  lemma {:induction false} FiveBits(n: nat)
    requires n < 32
    ensures n == If(BitOf(n, 0), 1) + If(BitOf(n, 1), 2) + If(BitOf(n, 2), 4) + If(BitOf(n, 3), 8) + If(BitOf(n, 4), 16)
    ensures forall i :: 5 <= i < 30 ==> !ToWord(n)[i]
  {
    var n1 := n / 2;
    var n2 := n1 / 2;
    var n3 := n2 / 2;
    var n4 := n3 / 2;
    LowBits(n, n1, n2, n3, n4);
    forall i | 5 <= i < 30 ensures !ToWord(n)[i] {
      ZeroBit(i - 5);
      BitsFrom(n, n1, n2, n3, n4, i - 5);
    }
  }

  lemma {:induction false} LowBits(n: nat, n1: nat, n2: nat, n3: nat, n4: nat)
    requires n1 == n / 2 && n2 == n1 / 2 && n3 == n2 / 2 && n4 == n3 / 2
    ensures BitOf(n, 0) == (n % 2 == 1) && BitOf(n, 1) == (n1 % 2 == 1) && BitOf(n, 2) == (n2 % 2 == 1)
    ensures BitOf(n, 3) == (n3 % 2 == 1) && BitOf(n, 4) == (n4 % 2 == 1)
  {
    assert BitOf(n, 1) == BitOf(n1, 0);
    assert BitOf(n, 2) == BitOf(n1, 1) == BitOf(n2, 0);
    assert BitOf(n, 3) == BitOf(n1, 2) == BitOf(n2, 1) == BitOf(n3, 0);
    assert BitOf(n, 4) == BitOf(n1, 3) == BitOf(n2, 2) == BitOf(n3, 1) == BitOf(n4, 0);
  }

  lemma {:induction false} BitsFrom(n: nat, n1: nat, n2: nat, n3: nat, n4: nat, i: nat)
    requires n1 == n / 2 && n2 == n1 / 2 && n3 == n2 / 2 && n4 == n3 / 2
    ensures BitOf(n, i + 5) == BitOf(n4 / 2, i)
  {
    assert BitOf(n, i + 5) == BitOf(n1, i + 4) == BitOf(n2, i + 3) == BitOf(n3, i + 2) == BitOf(n4, i + 1);
  }

  lemma {:induction false} ZeroBit(i: nat)
    ensures !BitOf(0, i)
  {
    if i > 0 { ZeroBit(i - 1); }
  }

  // ----- One step -----

  /** A constant if a bit is set. */
  function Pick(b: bool, k: nat): Word { seq(30, i requires 0 <= i < 30 => b && BitOf(k, i)) }

  /** What the coefficient that is pushed out adds back: a multiple of x^6 modulo the generator. */
  function Reduce(c: Word): Word {
    Xor(Xor(Xor(Xor(Pick(c[25], 0x3b6a57b2), Pick(c[26], 0x26508e6d)), Pick(c[27], 0x1ea119fa)),
            Pick(c[28], 0x3d4233dd)), Pick(c[29], 0x2a1462b3))
  }

  function Shift(c: Word): Word { seq(30, i requires 0 <= i < 30 => i >= 5 && c[i - 5]) }

  /** Times x plus v, modulo the generator. */
  function Step(c: Word, v: Word): Word { Xor(Xor(Shift(c), v), Reduce(c)) }

  lemma PickLinear(a: bool, b: bool, k: nat)
    ensures Pick(a != b, k) == Xor(Pick(a, k), Pick(b, k))
  {
  }

  lemma ReduceLinear(a: Word, b: Word)
    ensures Reduce(Xor(a, b)) == Xor(Reduce(a), Reduce(b))
  {
    var ka, kb := Pick(a[25], 0x3b6a57b2), Pick(b[25], 0x3b6a57b2);
    var la, lb := Pick(a[26], 0x26508e6d), Pick(b[26], 0x26508e6d);
    var ma, mb := Pick(a[27], 0x1ea119fa), Pick(b[27], 0x1ea119fa);
    var na, nb := Pick(a[28], 0x3d4233dd), Pick(b[28], 0x3d4233dd);
    var oa, ob := Pick(a[29], 0x2a1462b3), Pick(b[29], 0x2a1462b3);
    PickLinear(a[25], b[25], 0x3b6a57b2);
    PickLinear(a[26], b[26], 0x26508e6d);
    PickLinear(a[27], b[27], 0x1ea119fa);
    PickLinear(a[28], b[28], 0x3d4233dd);
    PickLinear(a[29], b[29], 0x2a1462b3);
    XorSwap(ka, kb, la, lb);
    XorSwap(Xor(ka, la), Xor(kb, lb), ma, mb);
    XorSwap(Xor(Xor(ka, la), ma), Xor(Xor(kb, lb), mb), na, nb);
    XorSwap(Xor(Xor(Xor(ka, la), ma), na), Xor(Xor(Xor(kb, lb), mb), nb), oa, ob);
  }

  lemma ShiftLinear(a: Word, b: Word)
    ensures Shift(Xor(a, b)) == Xor(Shift(a), Shift(b))
  {
  }

  /** The step of a sum is the sum of the steps. */
  lemma StepLinear(a: Word, b: Word, x: Word, y: Word)
    ensures Step(Xor(a, b), Xor(x, y)) == Xor(Step(a, x), Step(b, y))
  {
    ShiftLinear(a, b);
    ReduceLinear(a, b);
    XorSwap(Shift(a), Shift(b), x, y);
    XorSwap(Xor(Shift(a), x), Xor(Shift(b), y), Reduce(a), Reduce(b));
  }

  /** The lowest five bits of the constants. */
  lemma {:induction false} LowOfConstants()
    ensures !BitOf(0x3b6a57b2, 0) && BitOf(0x3b6a57b2, 1) && !BitOf(0x3b6a57b2, 2) && !BitOf(0x3b6a57b2, 3) &&
      BitOf(0x3b6a57b2, 4)
    ensures BitOf(0x26508e6d, 0) && !BitOf(0x26508e6d, 1) && BitOf(0x26508e6d, 2) && BitOf(0x26508e6d, 3) &&
      !BitOf(0x26508e6d, 4)
    ensures !BitOf(0x1ea119fa, 0) && BitOf(0x1ea119fa, 1) && !BitOf(0x1ea119fa, 2) && BitOf(0x1ea119fa, 3) &&
      BitOf(0x1ea119fa, 4)
    ensures BitOf(0x3d4233dd, 0) && !BitOf(0x3d4233dd, 1) && BitOf(0x3d4233dd, 2) && BitOf(0x3d4233dd, 3) &&
      BitOf(0x3d4233dd, 4)
    ensures BitOf(0x2a1462b3, 0) && BitOf(0x2a1462b3, 1) && !BitOf(0x2a1462b3, 2) && !BitOf(0x2a1462b3, 3) &&
      BitOf(0x2a1462b3, 4)
  {
    LowBits(0x3b6a57b2, 0x1db52bd9, 0x0eda95ec, 0x076d4af6, 0x03b6a57b);
    LowBits(0x26508e6d, 0x13284736, 0x0994239b, 0x04ca11cd, 0x026508e6);
    LowBits(0x1ea119fa, 0x0f508cfd, 0x07a8467e, 0x03d4233f, 0x01ea119f);
    LowBits(0x3d4233dd, 0x1ea119ee, 0x0f508cf7, 0x07a8467b, 0x03d4233d);
    LowBits(0x2a1462b3, 0x150a3159, 0x0a8518ac, 0x05428c56, 0x02a1462b);
  }

  lemma ReduceBit(c: Word, i: nat)
    requires i < 30
    ensures Reduce(c)[i] ==
      (((((c[25] && BitOf(0x3b6a57b2, i)) != (c[26] && BitOf(0x26508e6d, i))) != (c[27] && BitOf(0x1ea119fa, i)))
      != (c[28] && BitOf(0x3d4233dd, i))) != (c[29] && BitOf(0x2a1462b3, i)))
  {
  }

  /** The lowest five bits of what is added back, one by one. */
  lemma LowOfReduce(c: Word)
    ensures Reduce(c)[0] == ((c[26] != c[28]) != c[29])
    ensures Reduce(c)[1] == ((c[25] != c[27]) != c[29])
    ensures Reduce(c)[2] == (c[26] != c[28])
    ensures Reduce(c)[3] == ((c[26] != c[27]) != c[28])
    ensures Reduce(c)[4] == (((c[25] != c[27]) != c[28]) != c[29])
  {
    LowOfConstants();
    ReduceBit(c, 0);
    ReduceBit(c, 1);
    ReduceBit(c, 2);
    ReduceBit(c, 3);
    ReduceBit(c, 4);
  }

  /** A step with nothing added takes only zero to zero: the pushed-out bits show in the lowest five. */
  lemma StepInjective(c: Word)
    requires Step(c, ZERO) == ZERO
    ensures c == ZERO
  {
    StepBit(c, 0);
    StepBit(c, 1);
    StepBit(c, 2);
    StepBit(c, 3);
    StepBit(c, 4);
    TopClear(c);
    NothingBack(c);
    forall i | 0 <= i < 25 ensures !c[i] {
      StepBit(c, i + 5);
      assert Shift(c)[i + 5] == c[i];
    }
  }

  lemma StepBit(c: Word, i: nat)
    requires i < 30 && Step(c, ZERO) == ZERO
    ensures Reduce(c)[i] == Shift(c)[i] && (i < 5 ==> !Reduce(c)[i])
  {
    assert Step(c, ZERO)[i] == ZERO[i];
  }

  lemma TopClear(c: Word)
    requires !Reduce(c)[0] && !Reduce(c)[1] && !Reduce(c)[2] && !Reduce(c)[3] && !Reduce(c)[4]
    ensures !c[25] && !c[26] && !c[27] && !c[28] && !c[29]
  {
    LowOfReduce(c);
  }

  lemma NothingBack(c: Word)
    requires !c[25] && !c[26] && !c[27] && !c[28] && !c[29]
    ensures Reduce(c) == ZERO
  {
  }

  // ----- Folding values -----

  /** The step and the sum, as functions that a proof takes apart only where it says so. */
  datatype Ops = Ops(step: (Word, Word) -> Word, xor: (Word, Word) -> Word)

  const OPS := Ops((c, v) => Step(c, v), (a, b) => Xor(a, b))

  ghost predicate StepIs(o: Ops, c: Word, v: Word) { o.step(c, v) == Step(c, v) }
  ghost predicate XorIs(o: Ops, a: Word, b: Word) { o.xor(a, b) == Xor(a, b) }

  ghost predicate Real(o: Ops) {
    && (forall c, v {:trigger StepIs(o, c, v)} :: StepIs(o, c, v))
    && (forall a, b {:trigger XorIs(o, a, b)} :: XorIs(o, a, b))
  }

  lemma OpsReal()
    ensures Real(OPS)
  {
  }

  lemma OpsLinear(o: Ops)
    requires Real(o)
    ensures Linear(o.step, o.xor)
  {
    forall a, b, x, y ensures LinearAt(o.step, o.xor, a, b, x, y) {
      assert XorIs(o, a, b) && XorIs(o, x, y) && StepIs(o, a, x) && StepIs(o, b, y);
      assert StepIs(o, Xor(a, b), Xor(x, y)) && XorIs(o, Step(a, x), Step(b, y));
      StepLinear(a, b, x, y);
    }
  }

  lemma OpsInjective(o: Ops)
    requires Real(o)
    ensures Injective(o.step, ZERO)
  {
    forall c ensures InjectiveAt(o.step, ZERO, c) {
      assert StepIs(o, c, ZERO);
      if Step(c, ZERO) == ZERO { StepInjective(c); }
      if c == ZERO { StepZero(); }
    }
  }

  lemma StepZero()
    ensures Step(ZERO, ZERO) == ZERO
  {
    NothingBack(ZERO);
  }

  predicate Five(w: Word) {
    forall i :: 5 <= i < 30 ==> !w[i]
  }

  predicate AllFive(ws: seq<Word>) {
    forall i :: 0 <= i < |ws| ==> Five(ws[i])
  }

  /** Up to six values fill the word without being reduced. */
  lemma StepFills(c: Word, v: Word)
    requires Five(v) && forall i :: 25 <= i < 30 ==> !c[i]
    ensures forall i :: 0 <= i < 30 ==> Step(c, v)[i] == if i < 5 then v[i] else c[i - 5]
  {
    NothingBack(c);
    forall i | 0 <= i < 30 ensures Step(c, v)[i] == if i < 5 then v[i] else c[i - 5] {
      assert Step(c, v)[i] == ((Shift(c)[i] != v[i]) != Reduce(c)[i]);
    }
  }

  lemma {:induction false} PackedAt(o: Ops, ws: seq<Word>, i: nat)
    requires Real(o) && |ws| <= 6 && AllFive(ws) && i < 30
    ensures Fold(o.step, ZERO, ws)[i] == (i / 5 < |ws| && ws[|ws| - 1 - i / 5][i % 5])
    decreases |ws|
  {
    if ws != [] {
      var n := |ws| - 1;
      var c := Fold(o.step, ZERO, ws[..n]);
      FoldLast(o.step, ZERO, ws[..n], ws[n]);
      assert ws[..n] + [ws[n]] == ws;
      forall j: nat | 25 <= j < 30 ensures !c[j] { PackedAt(o, ws[..n], j); }
      assert StepIs(o, c, ws[n]);
      StepFills(c, ws[n]);
      if i >= 5 { PackedAt(o, ws[..n], i - 5); }
    }
  }

  // ----- The checksum -----

  const ONE: Word := ToWord(1)

  function Values(v: seq<nat>): (r: seq<Word>)
    ensures |r| == |v|
  {
    seq(|v|, i requires 0 <= i < |v| => ToWord(v[i]))
  }

  /** The remainder, from a given start. */
  function Poly(c: Word, v: seq<nat>): Word {
    Fold(OPS.step, c, Values(v))
  }

  lemma ValuesFive(r: seq<nat>)
    requires forall i :: 0 <= i < |r| ==> r[i] < 32
    ensures AllFive(Values(r))
  {
    forall i | 0 <= i < |r| ensures Five(Values(r)[i]) { FiveBits(r[i]); }
  }

  lemma GroupBit(w: Word, k: nat, b: nat)
    requires k < 6 && b < 5
    ensures BitOf(Group(w, k), b) == w[5 * k + b]
  {
    FiveBits(Group(w, k));
    SameBits(w[5 * k], w[5 * k + 1], w[5 * k + 2], w[5 * k + 3], w[5 * k + 4],
             BitOf(Group(w, k), 0), BitOf(Group(w, k), 1), BitOf(Group(w, k), 2), BitOf(Group(w, k), 3),
             BitOf(Group(w, k), 4));
  }

  lemma SameBits(a0: bool, a1: bool, a2: bool, a3: bool, a4: bool, b0: bool, b1: bool, b2: bool, b3: bool, b4: bool)
    requires If(a0, 1) + If(a1, 2) + If(a2, 4) + If(a3, 8) + If(a4, 16) ==
      If(b0, 1) + If(b1, 2) + If(b2, 4) + If(b3, 8) + If(b4, 16)
    ensures a0 == b0 && a1 == b1 && a2 == b2 && a3 == b3 && a4 == b4
  {
  }

  /** Bit 5k + b of six folded values. */
  lemma FoldedBit(o: Ops, r: seq<nat>, k: nat, b: nat)
    requires Real(o) && |r| == 6 && k < 6 && b < 5 && forall i :: 0 <= i < 6 ==> r[i] < 32
    ensures Fold(o.step, ZERO, Values(r))[5 * k + b] == BitOf(r[5 - k], b)
  {
    ValuesFive(r);
    PackedAt(o, Values(r), 5 * k + b);
    assert (5 * k + b) / 5 == k && (5 * k + b) % 5 == b;
  }

  /** A number below 32 with the bits of a group is the group. */
  lemma GroupOfBits(n: nat, w: Word, k: nat)
    requires n < 32 && k < 6
    requires BitOf(n, 0) == w[5 * k] && BitOf(n, 1) == w[5 * k + 1] && BitOf(n, 2) == w[5 * k + 2]
    requires BitOf(n, 3) == w[5 * k + 3] && BitOf(n, 4) == w[5 * k + 4]
    ensures n == Group(w, k)
  {
    FiveBits(n);
  }

  lemma Unfolded(o: Ops, r: seq<nat>, m: Word, i: nat)
    requires Real(o) && |r| == 6 && i < 6 && (forall i :: 0 <= i < 6 ==> r[i] < 32) &&
      Fold(o.step, ZERO, Values(r)) == m
    ensures r[i] == Group(m, 5 - i)
  {
    var k := 5 - i;
    FoldedBit(o, r, k, 0);
    FoldedBit(o, r, k, 1);
    FoldedBit(o, r, k, 2);
    FoldedBit(o, r, k, 3);
    FoldedBit(o, r, k, 4);
    GroupOfBits(r[i], m, k);
  }

  function Groups(m: Word): (r: seq<nat>)
    ensures |r| == 6 && forall i :: 0 <= i < 6 ==> r[i] < 32
  {
    [Group(m, 5), Group(m, 4), Group(m, 3), Group(m, 2), Group(m, 1), Group(m, 0)]
  }

  lemma GroupsAt(m: Word, k: nat)
    requires k < 6
    ensures Groups(m)[5 - k] == Group(m, k)
  {
  }

  lemma FoldedGroups(o: Ops, m: Word, r: seq<nat>)
    requires Real(o) && r == Groups(m)
    ensures Fold(o.step, ZERO, Values(r)) == m
  {
    var p := Fold(o.step, ZERO, Values(r));
    forall i: nat | i < 30 ensures p[i] == m[i] {
      var k, b := i / 5, i % 5;
      FoldedBit(o, r, k, b);
      GroupsAt(m, k);
      GroupBit(m, k, b);
    }
  }

  /** Six values fold into exactly the word whose groups they are. */
  lemma FoldedExact(o: Ops, r: seq<nat>, m: Word)
    requires Real(o) && |r| == 6 && forall i :: 0 <= i < 6 ==> r[i] < 32
    ensures Fold(o.step, ZERO, Values(r)) == m <==> r == Groups(m)
  {
    if r == Groups(m) { FoldedGroups(o, m, r); }
    if Fold(o.step, ZERO, Values(r)) == m {
      forall i: nat | i < 6 ensures r[i] == Groups(m)[i] {
        Unfolded(o, r, m, i);
        GroupsAt(m, 5 - i);
      }
    }
  }

  /** Values folded from c are those folded from zero on top of zeros folded from c. */
  lemma FoldedOnTop(o: Ops, c: Word, vs: seq<Word>)
    requires Real(o)
    ensures Fold(o.step, c, vs) == o.xor(Fold(o.step, c, Repeat(ZERO, |vs|)), Fold(o.step, ZERO, vs))
  {
    OpsLinear(o);
    FoldLinear(o.step, o.xor, c, ZERO, Repeat(ZERO, |vs|), vs);
    assert XorIs(o, c, ZERO);
    XorZero(c);
    forall i | 0 <= i < |vs| ensures o.xor(ZERO, vs[i]) == vs[i] {
      assert XorIs(o, ZERO, vs[i]);
      XorZero(vs[i]);
    }
    assert Sums(o.xor, Repeat(ZERO, |vs|), vs) == vs;
  }

  /** The six values that make the remainder one. */
  function Checksum(c: Word): (r: seq<nat>)
    ensures |r| == 6 && forall i :: 0 <= i < 6 ==> r[i] < 32
  {
    Groups(Xor(Poly(c, [0, 0, 0, 0, 0, 0]), ONE))
  }

  lemma SixZeros()
    ensures Values([0, 0, 0, 0, 0, 0]) == Repeat(ZERO, 6)
  {
    forall i: nat | i < 30 ensures !ToWord(0)[i] { ZeroBit(i); }
    assert ToWord(0) == ZERO;
  }

  lemma ChecksumFor(o: Ops, c: Word, r: seq<nat>, z: Word)
    requires Real(o) && |r| == 6 && (forall i :: 0 <= i < 6 ==> r[i] < 32) && z == Fold(o.step, c, Repeat(ZERO, 6))
    ensures Fold(o.step, c, Values(r)) == ONE <==> r == Groups(Xor(z, ONE))
  {
    var p := Fold(o.step, ZERO, Values(r));
    FoldedOnTop(o, c, Values(r));
    assert XorIs(o, z, p);
    Solve(z, p, ONE);
    FoldedExact(o, r, Xor(z, ONE));
  }

  /** Six values give remainder one exactly when they are the checksum. */
  lemma ChecksumExact(c: Word, r: seq<nat>)
    requires |r| == 6 && forall i :: 0 <= i < 6 ==> r[i] < 32
    ensures Poly(c, r) == ONE <==> r == Checksum(c)
  {
    OpsReal();
    SixZeros();
    ChecksumFor(OPS, c, r, Poly(c, [0, 0, 0, 0, 0, 0]));
  }

  lemma Solve(z: Word, p: Word, q: Word)
    ensures Xor(z, p) == q <==> p == Xor(z, q)
  {
    if Xor(z, p) == q {
      forall i | 0 <= i < 30 ensures p[i] == Xor(z, q)[i] { assert Xor(z, p)[i] == q[i]; }
    }
    if p == Xor(z, q) {
      forall i | 0 <= i < 30 ensures Xor(z, p)[i] == q[i] { assert p[i] == Xor(z, q)[i]; }
    }
  }

  // ----- Bursts of errors -----

  /** Two lists agree outside six places in a row, and differ. */
  predicate Burst<W(==)>(xs: seq<W>, ys: seq<W>, at: nat) {
    && |xs| == |ys| && at <= |xs| && xs != ys
    && forall i :: 0 <= i < |xs| && !(at <= i < at + 6) ==> xs[i] == ys[i]
  }

  lemma WindowNotZero(o: Ops, w: seq<Word>, k: nat)
    requires Real(o) && |w| <= 6 && AllFive(w) && k < |w| && w[k] != ZERO
    ensures Fold(o.step, ZERO, w) != ZERO
  {
    var b := SetBit(w[k]);
    var i := 5 * (|w| - 1 - k) + b;
    assert i / 5 == |w| - 1 - k && i % 5 == b;
    PackedAt(o, w, i);
    assert !ZERO[i];
  }

  lemma SetBit(w: Word) returns (b: nat)
    requires Five(w) && w != ZERO
    ensures b < 5 && w[b]
  {
    b := if w[0] then 0 else if w[1] then 1 else if w[2] then 2 else if w[3] then 3 else 4;
    if !w[b] { AllClear(w); }
  }

  lemma AllClear(w: Word)
    requires Five(w) && !w[0] && !w[1] && !w[2] && !w[3] && !w[4]
    ensures w == ZERO
  {
  }

  lemma XorIsZero(x: Word, y: Word)
    ensures Xor(x, y) == ZERO <==> x == y
    ensures Five(x) && Five(y) ==> Five(Xor(x, y))
  {
    if Xor(x, y) == ZERO {
      forall i | 0 <= i < 30 ensures x[i] == y[i] { assert Xor(x, y)[i] == ZERO[i]; }
    }
  }

  /** Where the differences of two lists stand. */
  lemma Differences(o: Ops, xs: seq<Word>, ys: seq<Word>, at: nat, end: nat) returns (k: nat)
    requires Real(o) && Burst(xs, ys, at) && AllFive(xs) && AllFive(ys) &&
      end == (if at + 6 < |xs| then at + 6 else |xs|)
    ensures var d := Sums(o.xor, xs, ys);
      && d == Repeat(ZERO, at) + (d[at..end] + Repeat(ZERO, |xs| - end))
      && AllFive(d[at..end]) && k < end - at && d[at..end][k] != ZERO
  {
    var d := Sums(o.xor, xs, ys);
    forall i | 0 <= i < |d| ensures (d[i] == ZERO <==> xs[i] == ys[i]) && Five(d[i]) {
      assert XorIs(o, xs[i], ys[i]);
      XorIsZero(xs[i], ys[i]);
    }
    var i :| 0 <= i < |xs| && xs[i] != ys[i];
    k := i - at;
  }

  lemma BurstInWords(o: Ops, c: Word, xs: seq<Word>, ys: seq<Word>, at: nat)
    requires Real(o) && Burst(xs, ys, at) && AllFive(xs) && AllFive(ys)
    ensures Fold(o.step, c, xs) != Fold(o.step, c, ys)
  {
    var d, end := Sums(o.xor, xs, ys), if at + 6 < |xs| then at + 6 else |xs|;
    var k := Differences(o, xs, ys, at, end);
    WindowNotZero(o, d[at..end], k);
    OpsInjective(o);
    WindowShows(o.step, ZERO, d[at..end], at, |xs| - end);
    OpsLinear(o);
    FoldLinear(o.step, o.xor, c, c, xs, ys);
    var p, q := Fold(o.step, c, xs), Fold(o.step, c, ys);
    assert XorIs(o, c, c) && XorIs(o, p, q);
    XorZero(c);
    XorIsZero(p, q);
  }

  /** A change confined to six consecutive values changes the remainder, at any length. */
  lemma BurstDetected(c: Word, v: seq<nat>, v': seq<nat>, at: nat)
    requires Burst(v, v', at)
    requires forall i :: 0 <= i < |v| ==> v[i] < 32 && v'[i] < 32
    ensures Poly(c, v) != Poly(c, v')
  {
    OpsReal();
    ValuesFive(v);
    ValuesFive(v');
    var i :| 0 <= i < |v| && v[i] != v'[i];
    FiveBits(v[i]);
    FiveBits(v'[i]);
    assert Values(v)[i] != Values(v')[i] by {
      if Values(v)[i] == Values(v')[i] {
        assert forall b :: 0 <= b < 5 ==> Values(v)[i][b] == BitOf(v[i], b) && Values(v')[i][b] == BitOf(v'[i], b);
      }
    }
    BurstInWords(OPS, c, Values(v), Values(v'), at);
  }

  // ----- The generator -----

  /** A five-bit number times a, in GF(32) modulo a^5 + a^3 + 1. */
  function TimesA(n: nat): (r: nat)
    requires n < 32
    ensures r < 32
  {
    if n < 16 then 2 * n else if (n / 4) % 2 == 1 then 2 * n - 39 else 2 * n - 23
  }

  function TimesPower(n: nat, j: nat): (r: nat)
    requires n < 32
    ensures r < 32
  {
    if j == 0 then n else TimesA(TimesPower(n, j - 1))
  }

  /** The generator x^6 + {29}x^5 + {22}x^4 + {20}x^3 + {21}x^2 + {29}x + {18} without its first term, times a^j. */
  function GeneratorTimes(j: nat): nat {
    ((((TimesPower(29, j) * 32 + TimesPower(22, j)) * 32 + TimesPower(20, j)) * 32 + TimesPower(21, j)) * 32
     + TimesPower(29, j)) * 32 + TimesPower(18, j)
  }

  /** The word with one bit. */
  function Only(k: nat): Word { seq(30, i requires 0 <= i < 30 => i == k) }

  /** Bit j of the coefficient that is pushed out adds a^j times the generator. With linearity this is all there is. */
  lemma ReduceIsGenerator(j: nat)
    requires j < 5
    ensures Reduce(Only(25 + j)) == ToWord(GeneratorTimes(j))
  {
    GeneratorNumbers();
    if j == 0 {
      assert Reduce(Only(25)) == ToWord(0x3b6a57b2);
    } else if j == 1 {
      assert Reduce(Only(26)) == ToWord(0x26508e6d);
    } else if j == 2 {
      assert Reduce(Only(27)) == ToWord(0x1ea119fa);
    } else if j == 3 {
      assert Reduce(Only(28)) == ToWord(0x3d4233dd);
    } else {
      assert Reduce(Only(29)) == ToWord(0x2a1462b3);
    }
  }

  lemma GeneratorNumbers()
    ensures GeneratorTimes(0) == 0x3b6a57b2 && GeneratorTimes(1) == 0x26508e6d && GeneratorTimes(2) == 0x1ea119fa
    ensures GeneratorTimes(3) == 0x3d4233dd && GeneratorTimes(4) == 0x2a1462b3
  {
  }

  lemma OneIs()
    ensures ONE == Only(0)
  {
    forall i | 0 < i < 30 ensures !ONE[i] {
      assert BitOf(1, i) == BitOf(0, i - 1);
      ZeroBit(i - 1);
    }
  }
}
