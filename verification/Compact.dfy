/**
 The compact form of 256-bit targets (section 7.7.4 of the Zcash Protocol Specification): a size
 in bytes and a 23-bit mantissa.
 */
module Compact {
  import opened Powers
  import opened Limbs
  import opened LimbShifts
  import opened ArithUint256

  const MANTISSA := 0x0080_0000
  const WORD := 0x0100_0000

  // ----- Decoding -----

  datatype Decoded = Decoded(value: nat, negative: bool, overflow: bool)

  type Code = x: int | 0 <= x < BASE

  function SizeOf(c: Code): nat { c / WORD }

  /** The mantissa, already moved down when the size says that part of it lies below the point. */
  function WordOf(c: Code): nat {
    if SizeOf(c) <= 3 then Halved(c % MANTISSA, 8 * (3 - SizeOf(c))) else c % MANTISSA
  }

  function UpShift(c: Code): nat {
    if SizeOf(c) <= 3 then 0 else 8 * (SizeOf(c) - 3)
  }

  /** The number a code stands for, before it is cut to 256 bits. */
  function Exact(c: Code): nat {
    WordOf(c) * Pow2(UpShift(c))
  }

  function Overflows(c: Code): bool {
    var size, word := SizeOf(c), WordOf(c);
    word != 0 && (size > 34 || (word > 0xff && size > 33) || (word > 0xffff && size > 32))
  }

  function Decode(c: Code): Decoded {
    Decoded(Exact(c) % RANGE, WordOf(c) != 0 && (c / MANTISSA) % 2 == 1, Overflows(c))
  }

  /** The overflow flag is set exactly when the number does not fit, so that an accepted code is exact. */
  lemma OverflowExact(c: Code)
    ensures Decode(c).overflow <==> Exact(c) >= RANGE
    ensures !Decode(c).overflow ==> Decode(c).value == Exact(c)
  {
    var size, word := SizeOf(c), WordOf(c);
    DoubledIs(word, UpShift(c));
    if size <= 3 {
      HalvedBounds(c % MANTISSA, 8 * (3 - size));
    } else {
      Overflow(size, word);
    }
    if !Overflows(c) { ArithUint256.Small(Exact(c)); }
  }

  lemma Overflow(size: nat, word: nat)
    requires size > 3 && word < MANTISSA
    ensures Doubled(word, 8 * (size - 3)) >= RANGE <==>
      word != 0 && (size > 34 || (word > 0xff && size > 33) || (word > 0xffff && size > 32))
  {
    Pow2Of23();
    if size <= 32 {
      Fits(word, 23, 8 * (size - 3));
    } else if size == 33 {
      ByBits(word, 16, 240);
    } else if size == 34 {
      ByBits(word, 8, 248);
    } else {
      Beyond(word, 0, 8 * (size - 3));
    }
  }

  lemma Pow2Of23()
    ensures Pow2(23) == MANTISSA && Pow2(16) == 0x1_0000 && Pow2(8) == 0x100 && Pow2(0) == 1
  {
    Pow2Add(8, 8);
    Pow2Add(16, 7);
    assert Pow2(7) == 128;
  }

  lemma ByBits(x: nat, k: nat, shift: nat)
    requires k + shift == 256
    ensures Doubled(x, shift) >= RANGE <==> x >= Pow2(k)
  {
    RangeIs();
    ArithUint256.PowersUp(x, k, shift);
  }

  lemma Fits(x: nat, k: nat, shift: nat)
    requires x < Pow2(k) && k + shift <= 256
    ensures Doubled(x, shift) < RANGE
  {
    RangeIs();
    Pow2Mono(k + shift, 256);
    ArithUint256.PowersUp(x, k, shift);
  }

  lemma Beyond(x: nat, k: nat, shift: nat)
    requires k + shift >= 256
    ensures x >= Pow2(k) ==> Doubled(x, shift) >= RANGE
    ensures x == 0 ==> Doubled(x, shift) == 0
  {
    RangeIs();
    Pow2Mono(256, k + shift);
    ArithUint256.PowersUp(x, k, shift);
    DoubledIs(0, shift);
  }

  /** Puts the decoded number into a; a null flag pointer is a result not used. */
  method SetCompact(a: ArithUint256, nCompact: Code) returns (fNegative: bool, fOverflow: bool)
    requires a.Valid()
    modifies a.pn
    ensures Decoded(a.Val(), fNegative, fOverflow) == Decode(nCompact)
  {
    var nSize := nCompact / WORD;
    var nWord: nat := nCompact % MANTISSA;
    if nSize <= 3 {
      ExactSmall(nCompact);
      nWord := Halved(nWord, 8 * (3 - nSize));
      a.SetUint64(nWord);
    } else {
      a.SetUint64(nWord);
      a.ShiftLeftAssign(8 * (nSize - 3));
    }
    assert nWord == WordOf(nCompact) && a.Val() == Decode(nCompact).value;
    fNegative := nWord != 0 && (nCompact / MANTISSA) % 2 == 1;
    fOverflow := nWord != 0 && (nSize > 34 || (nWord > 0xff && nSize > 33) || (nWord > 0xffff && nSize > 32));
  }

  lemma ExactSmall(c: Code)
    requires SizeOf(c) <= 3
    ensures WordOf(c) < MANTISSA && Exact(c) % RANGE == WordOf(c)
  {
    HalvedBounds(c % MANTISSA, 8 * (3 - SizeOf(c)));
    assert Pow2(0) == 1;
    ArithUint256.Small(WordOf(c));
  }

  // ----- Encoding -----

  /** The number of bytes that leave room for a sign bit. */
  function Bytes(x: nat): nat {
    if x == 0 then 0 else Bits(x) / 8 + 1
  }

  /** The highest three of size bytes; missing ones are filled up with zeros below. */
  function TopBytes(x: nat, size: nat): int {
    if size <= 3 then Doubled(x, 8 * (3 - size)) else Halved(x, 8 * (size - 3))
  }

  function Mantissa(x: nat): int {
    TopBytes(x, Bytes(x))
  }

  function Encode(x: nat): int {
    Bytes(x) * WORD + Mantissa(x)
  }

  /** What is left of a number in compact form. */
  function Kept(x: nat): int {
    if Bytes(x) <= 3 then x else Doubled(Halved(x, 8 * (Bytes(x) - 3)), 8 * (Bytes(x) - 3))
  }

  lemma {:induction false} HalvedMore(x: nat, m: nat, n: nat)
    ensures Halved(x, m + n) == Halved(Halved(x, m), n)
  {
    if n > 0 { HalvedMore(x, m, n - 1); }
  }

  /** A number of b bits, moved up or down. */
  lemma MovedUp(x: nat, b: nat, n: nat)
    requires b > 0 && Pow2(b - 1) <= x < Pow2(b)
    ensures Pow2(b - 1 + n) <= Doubled(x, n) < Pow2(b + n)
  {
    ArithUint256.PowersUp(x, b, n);
    ArithUint256.PowersUp(x, b - 1, n);
  }

  lemma MovedDown(x: nat, b: nat, n: nat)
    requires n < b && Pow2(b - 1) <= x < Pow2(b)
    ensures Pow2(b - 1 - n) <= Halved(x, n) < Pow2(b - n)
  {
    HalvedBounds(x, n);
    var h := Halved(x, n);
    ArithUint256.PowersUp(h, b - n, n);
    DoubledAdd(h, 1, n);
    DoubledOne(n);
    ArithUint256.PowersUp(h + 1, b - 1 - n, n);
  }

  lemma TopBits(x: nat, size: nat, e: int)
    requires x > 0 && e == Bits(x) + 24 - 8 * size && 16 <= e <= 24
    ensures 0x8000 <= TopBytes(x, size) < WORD
    ensures TopBytes(x, size) >= MANTISSA <==> e == 24
  {
    var b := Bits(x);
    BitsBounds(x);
    if size <= 3 { MovedUp(x, b, 8 * (3 - size)); } else { MovedDown(x, b, 8 * (size - 3)); }
    BitsOf(TopBytes(x, size), e);
  }

  lemma BitsOf(word: int, e: nat)
    requires 16 <= e <= 24 && Pow2(e - 1) <= word < Pow2(e)
    ensures 0x8000 <= word < WORD && (word >= MANTISSA <==> e == 24)
  {
    Pow2Of23();
    Pow2Of15();
    Pow2Mono(15, e - 1);
    if e < 24 { Pow2Mono(e, 23); } else { assert Pow2(24) == 2 * Pow2(23); }
  }

  /** The mantissa uses its 23 bits but for at most one byte. */
  lemma MantissaFits(x: nat)
    ensures 0 <= Mantissa(x) < MANTISSA
    ensures x > 0 ==> Mantissa(x) >= 0x8000
  {
    if x == 0 {
      DoubledIs(0, 24);
    } else {
      TopBits(x, Bytes(x), Bits(x) + 24 - 8 * Bytes(x));
      assert Mantissa(x) == TopBytes(x, Bytes(x));
    }
  }

  lemma Pow2Of15()
    ensures Pow2(15) == 0x8000
  {
    Pow2Add(8, 7);
    assert Pow2(7) == 128 && Pow2(8) == 256;
  }

  /** The code in two steps: the highest three bytes, moved down by one if the sign bit would be hit. */
  lemma EncodeSteps(x: nat, size: nat, word: int)
    requires size == (Bits(x) + 7) / 8 && word == TopBytes(x, size)
    ensures 0 <= word < WORD
    ensures Mantissa(x) == if word >= MANTISSA then word / 256 else word
    ensures Bytes(x) == if word >= MANTISSA then size + 1 else size
  {
    if x == 0 {
      EncodeZero();
    } else {
      BitsBounds(x);
      var e := ByteCount(Bits(x), size);
      TopBits(x, size, e);
      OneByteDown(x, size);
      assert Bytes(x) == if e == 24 then size + 1 else size;
    }
  }

  /** How many bits stand in the highest byte, and when there is room for a sign bit. */
  lemma ByteCount(b: nat, size: nat) returns (e: nat)
    requires b > 0 && size == (b + 7) / 8
    ensures size > 0 && e == b + 24 - 8 * size && 17 <= e <= 24
    ensures b / 8 + 1 == if e == 24 then size + 1 else size
  {
    e := b + 24 - 8 * size;
  }

  lemma OneByteDown(x: nat, size: nat)
    ensures TopBytes(x, size + 1) == TopBytes(x, size) / 256
  {
    Pow2Of23();
    if size <= 2 {
      DoubledTwice(x, 8 * (2 - size), 8);
      DoubledIs(Doubled(x, 8 * (2 - size)), 8);
    } else {
      HalvedMore(x, 8 * (size - 3), 8);
      HalvedIs(Halved(x, 8 * (size - 3)), 8);
    }
  }

  /** The highest three bytes of a number of nSize bytes. */
  method TopWord(a: ArithUint256, nSize: nat) returns (word: int)
    requires a.Valid() && nSize == (Bits(a.Val()) + 7) / 8
    ensures word == TopBytes(a.Val(), nSize)
  {
    LowIsAll(a.Val(), nSize);
    if nSize <= 3 {
      var low := a.GetLow64();
      word := Doubled(low, 8 * (3 - nSize));
    } else {
      var bn := new ArithUint256.Copy(a);
      bn.ShiftRightAssign(8 * (nSize - 3));
      word := bn.GetLow64();
    }
  }

  /** The part that is read fits 64 bits. */
  lemma LowIsAll(x: nat, size: nat)
    requires size == (Bits(x) + 7) / 8
    ensures size <= 3 ==> x % (BASE * BASE) == x
    ensures size > 3 ==> (x / Pow2(8 * (size - 3))) % (BASE * BASE) == TopBytes(x, size)
  {
    if size <= 3 {
      SmallLow(x);
      Low64(x);
    } else {
      HalvedIs(x, 8 * (size - 3));
      EncodeSteps(x, size, TopBytes(x, size));
      Low64(TopBytes(x, size));
    }
  }

  lemma Low64(v: int)
    requires 0 <= v < WORD
    ensures v % (BASE * BASE) == v
  {
  }

  lemma SignBit(word: int)
    requires 0 <= word < WORD
    ensures (word / MANTISSA) % 2 == 1 <==> word >= MANTISSA
  {
  }

  /** Size and highest bytes in one word, the sign bit still clear. */
  method SizeAndWord(a: ArithUint256) returns (nCompact: int)
    requires a.Valid()
    ensures nCompact == Encode(a.Val())
  {
    ghost var x := a.Val();
    Range(a.pn[..]);
    var bits := a.BitCount();
    var nSize := (bits + 7) / 8;
    nCompact := TopWord(a, nSize);
    EncodeSteps(x, nSize, nCompact);
    SignBit(nCompact);
    if (nCompact / MANTISSA) % 2 == 1 {
      nCompact := nCompact / 256;
      nSize := nSize + 1;
    }
    MantissaFits(x);
    assert 0 <= nCompact < MANTISSA;
    ArithUint256.FewBits(x);
    assert nSize < 256;
    JoinCode(nSize, nCompact);
    nCompact := Or(nCompact, Doubled(nSize, 24));
  }

  lemma OnlyZeroIsEmpty(x: nat)
    requires x < RANGE
    ensures Encode(x) % MANTISSA != 0 <==> x > 0
  {
    EncodeFields(x);
    MantissaFits(x);
    if x == 0 { EncodeZero(); }
  }

  method GetCompact(a: ArithUint256, fNegative: bool) returns (nCompact: int)
    requires a.Valid()
    ensures nCompact == EncodeSigned(a.Val(), fNegative)
  {
    Range(a.pn[..]);
    OnlyZeroIsEmpty(a.Val());
    nCompact := SizeAndWord(a);
    if fNegative && nCompact % MANTISSA != 0 {
      nCompact := nCompact + MANTISSA;
    }
  }

  lemma JoinCode(size: nat, word: int)
    requires 0 <= word < MANTISSA
    ensures Doubled(size, 24) >= 0 && Or(word, Doubled(size, 24)) == size * WORD + word
  {
    Pow2Of23();
    assert Pow2(24) == 2 * Pow2(23);
    OrDisjoint(size, word, 24);
    DoubledIs(size, 24);
  }

  lemma EncodeZero()
    ensures Bits(0) == 0 && Encode(0) == 0 && Doubled(0, 24) == 0
  {
    DoubledIs(0, 24);
  }

  lemma SmallLow(x: nat)
    ensures Bits(x) <= 24 ==> x < WORD
  {
    BitsBounds(x);
    Pow2Of23();
    assert Pow2(24) == 2 * Pow2(23);
    if Bits(x) <= 24 { Pow2Mono(Bits(x), 24); }
  }

  // ----- What the compact form keeps -----

  /** The code with the sign bit, which zero never has. */
  function EncodeSigned(x: nat, negative: bool): int {
    Encode(x) + if negative && x > 0 then MANTISSA else 0
  }

  /** A code is within 32 bits, and its fields are the size and the mantissa. */
  lemma EncodeFields(x: nat)
    requires x < RANGE
    ensures 0 <= Encode(x) < BASE
    ensures SizeOf(Encode(x)) == Bytes(x) && Encode(x) % MANTISSA == Mantissa(x) && (Encode(x) / MANTISSA) % 2 == 0
    ensures Bytes(x) <= 33
  {
    MantissaFits(x);
    ArithUint256.FewBits(x);
    SplitCode(Bytes(x), Mantissa(x));
  }

  lemma SplitCode(size: nat, word: int)
    requires size < 256 && 0 <= word < MANTISSA
    ensures var c := size * WORD + word;
      0 <= c < BASE && c / WORD == size && c % MANTISSA == word && (c / MANTISSA) % 2 == 0
  {
    assert size * WORD + word == (2 * size) * MANTISSA + word;
  }

  /** Decoding an encoded number gives the number rounded down, with neither flag set. */
  lemma DecodeEncode(x: nat)
    requires x < RANGE
    ensures 0 <= Encode(x) < BASE && Kept(x) >= 0
    ensures Decode(Encode(x)) == Decoded(Kept(x), false, false)
  {
    var c, s := Encode(x), Bytes(x);
    EncodeFields(x);
    MantissaFits(x);
    if s <= 3 {
      HalvedOf(x, 8 * (3 - s));
      assert Pow2(0) == 1;
    } else {
      DoubledIs(Halved(x, 8 * (s - 3)), 8 * (s - 3));
      RoundsDown(x);
    }
    OverflowExact(c);
  }

  lemma SignAside(c: int)
    requires 0 <= c < BASE && (c / MANTISSA) % 2 == 0
    ensures c + MANTISSA < BASE && SizeOf(c + MANTISSA) == SizeOf(c) && (c + MANTISSA) % MANTISSA == c % MANTISSA
    ensures ((c + MANTISSA) / MANTISSA) % 2 == 1
  {
  }

  /** The sign comes back with the number, unless it is zero. */
  lemma DecodeEncodeSigned(x: nat, negative: bool)
    requires x < RANGE
    ensures 0 <= EncodeSigned(x, negative) < BASE && Kept(x) >= 0
    ensures Decode(EncodeSigned(x, negative)) == Decoded(Kept(x), negative && x > 0, false)
  {
    DecodeEncode(x);
    EncodeFields(x);
    SignAside(Encode(x));
    OverflowExact(Encode(x));
    RoundsDown(x);
    if x > 0 {
      BitsBounds(x);
      BitsBounds(Kept(x));
      assert WordOf(Encode(x)) != 0;
    }
  }

  /** Encoding rounds down and loses less than one part in 2^15. */
  lemma RoundsDown(x: nat)
    ensures 0 <= Kept(x) <= x && (x - Kept(x)) * 0x8000 <= x
    ensures Bits(Kept(x)) == Bits(x)
  {
    var s := Bytes(x);
    if s > 3 {
      var n, h, b := 8 * (s - 3), Halved(x, 8 * (s - 3)), Bits(x);
      HalvedBounds(x, n);
      BitsBounds(x);
      MovedDown(x, b, n);
      ArithUint256.PowersUp(h, b - 1 - n, n);
      ArithUint256.PowersUp(h, b - n, n);
      BitsUnique(Kept(x), b);
      Pow2Of15();
      Pow2Add(n, 15);
      Pow2Mono(n + 15, b - 1);
    }
  }

  /** Encoding what was kept gives the same code again. */
  lemma EncodeStable(x: nat)
    ensures Kept(x) >= 0 && Encode(Kept(x)) == Encode(x) && Kept(Kept(x)) == Kept(x)
  {
    RoundsDown(x);
    var s := Bytes(x);
    if s > 3 { HalvedOf(Halved(x, 8 * (s - 3)), 8 * (s - 3)); }
  }

  lemma {:induction false} HalvedMono(x: nat, y: nat, n: nat)
    requires x <= y
    ensures Halved(x, n) <= Halved(y, n)
  {
    if n > 0 { HalvedMono(x, y, n - 1); }
  }

  /** Rounding keeps the order, and codes compare like the numbers they come from. */
  lemma EncodeMonotone(x: nat, y: nat)
    requires x <= y
    ensures Kept(x) <= Kept(y) && Encode(x) <= Encode(y)
  {
    var s, t := Bytes(x), Bytes(y);
    BitsMono(x, y);
    RoundsDown(x);
    RoundsDown(y);
    MantissaFits(x);
    MantissaFits(y);
    if s == t {
      if s > 3 {
        HalvedMono(x, y, 8 * (s - 3));
        DoubledLess(Halved(y, 8 * (s - 3)), Halved(x, 8 * (s - 3)), 8 * (s - 3));
      } else {
        DoubledLess(y, x, 8 * (3 - s));
      }
    } else if x > 0 {
      BitsBounds(x);
      BitsBounds(Kept(y));
      Pow2Mono(Bits(x), Bits(y) - 1);
    }
  }

  // ----- The fields of a code -----

  lemma {:induction false} BytesPower(n: nat)
    ensures Pow2(8 * n) == Pow(256, n)
  {
    if n > 0 {
      BytesPower(n - 1);
      Pow2Of23();
      Pow2Add(8, 8 * (n - 1));
    }
  }

  lemma FieldsOf(c: Code, size: nat, sign: nat, m: nat)
    requires sign < 2 && m < 0x80_0000 && c == size * 0x100_0000 + sign * 0x80_0000 + m
    ensures SizeOf(c) == size && c % MANTISSA == m && (c / MANTISSA) % 2 == sign
  {
  }

  /** A code is a size, a sign and a mantissa, which counts 256 to the power of the size less three. */
  lemma ExactIs(c: Code, size: nat, sign: nat, m: nat)
    requires sign < 2 && m < 0x80_0000 && c == size * 0x100_0000 + sign * 0x80_0000 + m
    ensures size >= 3 ==> Exact(c) == m * Pow(256, size - 3)
    ensures size < 3 ==> Exact(c) == m / Pow(256, 3 - size)
    ensures Decode(c).negative <==> sign == 1 && Exact(c) > 0
  {
    FieldsOf(c, size, sign, m);
    BytesPower(if size >= 3 then size - 3 else 3 - size);
    Pow2Of23();
    if size <= 3 {
      HalvedIs(m, 8 * (3 - size));
    } else {
      DoubledIs(m, 8 * (size - 3));
      MulLe(1, Pow2(8 * (size - 3)), m);
    }
  }
}
