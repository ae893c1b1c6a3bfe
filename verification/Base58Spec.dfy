/**
 Base58: a byte string is read as a number in base 256 and written in base 58, each leading zero
 byte as a leading 1. Buffers are sized in advance by a fraction of the input's length.
 */
module Base58Spec {
  import opened Basics
  import opened Powers

  type Byte = x: int | 0 <= x < 256

  /** The characters of a C string: anything but the terminating zero. */
  type Char = x: int | 0 < x < 256 witness 1

  // ----- The alphabet -----

  /** The character of a digit; 0, I, O and l are left out. */
  function CharOf(v: nat): Char
    requires v < 58
  {
    if v < 9 then v + '1' as int
    else if v < 17 then v - 9 + 'A' as int
    else if v < 22 then v - 17 + 'J' as int
    else if v < 33 then v - 22 + 'P' as int
    else if v < 44 then v - 33 + 'a' as int
    else v - 44 + 'm' as int
  }

  /** The digit of a character, or -1. */
  function DigitOf(c: Char): (r: int)
    ensures -1 <= r < 58
  {
    if '1' as int <= c <= '9' as int then c - '1' as int
    else if 'A' as int <= c <= 'H' as int then c - 'A' as int + 9
    else if 'J' as int <= c <= 'N' as int then c - 'J' as int + 17
    else if 'P' as int <= c <= 'Z' as int then c - 'P' as int + 22
    else if 'a' as int <= c <= 'k' as int then c - 'a' as int + 33
    else if 'm' as int <= c <= 'z' as int then c - 'm' as int + 44
    else -1
  }

  predicate IsSpace(c: Char) { c == 32 || 9 <= c <= 13 }

  lemma DigitOfChar(v: nat)
    requires v < 58
    ensures DigitOf(CharOf(v)) == v && !IsSpace(CharOf(v)) && (CharOf(v) == '1' as int <==> v == 0)
  {
  }

  lemma CharOfDigit(c: Char)
    requires DigitOf(c) >= 0
    ensures CharOf(DigitOf(c)) == c && !IsSpace(c) && (c == '1' as int <==> DigitOf(c) == 0)
  {
  }

  // ----- Numbers in two bases -----

  datatype Base = B58 | B256

  function Size(b: Base): (r: nat)
    ensures r > 1
  {
    if b == B58 then 58 else 256
  }

  /** x times the base, and its quotient and remainder. */
  function Scale(b: Base, x: int): int { if b == B58 then 58 * x else 256 * x }
  function Quotient(b: Base, x: int): int { if b == B58 then x / 58 else x / 256 }
  function Remainder(b: Base, x: int): int { if b == B58 then x % 58 else x % 256 }

  predicate DigitsOk(b: Base, ds: seq<int>) { forall i :: 0 <= i < |ds| ==> 0 <= ds[i] < Size(b) }

  /** The number that digits stand for, highest first. */
  function Value(b: Base, ds: seq<int>): int {
    if ds == [] then 0 else Scale(b, Value(b, ds[..|ds| - 1])) + ds[|ds| - 1]
  }

  /** x times the base to the power n. */
  function Raise(b: Base, x: int, n: nat): int {
    if n == 0 then x else Scale(b, Raise(b, x, n - 1))
  }

  lemma {:induction false} RaiseIs(b: Base, n: nat)
    ensures Raise(b, 1, n) == Pow(Size(b), n)
  {
    if n > 0 { RaiseIs(b, n - 1); }
  }

  lemma {:induction false} RaisePositive(b: Base, x: int, n: nat)
    ensures x <= 0 ==> Raise(b, x, n) <= 0
    ensures x >= 1 ==> Raise(b, x, n) >= Raise(b, 1, n)
  {
    if n > 0 { RaisePositive(b, x, n - 1); }
  }

  lemma {:induction false} ValueBound(b: Base, ds: seq<int>)
    requires DigitsOk(b, ds)
    ensures 0 <= Value(b, ds) < Raise(b, 1, |ds|)
    decreases |ds|
  {
    if ds != [] { ValueBound(b, ds[..|ds| - 1]); }
  }

  // ----- The shortest digits of a number -----

  function Digits(b: Base, v: nat): (ds: seq<int>)
    ensures DigitsOk(b, ds) && (ds != [] ==> ds[0] != 0)
    decreases v
  {
    if v == 0 then []
    else Digits(b, Quotient(b, v)) + [Remainder(b, v)]
  }

  lemma {:induction false} ValueOfDigits(b: Base, v: nat)
    ensures Value(b, Digits(b, v)) == v
    decreases v
  {
    if v > 0 {
      var q := Quotient(b, v);
      ValueOfDigits(b, q);
      assert Digits(b, v)[..|Digits(b, v)| - 1] == Digits(b, q);
    }
  }

  lemma {:induction false} DigitsStep(b: Base, q: nat, d: int, v: int)
    requires 0 <= d < Size(b) && v == Scale(b, q) + d && v > 0
    ensures Digits(b, v) == Digits(b, q) + [d]
  {
    assert Quotient(b, v) == q && Remainder(b, v) == d;
  }

  lemma {:induction false} ValuePositive(b: Base, ds: seq<int>)
    requires DigitsOk(b, ds) && ds != [] && ds[0] != 0
    ensures Value(b, ds) > 0
    decreases |ds|
  {
    if |ds| > 1 { ValuePositive(b, ds[..|ds| - 1]); }
  }

  /** Digits without a leading zero are the shortest for their value. */
  lemma {:induction false} DigitsOfValue(b: Base, ds: seq<int>)
    requires DigitsOk(b, ds) && (ds != [] ==> ds[0] != 0)
    ensures Value(b, ds) >= 0 && Digits(b, Value(b, ds)) == ds
    decreases |ds|
  {
    if ds != [] {
      var n := |ds| - 1;
      DigitsOfValue(b, ds[..n]);
      ValuePositive(b, ds);
      DigitsStep(b, Value(b, ds[..n]), ds[n], Value(b, ds));
      assert ds == ds[..n] + [ds[n]];
    }
  }

  function LeadingZeros(ds: seq<int>): (n: nat)
    ensures n <= |ds| && (forall i :: 0 <= i < n ==> ds[i] == 0) && (n < |ds| ==> ds[n] != 0)
  {
    if ds == [] || ds[0] != 0 then 0 else 1 + LeadingZeros(ds[1..])
  }

  lemma {:induction false} ValueDropZero(b: Base, ds: seq<int>, n: nat)
    requires n <= |ds| && forall i :: 0 <= i < n ==> ds[i] == 0
    ensures Value(b, ds[n..]) == Value(b, ds)
    decreases |ds|
  {
    if n == |ds| {
      if n > 0 { ValueDropZero(b, ds[..n - 1], n - 1); }
    } else {
      ValueDropZero(b, ds[..|ds| - 1], n);
      assert ds[n..][..|ds| - n - 1] == ds[..|ds| - 1][n..];
    }
  }

  /** Dropping the leading zeros of a buffer leaves the shortest digits of its value. */
  lemma StrippedIs(b: Base, ds: seq<int>)
    requires DigitsOk(b, ds)
    ensures Value(b, ds) >= 0 && ds[LeadingZeros(ds)..] == Digits(b, Value(b, ds))
  {
    var n := LeadingZeros(ds);
    ValueDropZero(b, ds, n);
    DigitsOfValue(b, ds[n..]);
  }

  // ----- One round: a buffer times a factor plus a digit -----

  datatype Carried = Carried(digits: seq<int>, out: int)

  function MulAdd(b: Base, m: Base, ds: seq<int>, carry: int): (r: Carried)
    ensures |r.digits| == |ds|
    decreases |ds|
  {
    if ds == [] then Carried([], carry)
    else
      var n := |ds| - 1;
      var t := carry + Scale(m, ds[n]);
      var r := MulAdd(b, m, ds[..n], Quotient(b, t));
      Carried(r.digits + [Remainder(b, t)], r.out)
  }

  lemma CarryStep(b: Base, m: Base, front: int, last: int, carry: int, t: int, rest: int, out: int)
    requires t == carry + Scale(m, last) && rest + out == Scale(m, front) + Quotient(b, t)
    ensures Scale(b, rest) + Remainder(b, t) + Scale(b, out) == Scale(m, Scale(b, front) + last) + carry
  {
  }

  lemma Appended(b: Base, ds: seq<int>, d: int)
    ensures Value(b, ds + [d]) == Scale(b, Value(b, ds)) + d
  {
    assert (ds + [d])[..|ds|] == ds;
  }

  lemma {:induction false} MulAddDigits(b: Base, m: Base, ds: seq<int>, carry: int)
    requires carry >= 0 && DigitsOk(b, ds)
    ensures DigitsOk(b, MulAdd(b, m, ds, carry).digits) && MulAdd(b, m, ds, carry).out >= 0
    decreases |ds|
  {
    if ds != [] {
      var n := |ds| - 1;
      MulAddDigits(b, m, ds[..n], Quotient(b, carry + Scale(m, ds[n])));
    }
  }

  lemma {:induction false} MulAddValue(b: Base, m: Base, ds: seq<int>, carry: int)
    ensures var r := MulAdd(b, m, ds, carry);
      Value(b, r.digits) + Raise(b, r.out, |ds|) == Scale(m, Value(b, ds)) + carry
    decreases |ds|
  {
    if ds != [] {
      var n := |ds| - 1;
      var t := carry + Scale(m, ds[n]);
      var r := MulAdd(b, m, ds[..n], Quotient(b, t));
      MulAddValue(b, m, ds[..n], Quotient(b, t));
      CarryStep(b, m, Value(b, ds[..n]), ds[n], carry, t, Value(b, r.digits), Raise(b, r.out, n));
      Appended(b, r.digits, Remainder(b, t));
    }
  }

  /** When the result fits the buffer nothing is carried out of it. */
  lemma NothingOut(b: Base, m: Base, ds: seq<int>, carry: int)
    requires carry >= 0 && DigitsOk(b, ds) && Scale(m, Value(b, ds)) + carry < Raise(b, 1, |ds|)
    ensures var r := MulAdd(b, m, ds, carry);
      r.out == 0 && DigitsOk(b, r.digits) && Value(b, r.digits) == Scale(m, Value(b, ds)) + carry
  {
    MulAddValue(b, m, ds, carry);
    MulAddDigits(b, m, ds, carry);
    var r := MulAdd(b, m, ds, carry);
    ValueBound(b, r.digits);
    RaisePositive(b, r.out, |ds|);
    ZeroRaised(b, |ds|);
  }

  lemma {:induction false} ZeroRaised(b: Base, n: nat)
    ensures Raise(b, 0, n) == 0
  {
    if n > 0 { ZeroRaised(b, n - 1); }
  }

  // ----- The buffers are large enough -----

  function Room58(n: nat): nat { n * 138 / 100 + 1 }
  function Room256(n: nat): nat { n * 733 / 1000 + 1 }

  lemma Fits58(n: nat)
    ensures Raise(B256, 1, n) <= Raise(B58, 1, Room58(n))
  {
    RaiseIs(B256, n);
    RaiseIs(B58, Room58(n));
    EightInEleven();
    RoomFor(256, 58, 11, 8, n, Room58(n), n * 8, 11 * n, Room58(n) * 8);
  }

  lemma EightInEleven()
    ensures Pow(256, 8) <= Pow(58, 11)
  {
    assert Pow(256, 4) == 4294967296;
    PowAdd(256, 4, 4);
    assert Pow(58, 5) == 656356768;
    assert Pow(58, 6) == 38068692544;
    PowAdd(58, 5, 6);
  }

  lemma Fits256(n: nat)
    ensures Raise(B58, 1, n) <= Raise(B256, 1, Room256(n))
  {
    RaiseIs(B58, n);
    RaiseIs(B256, Room256(n));
    SeventyOneInFiftyTwo();
    RoomFor(58, 256, 52, 71, n, Room256(n), n * 71, 52 * n, Room256(n) * 71);
  }

  lemma {:induction false} RaiseMore(b: Base, x: int, m: nat, n: nat)
    ensures Raise(b, x, m + n) == Raise(b, Raise(b, x, m), n)
    decreases n
  {
    if n > 0 { RaiseMore(b, x, m, n - 1); }
  }

  lemma {:induction false} Ten58(x: int)
    ensures Raise(B58, x, 10) == 430804206899405824 * x
  {
    assert Raise(B58, x, 1) == 58 * x;
    assert Raise(B58, x, 2) == 3364 * x;
    assert Raise(B58, x, 3) == 195112 * x;
    assert Raise(B58, x, 4) == 11316496 * x;
    assert Raise(B58, x, 5) == 656356768 * x;
    assert Raise(B58, x, 6) == 38068692544 * x;
    assert Raise(B58, x, 7) == 2207984167552 * x;
    assert Raise(B58, x, 8) == 128063081718016 * x;
    assert Raise(B58, x, 9) == 7427658739644928 * x;
    assert Raise(B58, x, 10) == 430804206899405824 * x;
  }

  lemma {:induction false} Ten256(x: int)
    ensures Raise(B256, x, 10) == 1208925819614629174706176 * x
  {
    assert Raise(B256, x, 1) == 256 * x;
    assert Raise(B256, x, 2) == 65536 * x;
    assert Raise(B256, x, 3) == 16777216 * x;
    assert Raise(B256, x, 4) == 4294967296 * x;
    assert Raise(B256, x, 5) == 1099511627776 * x;
    assert Raise(B256, x, 6) == 281474976710656 * x;
    assert Raise(B256, x, 7) == 72057594037927936 * x;
    assert Raise(B256, x, 8) == 18446744073709551616 * x;
    assert Raise(B256, x, 9) == 4722366482869645213696 * x;
    assert Raise(B256, x, 10) == 1208925819614629174706176 * x;
  }

  lemma {:induction false} Power58()
    ensures Raise(B58, 1, 71) ==
      6392630665487523829925705590507004456832030712891733088851577912861189652777515686114891080333114973618176
      * 430804206899405824 * 58
  {
    RaiseMore(B58, 1, 0, 10);
    Ten58(1);
    RaiseMore(B58, 1, 10, 10);
    Ten58(430804206899405824);
    RaiseMore(B58, 1, 20, 10);
    Ten58(185592264682226060569122324245118976);
    RaiseMore(B58, 1, 30, 10);
    Ten58(79953928393091004080532279173738402825689466587316224);
    RaiseMore(B58, 1, 40, 10);
    Ten58(34444488709877454747081479018851205589883534409595458615323760395288576);
    RaiseMore(B58, 1, 50, 10);
    Ten58(14838830640714294999983396511843381888381117770762056659674968992599706869653743415066624);
    RaiseMore(B58, 1, 60, 10);
    Ten58(6392630665487523829925705590507004456832030712891733088851577912861189652777515686114891080333114973618176);
    RaiseMore(B58, 1, 70, 1);
  }

  lemma {:induction false} Power256()
    ensures Raise(B256, 1, 52) ==
      2135987035920910082395021706169552114602704522356652769947041607822219725780640550022962086936576
      * 1208925819614629174706176 * 65536
  {
    RaiseMore(B256, 1, 0, 10);
    Ten256(1);
    RaiseMore(B256, 1, 10, 10);
    Ten256(1208925819614629174706176);
    RaiseMore(B256, 1, 20, 10);
    Ten256(1461501637330902918203684832716283019655932542976);
    RaiseMore(B256, 1, 30, 10);
    Ten256(1766847064778384329583297500742918515827483896875618958121606201292619776);
    RaiseMore(B256, 1, 40, 10);
    Ten256(2135987035920910082395021706169552114602704522356652769947041607822219725780640550022962086936576);
    RaiseMore(B256, 1, 50, 2);
  }

  lemma SeventyOneInFiftyTwo()
    ensures Pow(58, 71) <= Pow(256, 52)
  {
    Power58();
    Power256();
    RaiseIs(B58, 71);
    RaiseIs(B256, 52);
  }

  // ----- Encoding and decoding -----

  function Ones(n: nat): seq<Char> { seq(n, i => '1' as int) }
  function Nulls(n: nat): seq<Byte> { seq(n, i => 0) }

  function Chars(ds: seq<int>): seq<Char>
    requires DigitsOk(B58, ds)
  {
    seq(|ds|, i requires 0 <= i < |ds| => CharOf(ds[i]))
  }

  lemma ValueNat(b: Base, ds: seq<int>)
    requires DigitsOk(b, ds)
    ensures Value(b, ds) >= 0
  {
    ValueBound(b, ds);
  }

  lemma BytesOk(v: seq<Byte>)
    ensures DigitsOk(B256, v)
  {
  }

  function Encode(v: seq<Byte>): seq<Char> {
    BytesOk(v);
    ValueNat(B256, v);
    Ones(LeadingZeros(v)) + Chars(Digits(B58, Value(B256, v)))
  }

  function DropSpaces(s: seq<Char>): seq<Char> {
    if s != [] && IsSpace(s[0]) then DropSpaces(s[1..]) else s
  }

  function LeadingOnes(s: seq<Char>): (n: nat)
    ensures n <= |s| && (forall i :: 0 <= i < n ==> s[i] == '1' as int) && (n < |s| ==> s[n] != '1' as int)
  {
    if s == [] || s[0] != '1' as int then 0 else 1 + LeadingOnes(s[1..])
  }

  /** How many characters come before the first space. */
  function WordLength(s: seq<Char>): (n: nat)
    ensures n <= |s| && (forall i :: 0 <= i < n ==> !IsSpace(s[i])) && (n < |s| ==> IsSpace(s[n]))
  {
    if s == [] || IsSpace(s[0]) then 0 else 1 + WordLength(s[1..])
  }

  predicate InAlphabet(s: seq<Char>) { forall i :: 0 <= i < |s| ==> DigitOf(s[i]) >= 0 }

  function DigitsIn(s: seq<Char>): (ds: seq<int>)
    requires InAlphabet(s)
    ensures |ds| == |s| && DigitsOk(B58, ds)
  {
    seq(|s|, i requires 0 <= i < |s| => DigitOf(s[i]))
  }

  function Bytes(ds: seq<int>): seq<Byte>
    requires DigitsOk(B256, ds)
  {
    seq(|ds|, i requires 0 <= i < |ds| => ds[i])
  }

  /** Spaces around are skipped; anything else outside the alphabet is refused. */
  /** The digits after n leading ones, and spaces at most after them. */
  function DecodeDigits(u: seq<Char>, n: nat): Option<seq<Byte>> {
    var word := u[..WordLength(u)];
    if !InAlphabet(word) || DropSpaces(u[WordLength(u)..]) != [] then None
    else
      ValueNat(B58, DigitsIn(word));
      Some(Nulls(n) + Bytes(Digits(B256, Value(B58, DigitsIn(word)))))
  }

  function Decode(s: seq<Char>): Option<seq<Byte>> {
    var t := DropSpaces(s);
    DecodeDigits(t[LeadingOnes(t)..], LeadingOnes(t))
  }

  // ----- The two undo each other -----

  /** A string of the alphabet is read whole. */
  lemma DecodeWord(s: seq<Char>, n: nat, ds: seq<int>)
    requires InAlphabet(s) && n == LeadingOnes(s) && ds == DigitsIn(s[n..])
    ensures Value(B58, ds) >= 0
    ensures Decode(s) == Some(Nulls(n) + Bytes(Digits(B256, Value(B58, ds))))
  {
    ValueNat(B58, ds);
    forall i | 0 <= i < |s| ensures !IsSpace(s[i]) { CharOfDigit(s[i]); }
    assert DropSpaces(s) == s;
    var u := s[n..];
    assert WordLength(u) == |u| && u[..|u|] == u && u[|u|..] == [];
  }

  lemma CharsAlphabet(ds: seq<int>)
    requires DigitsOk(B58, ds)
    ensures InAlphabet(Chars(ds)) && DigitsIn(Chars(ds)) == ds
    ensures ds != [] && ds[0] != 0 ==> Chars(ds)[0] != '1' as int
  {
    forall i | 0 <= i < |ds| ensures DigitOf(CharOf(ds[i])) == ds[i] { DigitOfChar(ds[i]); }
    if ds != [] { DigitOfChar(ds[0]); }
  }

  lemma EncodedOnes(n: nat, cs: seq<Char>)
    requires InAlphabet(cs) && (cs != [] ==> cs[0] != '1' as int)
    ensures InAlphabet(Ones(n) + cs) && LeadingOnes(Ones(n) + cs) == n && (Ones(n) + cs)[n..] == cs
  {
    var s := Ones(n) + cs;
    forall i | 0 <= i < |s| ensures DigitOf(s[i]) >= 0 { if i >= n { assert s[i] == cs[i - n]; } }
    assert n < |s| ==> s[n] == cs[0];
  }

  lemma {:induction false} PutBack(v: seq<Byte>, n: nat, rest: seq<int>)
    requires n <= |v| && rest == v[n..] && DigitsOk(B256, rest) && forall i :: 0 <= i < n ==> v[i] == 0
    ensures Nulls(n) + Bytes(rest) == v
  {
    assert v == v[..n] + v[n..];
    assert Nulls(n) == v[..n];
    assert Bytes(rest) == v[n..];
  }

  /** The bytes without their leading zeros, and back. */
  lemma {:induction false} BytesStripped(v: seq<Byte>)
    ensures DigitsOk(B256, v) && Value(B256, v) >= 0
    ensures Nulls(LeadingZeros(v)) + Bytes(Digits(B256, Value(B256, v))) == v
  {
    BytesOk(v);
    StrippedIs(B256, v);
    PutBack(v, LeadingZeros(v), Digits(B256, Value(B256, v)));
  }

  /** Decoding undoes encoding, for every byte string. */
  lemma {:induction false} DecodeEncode(v: seq<Byte>)
    ensures Decode(Encode(v)) == Some(v)
  {
    BytesStripped(v);
    var x, n := Value(B256, v), LeadingZeros(v);
    var ds := Digits(B58, x);
    CharsAlphabet(ds);
    EncodedOnes(n, Chars(ds));
    DecodeWord(Encode(v), n, ds);
    ValueOfDigits(B58, x);
  }

  lemma CharsOfDigits(s: seq<Char>)
    requires InAlphabet(s)
    ensures Chars(DigitsIn(s)) == s
    ensures s != [] && s[0] != '1' as int ==> DigitsIn(s)[0] != 0
  {
    forall i | 0 <= i < |s| ensures CharOf(DigitOf(s[i])) == s[i] { CharOfDigit(s[i]); }
    if s != [] { CharOfDigit(s[0]); }
  }

  lemma DecodedZeros(n: nat, bs: seq<Byte>)
    requires bs != [] ==> bs[0] != 0
    ensures LeadingZeros(Nulls(n) + bs) == n && Value(B256, Nulls(n) + bs) == Value(B256, bs)
  {
    var v := Nulls(n) + bs;
    assert n < |v| ==> v[n] == bs[0];
    ValueDropZero(B256, v, n);
    assert v[n..] == bs;
  }

  /** The encoding of leading zeros followed by the shortest bytes of a number. */
  lemma {:induction false} EncodeNumber(n: nat, x: nat, v: seq<Byte>)
    requires v == Nulls(n) + Bytes(Digits(B256, x))
    ensures Encode(v) == Ones(n) + Chars(Digits(B58, x))
  {
    assert Bytes(Digits(B256, x)) == Digits(B256, x);
    ValueOfDigits(B256, x);
    DecodedZeros(n, Bytes(Digits(B256, x)));
  }

  /** Encoding undoes decoding, for every string of the alphabet. */
  lemma {:induction false} EncodeDecode(s: seq<Char>)
    requires InAlphabet(s)
    ensures Decode(s).Some? && Encode(Decode(s).value) == s
  {
    var n := LeadingOnes(s);
    DecodedText(s, n, DigitsIn(s[n..]));
    CharsOfDigits(s[n..]);
    assert s == Ones(n) + s[n..];
  }

  lemma {:induction false} DecodedText(s: seq<Char>, n: nat, ds: seq<int>)
    requires InAlphabet(s) && n == LeadingOnes(s) && ds == DigitsIn(s[n..])
    ensures Decode(s).Some? && Encode(Decode(s).value) == Ones(n) + Chars(ds)
  {
    DecodeWord(s, n, ds);
    CharsOfDigits(s[n..]);
    DigitsOfValue(B58, ds);
    EncodeNumber(n, Value(B58, ds), Decode(s).value);
  }

  // ----- What the digits mean -----

  predicate Between(a: char, c: Char, b: char) { a as int <= c <= b as int }

  /** The alphabet: digits and letters in the order of their codes, without 0, I, O and l. */
  lemma Alphabet(c: Char, v: nat, w: nat)
    requires v < w < 58
    ensures CharOf(v) < CharOf(w)
    ensures DigitOf(c) >= 0 <==>
      (Between('0', c, '9') || Between('A', c, 'Z') || Between('a', c, 'z')) &&
      c != '0' as int && c != 'I' as int && c != 'O' as int && c != 'l' as int
  {
  }

  /** Each digit has its weight: the first one the highest power of the base. */
  lemma {:induction false} ValueFront(b: Base, d: int, ds: seq<int>)
    ensures Value(b, [d] + ds) == d * Pow(if b == B58 then 58 else 256, |ds|) + Value(b, ds)
    decreases |ds|
  {
    if ds == [] {
      assert [d] + ds == [d];
    } else {
      var n := |ds| - 1;
      assert ([d] + ds)[..|ds|] == [d] + ds[..n];
      ValueFront(b, d, ds[..n]);
      MulAssoc(if b == B58 then 58 else 256, d, Pow(if b == B58 then 58 else 256, n));
      MulAssoc(d, if b == B58 then 58 else 256, Pow(if b == B58 then 58 else 256, n));
    }
  }

  /** The text and the bytes stand for the same number, with as many ones in front as there are zero bytes. */
  lemma SameNumber(v: seq<Byte>)
    ensures InAlphabet(Encode(v)) && Value(B58, DigitsIn(Encode(v))) == Value(B256, v)
    ensures LeadingOnes(Encode(v)) == LeadingZeros(v)
  {
    BytesStripped(v);
    var x, n := Value(B256, v), LeadingZeros(v);
    var ds := Digits(B58, x);
    CharsAlphabet(ds);
    EncodedOnes(n, Chars(ds));
    ValueOfDigits(B58, x);
    SameDigits(n, ds);
  }

  lemma SameDigits(n: nat, ds: seq<int>)
    requires DigitsOk(B58, ds)
    ensures InAlphabet(Ones(n) + Chars(ds)) && Value(B58, DigitsIn(Ones(n) + Chars(ds))) == Value(B58, ds)
  {
    var s := Ones(n) + Chars(ds);
    forall i | 0 <= i < |s| ensures DigitOf(s[i]) == if i < n then 0 else ds[i - n] {
      if i >= n { DigitOfChar(ds[i - n]); }
    }
    assert DigitsIn(s)[n..] == ds;
    ValueDropZero(B58, DigitsIn(s), n);
  }

  // ----- Spaces -----

  predicate AllSpaces(s: seq<Char>) { forall i :: 0 <= i < |s| ==> IsSpace(s[i]) }

  lemma {:induction false} DropBefore(a: seq<Char>, s: seq<Char>)
    requires AllSpaces(a)
    ensures DropSpaces(a + s) == DropSpaces(s)
    decreases |a|
  {
    if a == [] {
      assert a + s == s;
    } else {
      DropBefore(a[1..], s);
      assert (a + s)[1..] == a[1..] + s;
    }
  }

  lemma {:induction false} DropsExact(s: seq<Char>)
    ensures DropSpaces(s) == [] <==> AllSpaces(s)
    ensures |DropSpaces(s)| <= |s| && s[|s| - |DropSpaces(s)|..] == DropSpaces(s)
    ensures AllSpaces(s[..|s| - |DropSpaces(s)|])
    decreases |s|
  {
    if s != [] && IsSpace(s[0]) {
      DropsExact(s[1..]);
      var n := |s| - |DropSpaces(s)|;
      assert s[n..] == s[1..][n - 1..] && s[..n] == [s[0]] + s[1..][..n - 1];
    }
  }

  lemma WordIs(s: seq<Char>, n: nat)
    requires n <= |s| && (forall i :: 0 <= i < n ==> !IsSpace(s[i])) && (n < |s| ==> IsSpace(s[n]))
    ensures WordLength(s) == n
  {
  }

  lemma NoSpaces(t: seq<Char>)
    requires InAlphabet(t)
    ensures forall i :: 0 <= i < |t| ==> !IsSpace(t[i])
  {
    forall i | 0 <= i < |t| ensures !IsSpace(t[i]) { CharOfDigit(t[i]); }
  }

  lemma WordBefore(u: seq<Char>, b: seq<Char>, n: nat)
    requires InAlphabet(u) && AllSpaces(b)
    ensures DecodeDigits(u + b, n) == DecodeDigits(u, n)
  {
    var s := u + b;
    NoSpaces(u);
    WordIs(s, |u|);
    WordIs(u, |u|);
    assert s[..|u|] == u == u[..|u|] && s[|u|..] == b && u[|u|..] == [];
    DropsExact(b);
  }

  lemma OnesBefore(t: seq<Char>, b: seq<Char>, n: nat)
    requires t != [] && AllSpaces(b) && n == LeadingOnes(t)
    ensures LeadingOnes(t + b) == n && (t + b)[n..] == t[n..] + b
  {
    assert n < |t + b| ==> (t + b)[n] == if n < |t| then t[n] else b[n - |t|];
  }

  /** Spaces around a text of the alphabet do not matter. */
  lemma SpacesAside(a: seq<Char>, t: seq<Char>, b: seq<Char>)
    requires AllSpaces(a) && InAlphabet(t) && AllSpaces(b)
    ensures Decode(a + t + b) == Decode(t)
  {
    assert a + t + b == a + (t + b);
    DropBefore(a, t + b);
    NoSpaces(t);
    if t == [] {
      assert t + b == b;
      DropsExact(b);
    } else {
      OnesBefore(t, b, LeadingOnes(t));
      WordBefore(t[LeadingOnes(t)..], b, LeadingOnes(t));
    }
  }

  lemma SplitWord(r: seq<Char>, n: nat) returns (t: seq<Char>, b: seq<Char>)
    requires n == LeadingOnes(r) && DecodeDigits(r[n..], n).Some?
    ensures r == t + b && InAlphabet(t) && AllSpaces(b)
  {
    var u := r[n..];
    WordOk(u, n);
    t, b := Joined(r, n, u, WordLength(u));
  }

  lemma Joined(r: seq<Char>, n: nat, u: seq<Char>, w: nat) returns (t: seq<Char>, b: seq<Char>)
    requires n <= |r| && u == r[n..] && w <= |u| && InAlphabet(u[..w]) && DropSpaces(u[w..]) == []
    requires forall i :: 0 <= i < n ==> r[i] == '1' as int
    ensures r == t + b && InAlphabet(t) && AllSpaces(b)
  {
    t, b := r[..n + w], r[n + w..];
    assert b == u[w..];
    SpacesLeft(b);
    forall i | 0 <= i < |t| ensures DigitOf(t[i]) >= 0 {
      if i >= n { assert t[i] == u[..w][i - n]; }
    }
  }

  lemma SpacesLeft(s: seq<Char>)
    requires DropSpaces(s) == []
    ensures AllSpaces(s)
  {
    DropsExact(s);
  }

  lemma WordOk(u: seq<Char>, n: nat)
    ensures DecodeDigits(u, n).Some? <==> InAlphabet(u[..WordLength(u)]) && DropSpaces(u[WordLength(u)..]) == []
  {
  }

  lemma DecodeIs(s: seq<Char>, r: seq<Char>, n: nat)
    requires r == DropSpaces(s) && n == LeadingOnes(r)
    ensures Decode(s) == DecodeDigits(r[n..], n)
  {
  }

  lemma DropSplit(s: seq<Char>, r: seq<Char>) returns (a: seq<Char>)
    requires r == DropSpaces(s)
    ensures s == a + r && AllSpaces(a)
  {
    DropsExact(s);
    a := s[..|s| - |r|];
  }

  /** Nothing else decodes: a text of the alphabet between spaces. */
  lemma OnlyBetweenSpaces(s: seq<Char>) returns (a: seq<Char>, t: seq<Char>, b: seq<Char>)
    requires Decode(s).Some?
    ensures s == a + (t + b) && AllSpaces(a) && InAlphabet(t) && AllSpaces(b)
  {
    DecodeIs(s, DropSpaces(s), LeadingOnes(DropSpaces(s)));
    a, t, b := SplitText(s, DropSpaces(s), LeadingOnes(DropSpaces(s)));
  }

  lemma SplitText(s: seq<Char>, r: seq<Char>, n: nat) returns (a: seq<Char>, t: seq<Char>, b: seq<Char>)
    requires r == DropSpaces(s) && n == LeadingOnes(r) && DecodeDigits(r[n..], n).Some?
    ensures s == a + (t + b) && AllSpaces(a) && InAlphabet(t) && AllSpaces(b)
  {
    a := DropSplit(s, r);
    t, b := SplitWord(r, n);
  }
}
