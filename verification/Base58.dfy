/**
 * The base-58 coder working in place: a big-endian digit buffer of a size fixed beforehand,
 * multiplied and added to once per input symbol.
 */
module Base58 {
  import opened Basics
  import opened Base58Spec

  /** What remains of a multiplication: digits `front` to go with `carry`, digits `tail` done. */
  ghost predicate Remains(b: Base, m: Base, front: seq<int>, carry: int, tail: seq<int>, goal: Carried) {
    MulAdd(b, m, front, carry).out == goal.out && MulAdd(b, m, front, carry).digits + tail == goal.digits
  }

  lemma {:induction false} Peel(b: Base, m: Base, front: seq<int>, d: int, carry: int, t: int, tail: seq<int>,
    goal: Carried)
    requires Remains(b, m, front + [d], carry, tail, goal) && t == carry + Scale(m, d)
    ensures Remains(b, m, front, Quotient(b, t), [Remainder(b, t)] + tail, goal)
  {
    assert (front + [d])[..|front|] == front;
  }

  lemma RemainsEnds(b: Base, m: Base, ds: seq<int>, start: int, goal: Carried)
    requires goal == MulAdd(b, m, ds, start)
    ensures Remains(b, m, ds, start, [], goal)
    ensures forall carry, tail :: Remains(b, m, [], carry, tail, goal) ==> carry == goal.out && tail == goal.digits
  {
  }

  /** `ds * m + carry` over the buffer, last digit first; what is left over is returned. */
  method MulAddInPlace(a: array<int>, b: Base, m: Base, start: int, ghost goal: Carried) returns (carry: int)
    requires goal == MulAdd(b, m, a[..], start)
    modifies a
    ensures a[..] == goal.digits && carry == goal.out
  {
    RemainsEnds(b, m, a[..], start, goal);
    ghost var was := a[..];
    carry := start;
    var i := a.Length;
    assert was[..i] == was && a[i..] == [];
    while i > 0
      invariant 0 <= i <= a.Length && a[..i] == was[..i]
      invariant Remains(b, m, was[..i], carry, a[i..], goal)
    {
      ghost var done := a[i..];
      i := i - 1;
      assert a[i] == was[i] && was[..i + 1] == was[..i] + [was[i]];
      Peel(b, m, was[..i], a[i], carry, carry + Scale(m, a[i]), done, goal);
      carry := carry + Scale(m, a[i]);
      a[i] := Remainder(b, carry);
      carry := Quotient(b, carry);
      assert a[i..] == [a[i]] + done;
    }
    assert a[..] == a[i..] && was[..i] == [];
  }

  // ----- One round of either direction -----

  lemma {:induction false} RaiseMono(b: Base, m: nat, n: nat)
    requires m <= n
    ensures 0 < Raise(b, 1, m) <= Raise(b, 1, n)
    decreases n
  {
    if m < n { RaiseMono(b, m, n - 1); }
    else if m > 0 { RaiseMono(b, m - 1, n - 1); }
  }

  lemma {:induction false} NextFits(m: Base, w: seq<int>, d: int, n: nat)
    requires DigitsOk(m, w) && 0 <= d < Size(m) && |w| < n
    ensures Scale(m, Value(m, w)) + d == Value(m, w + [d]) < Raise(m, 1, n)
  {
    Appended(m, w, d);
    ValueBound(m, w + [d]);
    RaiseMono(m, |w| + 1, n);
  }

  /** A buffer with room for `n` input symbols takes the next one without a carry. */
  lemma {:induction false} RoundFits(b: Base, m: Base, ds: seq<int>, w: seq<int>, d: int, n: nat)
    requires DigitsOk(b, ds) && Raise(m, 1, n) <= Raise(b, 1, |ds|)
    requires DigitsOk(m, w) && 0 <= d < Size(m) && |w| < n && Value(b, ds) == Value(m, w)
    ensures var r := MulAdd(b, m, ds, d);
      r.out == 0 && DigitsOk(b, r.digits) && Value(b, r.digits) == Value(m, w + [d])
  {
    NextFits(m, w, d, n);
    NothingOut(b, m, ds, d);
  }

  method Zeros(n: nat) returns (a: array<int>)
    ensures fresh(a) && a.Length == n && (forall b :: DigitsOk(b, a[..]) && Value(b, a[..]) == 0)
  {
    a := new int[n](i => 0);
    forall b ensures DigitsOk(b, a[..]) && Value(b, a[..]) == 0 { ValueDropZero(b, a[..], n); }
  }

  method SkipZeros(a: array<int>) returns (it: nat)
    ensures it == LeadingZeros(a[..])
  {
    it := 0;
    while it < a.Length && a[it] == 0
      invariant it <= a.Length && forall i :: 0 <= i < it ==> a[i] == 0
    {
      it := it + 1;
    }
    assert it < a.Length ==> a[..][it] != 0;
    assert forall i :: 0 <= i < it ==> a[..][i] == 0;
  }

  // ----- Encoding -----

  /** Feeds the bytes into a base-58 buffer; the final carry is always nil. */
  method DigitsFromBytes(w: seq<Byte>) returns (a: array<int>)
    ensures DigitsOk(B58, a[..]) && Value(B58, a[..]) == Value(B256, w)
  {
    a := Zeros(Room58(|w|));
    Fits58(|w|);
    var k := 0;
    while k < |w|
      invariant k <= |w| && fresh(a) && a.Length == Room58(|w|)
      invariant DigitsOk(B58, a[..]) && Value(B58, a[..]) == Value(B256, w[..k])
    {
      RoundFits(B58, B256, a[..], w[..k], w[k], |w|);
      var carry := MulAddInPlace(a, B58, B256, w[k], MulAdd(B58, B256, a[..], w[k]));
      assert carry == 0;
      assert w[..k + 1] == w[..k] + [w[k]];
      k := k + 1;
    }
    assert w[..k] == w;
  }

  method AppendChars(prefix: seq<Char>, a: array<int>, from: nat) returns (s: seq<Char>)
    requires from <= a.Length && DigitsOk(B58, a[..])
    ensures DigitsOk(B58, a[from..]) && s == prefix + Chars(a[from..])
  {
    s := prefix;
    var it := from;
    assert forall i :: 0 <= i < a.Length ==> a[..][i] == a[i];
    while it < a.Length
      invariant from <= it <= a.Length && |s| == |prefix| + (it - from)
      invariant s[..|prefix|] == prefix
      invariant forall i :: 0 <= i < it - from ==> s[|prefix| + i] == Chars(a[from..])[i]
    {
      s := s + [CharOf(a[it])];
      it := it + 1;
    }
  }

  method EncodeText(v: seq<Byte>) returns (s: seq<Char>)
    ensures s == Encode(v) && Decode(s) == Some(v)
  {
    var zeroes := 0;
    while zeroes < |v| && v[zeroes] == 0
      invariant zeroes <= |v| && forall i :: 0 <= i < zeroes ==> v[i] == 0
    {
      zeroes := zeroes + 1;
    }
    var b58 := DigitsFromBytes(v[zeroes..]);
    var it := SkipZeros(b58);
    StrippedIs(B58, b58[..]);
    ValueDropZero(B256, v, zeroes);
    s := AppendChars(Ones(zeroes), b58, it);
    DecodeEncode(v);
  }

  // ----- Decoding -----

  lemma WordSoFar(u: seq<Char>, k: nat)
    requires k <= |u| && forall i :: 0 <= i < k ==> !IsSpace(u[i])
    ensures k <= WordLength(u) && (k < |u| && !IsSpace(u[k]) ==> k < WordLength(u))
    ensures k == |u| || IsSpace(u[k]) ==> k == WordLength(u)
  {
  }

  lemma {:induction false} NextDigit(u: seq<Char>, k: nat)
    requires k < |u| && InAlphabet(u[..k])
    ensures InAlphabet(u[..k + 1]) <==> DigitOf(u[k]) >= 0
    ensures DigitOf(u[k]) >= 0 ==> DigitsIn(u[..k + 1]) == DigitsIn(u[..k]) + [DigitOf(u[k])]
  {
    assert u[..k + 1] == u[..k] + [u[k]];
    assert u[..k + 1][k] == u[k];
  }

  lemma {:induction false} ForeignWord(u: seq<Char>, k: nat)
    requires k < WordLength(u) && DigitOf(u[k]) < 0
    ensures !InAlphabet(u[..WordLength(u)])
  {
    assert u[..WordLength(u)][k] == u[k];
  }

  /** Reads digits up to the first space; `ok` is lost at the first foreign character. */
  method BytesFromDigits(u: seq<Char>) returns (a: array<int>, k: nat, ok: bool)
    ensures ok <==> InAlphabet(u[..WordLength(u)])
    ensures ok ==> k == WordLength(u) && DigitsOk(B256, a[..])
    ensures ok ==> Value(B256, a[..]) == Value(B58, DigitsIn(u[..k]))
  {
    a := Zeros(Room256(|u|));
    Fits256(|u|);
    k, ok := 0, true;
    while k < |u| && !IsSpace(u[k])
      invariant k <= |u| && fresh(a) && a.Length == Room256(|u|)
      invariant forall i :: 0 <= i < k ==> !IsSpace(u[i])
      invariant InAlphabet(u[..k])
      invariant DigitsOk(B256, a[..]) && Value(B256, a[..]) == Value(B58, DigitsIn(u[..k]))
    {
      WordSoFar(u, k);
      NextDigit(u, k);
      var d := DigitOf(u[k]);
      if d < 0 {
        ForeignWord(u, k);
        return a, k, false;
      }
      RoundFits(B256, B58, a[..], DigitsIn(u[..k]), d, |u|);
      var carry := MulAddInPlace(a, B256, B58, d, MulAdd(B256, B58, a[..], d));
      assert carry == 0;
      k := k + 1;
    }
    WordSoFar(u, k);
  }

  method SkipSpaces(s: seq<Char>, from: nat) returns (at: nat)
    requires from <= |s|
    ensures from <= at <= |s| && s[at..] == DropSpaces(s[from..])
  {
    at := from;
    while at < |s| && IsSpace(s[at])
      invariant from <= at <= |s| && DropSpaces(s[at..]) == DropSpaces(s[from..])
    {
      assert s[at..][1..] == s[at + 1..];
      at := at + 1;
    }
  }

  method AppendBytes(prefix: seq<Byte>, a: array<int>, from: nat) returns (s: seq<Byte>)
    requires from <= a.Length && DigitsOk(B256, a[..])
    ensures DigitsOk(B256, a[from..]) && s == prefix + Bytes(a[from..])
  {
    s := prefix;
    var it := from;
    assert forall i :: 0 <= i < a.Length ==> a[..][i] == a[i];
    while it < a.Length
      invariant from <= it <= a.Length && |s| == |prefix| + (it - from)
      invariant s[..|prefix|] == prefix
      invariant forall i :: 0 <= i < it - from ==> s[|prefix| + i] == Bytes(a[from..])[i]
    {
      s := s + [a[it]];
      it := it + 1;
    }
  }

  method DecodeRest(u: seq<Char>, zeroes: nat) returns (r: Option<seq<Byte>>)
    ensures r == DecodeDigits(u, zeroes)
  {
    var b256, k, ok := BytesFromDigits(u);
    if !ok { return None; }
    var end := SkipSpaces(u, k);
    if end < |u| { return None; }
    var it := SkipZeros(b256);
    StrippedIs(B256, b256[..]);
    var bytes := AppendBytes(Nulls(zeroes), b256, it);
    r := Some(bytes);
  }

  method DecodeText(s: seq<Char>) returns (r: Option<seq<Byte>>)
    ensures r == Decode(s)
    ensures InAlphabet(s) ==> r.Some? && Encode(r.value) == s
  {
    if InAlphabet(s) { EncodeDecode(s); }
    var p := SkipSpaces(s, 0);
    assert s[0..] == s;
    var t := s[p..];
    var zeroes := 0;
    while zeroes < |t| && t[zeroes] == '1' as int
      invariant zeroes <= |t| && forall i :: 0 <= i < zeroes ==> t[i] == '1' as int
    {
      zeroes := zeroes + 1;
    }
    r := DecodeRest(t[zeroes..], zeroes);
  }
}
