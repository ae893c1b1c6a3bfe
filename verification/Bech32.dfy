/**
 Bech32 strings (BIP 173, with a length limit of 1023): a human-readable part, the separator 1,
 and five-bit values with a checksum, one character each. A string is a list of bytes.
 */
module Bech32 {
  import opened Folds
  import opened Bech32Poly

  type Byte = x: int | 0 <= x < 256
  type Text = seq<Byte>

  const SEPARATOR: Byte := '1' as int
  const MAX_LENGTH := 1023

  /** The character of a value. */
  function CharOf(v: nat): Byte {
    if v == 0 then 'q' as int
    else if v == 1 then 'p' as int
    else if v == 2 then 'z' as int
    else if v == 3 then 'r' as int
    else if v == 4 then 'y' as int
    else if v == 5 then '9' as int
    else if v == 6 then 'x' as int
    else if v == 7 then '8' as int
    else if v == 8 then 'g' as int
    else if v == 9 then 'f' as int
    else if v == 10 then '2' as int
    else if v == 11 then 't' as int
    else if v == 12 then 'v' as int
    else if v == 13 then 'd' as int
    else if v == 14 then 'w' as int
    else if v == 15 then '0' as int
    else if v == 16 then 's' as int
    else if v == 17 then '3' as int
    else if v == 18 then 'j' as int
    else if v == 19 then 'n' as int
    else if v == 20 then '5' as int
    else if v == 21 then '4' as int
    else if v == 22 then 'k' as int
    else if v == 23 then 'h' as int
    else if v == 24 then 'c' as int
    else if v == 25 then 'e' as int
    else if v == 26 then '6' as int
    else if v == 27 then 'm' as int
    else if v == 28 then 'u' as int
    else if v == 29 then 'a' as int
    else if v == 30 then '7' as int
    else 'l' as int
  }

  function LowerCase(c: Byte): Byte {
    if 'A' as int <= c <= 'Z' as int then c - ('A' as int) + ('a' as int) else c
  }

  /** The value of a lower-case character, or -1. */
  function ValueOf(c: Byte): int {
    if c == 'q' as int then 0
    else if c == 'p' as int then 1
    else if c == 'z' as int then 2
    else if c == 'r' as int then 3
    else if c == 'y' as int then 4
    else if c == '9' as int then 5
    else if c == 'x' as int then 6
    else if c == '8' as int then 7
    else if c == 'g' as int then 8
    else if c == 'f' as int then 9
    else if c == '2' as int then 10
    else if c == 't' as int then 11
    else if c == 'v' as int then 12
    else if c == 'd' as int then 13
    else if c == 'w' as int then 14
    else if c == '0' as int then 15
    else if c == 's' as int then 16
    else if c == '3' as int then 17
    else if c == 'j' as int then 18
    else if c == 'n' as int then 19
    else if c == '5' as int then 20
    else if c == '4' as int then 21
    else if c == 'k' as int then 22
    else if c == 'h' as int then 23
    else if c == 'c' as int then 24
    else if c == 'e' as int then 25
    else if c == '6' as int then 26
    else if c == 'm' as int then 27
    else if c == 'u' as int then 28
    else if c == 'a' as int then 29
    else if c == '7' as int then 30
    else if c == 'l' as int then 31
    else -1
  }

  /** The reverse table has letters of both cases. */
  function Reverse(c: Byte): int { ValueOf(LowerCase(c)) }

  lemma ReverseOfChar(v: nat)
    requires v < 32
    ensures Reverse(CharOf(v)) == v
    ensures 33 <= CharOf(v) <= 126 && CharOf(v) != SEPARATOR && !('A' as int <= CharOf(v) <= 'Z' as int)
  {
  }

  lemma CharOfReverse(c: Byte)
    requires Reverse(c) >= 0
    ensures Reverse(c) < 32 && CharOf(Reverse(c)) == LowerCase(c)
  {
  }

  lemma Charset(v: nat)
    requires v < 32
    ensures CharOf(v) == "qpzry9x8gf2tvdw0s3jn54khce6mua7l"[v] as int
  {
  }

  // ----- The checksum of a string -----

  /** High bits, a zero, low bits. */
  function ExpandHrp(hrp: Text): (r: seq<nat>)
    ensures |r| == 2 * |hrp| + 1
  {
    seq(|hrp|, i requires 0 <= i < |hrp| => hrp[i] / 32) + [0] + seq(|hrp|, i requires 0 <= i < |hrp| => hrp[i] % 32)
  }

  /** All high bits come first, then a zero, then all low bits. */
  lemma ExpandAt(hrp: Text, i: nat)
    requires i < |hrp|
    ensures var r := ExpandHrp(hrp); hrp[i] == 32 * r[i] + r[|hrp| + 1 + i] && r[|hrp|] == 0 && r[|hrp| + 1 + i] < 32
  {
  }

  /** The remainder after the human-readable part and some values. */
  function Remainder(hrp: Text, values: seq<nat>): Word {
    Poly(ONE, ExpandHrp(hrp) + values)
  }

  predicate VerifyChecksum(hrp: Text, values: seq<nat>) { Remainder(hrp, values) == ONE }

  function CreateChecksum(hrp: Text, values: seq<nat>): (r: seq<nat>)
    ensures |r| == 6 && forall i :: 0 <= i < 6 ==> r[i] < 32
  {
    Checksum(Remainder(hrp, values))
  }

  predicate AllBelow32(values: seq<nat>) { forall i :: 0 <= i < |values| ==> values[i] < 32 }

  lemma PolyThen(c: Word, v: seq<nat>, w: seq<nat>)
    ensures Poly(c, v + w) == Poly(Poly(c, v), w)
  {
    assert Values(v + w) == Values(v) + Values(w);
    FoldConcat(OPS.step, c, Values(v), Values(w));
  }

  /** Six values behind others verify exactly when they are their checksum. */
  lemma VerifiesIff(hrp: Text, values: seq<nat>, r: seq<nat>)
    requires |r| == 6 && AllBelow32(r)
    ensures VerifyChecksum(hrp, values + r) <==> r == CreateChecksum(hrp, values)
  {
    assert ExpandHrp(hrp) + (values + r) == (ExpandHrp(hrp) + values) + r;
    PolyThen(ONE, ExpandHrp(hrp) + values, r);
    ChecksumExact(Remainder(hrp, values), r);
  }

  /** A change confined to six consecutive values, checksum included, is always noticed. */
  lemma BurstNoticed(hrp: Text, values: seq<nat>, values': seq<nat>, at: nat)
    requires VerifyChecksum(hrp, values) && AllBelow32(values) && AllBelow32(values') && Burst(values, values', at)
    ensures !VerifyChecksum(hrp, values')
  {
    var e := ExpandHrp(hrp);
    var v, v' := e + values, e + values';
    forall i | 0 <= i < |v| ensures v[i] < 32 && v'[i] < 32 {
      if i < |e| { ExpandedBelow32(hrp, i); }
    }
    var k :| 0 <= k < |values| && values[k] != values'[k];
    assert v[|e| + k] != v'[|e| + k];
    BurstDetected(ONE, v, v', |e| + at);
  }

  lemma ExpandedBelow32(hrp: Text, i: nat)
    requires i < |ExpandHrp(hrp)|
    ensures ExpandHrp(hrp)[i] < 32
  {
  }

  // ----- Encoding and decoding -----

  function Chars(values: seq<nat>): Text { seq(|values|, i requires 0 <= i < |values| => CharOf(values[i])) }

  /** The empty string stands for failure. */
  function Encode(hrp: Text, values: seq<nat>): Text {
    if AllBelow32(values) then hrp + [SEPARATOR] + Chars(values + CreateChecksum(hrp, values)) else []
  }

  predicate Printable(s: Text) { forall i :: 0 <= i < |s| ==> 33 <= s[i] <= 126 }
  predicate HasLower(s: Text) { exists i :: 0 <= i < |s| && 'a' as int <= s[i] <= 'z' as int }
  predicate HasUpper(s: Text) { exists i :: 0 <= i < |s| && 'A' as int <= s[i] <= 'Z' as int }

  /** The position of the last separator, or -1. */
  function LastSeparator(s: Text): (r: int)
    ensures -1 <= r < |s| && (r >= 0 ==> s[r] == SEPARATOR)
    ensures forall i :: r < i < |s| ==> s[i] != SEPARATOR
  {
    if s == [] then -1 else if s[|s| - 1] == SEPARATOR then |s| - 1 else LastSeparator(s[..|s| - 1])
  }

  predicate Shaped(s: Text) {
    && Printable(s) && !(HasLower(s) && HasUpper(s)) && |s| <= MAX_LENGTH
    && 0 < LastSeparator(s) && LastSeparator(s) + 7 <= |s|
  }

  function Lowered(s: Text): (r: Text)
    ensures |r| == |s|
  {
    seq(|s|, i requires 0 <= i < |s| => LowerCase(s[i]))
  }

  predicate AllKnown(s: Text) { forall i :: 0 <= i < |s| ==> Reverse(s[i]) >= 0 }

  function Reversed(s: Text): (r: seq<nat>)
    requires AllKnown(s)
    ensures |r| == |s| && AllBelow32(r)
  {
    assert forall i :: 0 <= i < |s| ==> Reverse(s[i]) < 32 by {
      forall i | 0 <= i < |s| ensures Reverse(s[i]) < 32 { CharOfReverse(s[i]); }
    }
    seq(|s|, i requires 0 <= i < |s| => Reverse(s[i]))
  }

  const FAILURE: (Text, seq<nat>) := ([], [])

  /** An empty human-readable part stands for failure. */
  function Decode(s: Text): (Text, seq<nat>) {
    if !Shaped(s) then FAILURE
    else
      var pos := LastSeparator(s);
      var rest := s[pos + 1..];
      if !AllKnown(rest) then FAILURE
      else
        var hrp, values := Lowered(s[..pos]), Reversed(rest);
        if VerifyChecksum(hrp, values) then (hrp, values[..|values| - 6]) else FAILURE
  }

  // ----- Decoding undoes encoding -----

  predicate GoodHrp(hrp: Text) { hrp != [] && Printable(hrp) && !HasUpper(hrp) }

  lemma CharsKnown(values: seq<nat>)
    requires AllBelow32(values)
    ensures AllKnown(Chars(values)) && Reversed(Chars(values)) == values
    ensures Printable(Chars(values)) && !HasUpper(Chars(values)) && SEPARATOR !in Chars(values)
  {
    var cs := Chars(values);
    forall i | 0 <= i < |cs|
      ensures Reverse(cs[i]) == values[i] && 33 <= cs[i] <= 126 && !('A' as int <= cs[i] <= 'Z' as int) &&
        cs[i] != SEPARATOR
    {
      ReverseOfChar(values[i]);
    }
  }

  /** The separator is the last one, even if the human-readable part contains others. */
  lemma SeparatorFound(hrp: Text, cs: Text)
    requires SEPARATOR !in cs
    ensures LastSeparator(hrp + [SEPARATOR] + cs) == |hrp|
  {
    var s := hrp + [SEPARATOR] + cs;
    assert s[|hrp|] == SEPARATOR;
    forall i | |hrp| < i < |s| ensures s[i] != SEPARATOR { assert s[i] == cs[i - |hrp| - 1]; }
  }

  lemma EncodedShape(hrp: Text, cs: Text, s: Text)
    requires GoodHrp(hrp) && Printable(cs) && !HasUpper(cs) && SEPARATOR !in cs && s == hrp + [SEPARATOR] + cs
    requires |s| <= MAX_LENGTH && |cs| >= 6
    ensures Shaped(s) && LastSeparator(s) == |hrp| && s[|hrp| + 1..] == cs && Lowered(s[..|hrp|]) == hrp
  {
    SeparatorFound(hrp, cs);
    forall i | 0 <= i < |s| ensures 33 <= s[i] <= 126 && !('A' as int <= s[i] <= 'Z' as int) {
      if i > |hrp| { assert s[i] == cs[i - |hrp| - 1]; }
    }
    assert s[..|hrp|] == hrp;
  }

  lemma DecodeAt(s: Text, hrp: Text, cs: Text, values: seq<nat>)
    requires Shaped(s) && LastSeparator(s) == |hrp| && s[|hrp| + 1..] == cs && Lowered(s[..|hrp|]) == hrp
    requires AllKnown(cs) && Reversed(cs) == values && VerifyChecksum(hrp, values)
    ensures |values| >= 6 && Decode(s) == (hrp, values[..|values| - 6])
  {
  }

  /** For a printable human-readable part without upper case and five-bit values, within the length limit. */
  lemma RoundTrip(hrp: Text, values: seq<nat>)
    requires GoodHrp(hrp) && AllBelow32(values) && |hrp| + |values| + 7 <= MAX_LENGTH
    ensures Decode(Encode(hrp, values)) == (hrp, values)
  {
    var r := CreateChecksum(hrp, values);
    var all, s := values + r, Encode(hrp, values);
    CharsKnown(all);
    EncodedShape(hrp, Chars(all), s);
    VerifiesIff(hrp, values, r);
    DecodeAt(s, hrp, Chars(all), all);
    assert all[..|all| - 6] == values;
  }

  // ----- What decodes was encoded -----

  lemma CharsReversed(s: Text)
    requires AllKnown(s)
    ensures Chars(Reversed(s)) == Lowered(s)
  {
    forall i | 0 <= i < |s| ensures CharOf(Reverse(s[i])) == LowerCase(s[i]) { CharOfReverse(s[i]); }
  }

  lemma LoweredParts(s: Text, pos: nat)
    requires pos < |s| && s[pos] == SEPARATOR
    ensures Lowered(s) == Lowered(s[..pos]) + [SEPARATOR] + Lowered(s[pos + 1..])
  {
    assert s == s[..pos] + [s[pos]] + s[pos + 1..];
  }

  lemma EncodedParts(hrp: Text, all: seq<nat>, n: nat)
    requires AllBelow32(all) && |all| == n + 6 && VerifyChecksum(hrp, all)
    ensures Encode(hrp, all[..n]) == hrp + [SEPARATOR] + Chars(all)
  {
    assert all == all[..n] + all[n..];
    VerifiesIff(hrp, all[..n], all[n..]);
  }

  /** A string that decodes is, but for upper case, the encoding of what it decodes to. */
  lemma Canonical(s: Text)
    requires Decode(s) != FAILURE
    ensures Encode(Decode(s).0, Decode(s).1) == Lowered(s)
  {
    var pos := LastSeparator(s);
    var all := Reversed(s[pos + 1..]);
    EncodedParts(Lowered(s[..pos]), all, |all| - 6);
    CharsReversed(s[pos + 1..]);
    LoweredParts(s, pos);
  }

  // ----- Exactly what decodes -----

  lemma LowerAgain(c: Byte)
    ensures LowerCase(LowerCase(c)) == LowerCase(c) && Reverse(LowerCase(c)) == Reverse(c)
    ensures 33 <= LowerCase(c) <= 126 <==> 33 <= c <= 126
    ensures LowerCase(c) == SEPARATOR <==> c == SEPARATOR
    ensures !('A' as int <= LowerCase(c) <= 'Z' as int)
  {
  }

  lemma LastIs(s: Text, r: int)
    requires -1 <= r < |s| && (r >= 0 ==> s[r] == SEPARATOR) && forall i :: r < i < |s| ==> s[i] != SEPARATOR
    ensures LastSeparator(s) == r
  {
  }

  lemma {:induction false} SameSeparator(s: Text)
    ensures LastSeparator(Lowered(s)) == LastSeparator(s)
  {
    forall i | 0 <= i < |s| ensures Lowered(s)[i] == SEPARATOR <==> s[i] == SEPARATOR { LowerAgain(s[i]); }
    LastIs(Lowered(s), LastSeparator(s));
  }

  lemma SameShape(s: Text)
    requires !(HasLower(s) && HasUpper(s))
    ensures Shaped(Lowered(s)) <==> Shaped(s)
  {
    var t := Lowered(s);
    forall i | 0 <= i < |s| ensures (33 <= t[i] <= 126 <==> 33 <= s[i] <= 126) && !('A' as int <= t[i] <= 'Z' as int) {
      LowerAgain(s[i]);
    }
    assert !HasUpper(t);
    SameSeparator(s);
    if Printable(t) { forall i | 0 <= i < |s| ensures 33 <= s[i] <= 126 { assert 33 <= t[i] <= 126; } }
  }

  lemma SameValues(s: Text, n: nat)
    requires n <= |s|
    ensures AllKnown(Lowered(s)[n..]) <==> AllKnown(s[n..])
    ensures AllKnown(s[n..]) ==> Reversed(Lowered(s)[n..]) == Reversed(s[n..])
    ensures Lowered(Lowered(s)[..n]) == Lowered(s[..n])
  {
    var t, a, b := Lowered(s), Lowered(s)[n..], s[n..];
    forall i | 0 <= i < |s| ensures Reverse(t[i]) == Reverse(s[i]) && LowerCase(t[i]) == LowerCase(s[i]) {
      LowerAgain(s[i]);
    }
    forall i | 0 <= i < |b| ensures Reverse(a[i]) == Reverse(b[i]) { assert a[i] == t[n + i] && b[i] == s[n + i]; }
    assert Lowered(t[..n]) == Lowered(s[..n]);
  }

  /** The result once the string is split. */
  function DecodeParts(hrp: Text, rest: Text): (Text, seq<nat>)
    requires |rest| >= 6
  {
    if AllKnown(rest) && VerifyChecksum(hrp, Reversed(rest)) then (hrp, Reversed(rest)[..|rest| - 6]) else FAILURE
  }

  lemma DecodeIs(s: Text, hrp: Text, rest: Text)
    requires Shaped(s) && hrp == Lowered(s[..LastSeparator(s)]) && rest == s[LastSeparator(s) + 1..]
    ensures |rest| >= 6 && Decode(s) == DecodeParts(hrp, rest)
  {
  }

  lemma PartsAlike(hrp: Text, rest: Text, rest': Text)
    requires |rest| == |rest'| >= 6 && (AllKnown(rest') <==> AllKnown(rest))
    requires AllKnown(rest) ==> Reversed(rest') == Reversed(rest)
    ensures DecodeParts(hrp, rest') == DecodeParts(hrp, rest)
  {
  }

  /** Letters of one case, whichever, decode alike. */
  lemma CaseAside(s: Text)
    requires !(HasLower(s) && HasUpper(s))
    ensures Decode(Lowered(s)) == Decode(s)
  {
    SameShape(s);
    SameSeparator(s);
    if Shaped(s) {
      var t, pos := Lowered(s), LastSeparator(s);
      SameValues(s, pos);
      SameValues(s, pos + 1);
      DecodeIs(s, Lowered(s[..pos]), s[pos + 1..]);
      DecodeIs(t, Lowered(t[..pos]), t[pos + 1..]);
      PartsAlike(Lowered(s[..pos]), s[pos + 1..], t[pos + 1..]);
    }
  }

  lemma DecodedHrp(s: Text)
    requires Decode(s) != FAILURE
    ensures GoodHrp(Decode(s).0) && AllBelow32(Decode(s).1)
  {
    var pos := LastSeparator(s);
    var hrp, all := Lowered(s[..pos]), Reversed(s[pos + 1..]);
    assert Decode(s) == (hrp, all[..|all| - 6]);
    forall i | 0 <= i < |hrp| ensures 33 <= hrp[i] <= 126 && !('A' as int <= hrp[i] <= 'Z' as int) { LowerAgain(s[i]); }
  }

  /**
   A string decodes to a human-readable part and values if and only if it is their encoding, in letters of
   one case and with at most 1023 characters.
   */
  lemma DecodeExact(s: Text, hrp: Text, values: seq<nat>)
    requires hrp != []
    ensures Decode(s) == (hrp, values) <==>
      && GoodHrp(hrp) && AllBelow32(values) && |s| <= 1023
      && !(HasLower(s) && HasUpper(s)) && Lowered(s) == Encode(hrp, values)
  {
    if Decode(s) == (hrp, values) {
      DecodedHrp(s);
      Canonical(s);
    }
    if !(HasLower(s) && HasUpper(s)) {
      CaseAside(s);
      if GoodHrp(hrp) && AllBelow32(values) && |s| <= 1023 && Lowered(s) == Encode(hrp, values) {
        RoundTrip(hrp, values);
      }
    }
  }
}
