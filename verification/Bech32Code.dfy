/** The loops that encode and decode Bech32 strings, over buffers that grow. */
module Bech32Code {
  import opened Folds
  import opened Bech32Poly
  import opened Bech32

  method PolyMod(v: seq<nat>) returns (c: Word)
    ensures c == Poly(ONE, v)
  {
    c := ONE;
    var i := 0;
    while i < |v|
      invariant 0 <= i <= |v| && c == Poly(ONE, v[..i])
    {
      NextValue(v, i);
      c := Step(c, ToWord(v[i]));
      i := i + 1;
    }
    assert v[..i] == v;
  }

  lemma NextValue(v: seq<nat>, i: nat)
    requires i < |v|
    ensures Poly(ONE, v[..i + 1]) == Step(Poly(ONE, v[..i]), ToWord(v[i]))
  {
    assert Values(v[..i + 1]) == Values(v[..i]) + [ToWord(v[i])];
    FoldLast(OPS.step, ONE, Values(v[..i]), ToWord(v[i]));
    OpsReal();
    assert StepIs(OPS, Poly(ONE, v[..i]), ToWord(v[i]));
  }

  method Expand(hrp: Text) returns (ret: seq<nat>)
    ensures ret == ExpandHrp(hrp)
  {
    ret := seq(2 * |hrp| + 1, i => 0);
    var i := 0;
    while i < |hrp|
      invariant 0 <= i <= |hrp| && |ret| == 2 * |hrp| + 1 && ret[|hrp|] == 0
      invariant forall j :: 0 <= j < i ==> ret[j] == hrp[j] / 32 && ret[j + |hrp| + 1] == hrp[j] % 32
    {
      ret := ret[i := hrp[i] / 32][i + |hrp| + 1 := hrp[i] % 32];
      i := i + 1;
    }
    assert ret == ExpandHrp(hrp);
  }

  method Create(hrp: Text, values: seq<nat>) returns (ret: seq<nat>)
    ensures ret == CreateChecksum(hrp, values)
  {
    var enc := Expand(hrp);
    enc := enc + values;
    var zeros := [0, 0, 0, 0, 0, 0];
    PolyThen(ONE, enc, zeros);
    var mod := PolyMod(enc + zeros);
    ret := SplitGroups(Xor(mod, ONE));
  }

  /** The five-bit groups of a word, highest first. */
  method SplitGroups(mod: Word) returns (ret: seq<nat>)
    ensures ret == Groups(mod)
  {
    ret := [];
    var i := 0;
    while i < 6
      invariant 0 <= i <= 6 && |ret| == i && forall j :: 0 <= j < i ==> ret[j] == Group(mod, 5 - j)
    {
      ret := ret + [Group(mod, 5 - i)];
      i := i + 1;
    }
  }

  /** Appends a character for each value, unless one is out of range. */
  method AppendChars(front: Text, combined: seq<nat>) returns (ok: bool, ret: Text)
    ensures ok == AllBelow32(combined) && (ok ==> ret == front + Chars(combined))
  {
    ret := front;
    var i := 0;
    while i < |combined|
      invariant 0 <= i <= |combined| && |ret| == |front| + i && ret[..|front|] == front
      invariant forall j :: 0 <= j < i ==> combined[j] < 32 && ret[|front| + j] == CharOf(combined[j])
    {
      if combined[i] >= 32 {
        return false, [];
      }
      ret := ret + [CharOf(combined[i])];
      i := i + 1;
    }
    ok := true;
    assert ret[|front|..] == Chars(combined);
    assert ret == ret[..|front|] + ret[|front|..];
  }

  method EncodeText(hrp: Text, values: seq<nat>) returns (ret: Text)
    ensures ret == Encode(hrp, values)
  {
    var checksum := Create(hrp, values);
    var ok;
    ok, ret := AppendChars(hrp + [SEPARATOR], values + checksum);
    OnlyValuesMatter(values, checksum);
    if !ok {
      ret := [];
    }
  }

  lemma OnlyValuesMatter(values: seq<nat>, checksum: seq<nat>)
    requires AllBelow32(checksum)
    ensures AllBelow32(values + checksum) <==> AllBelow32(values)
  {
    if AllBelow32(values + checksum) {
      forall i | 0 <= i < |values| ensures values[i] < 32 { assert (values + checksum)[i] == values[i]; }
    }
  }

  method CheckChars(s: Text) returns (ok: bool)
    ensures ok <==> Printable(s) && !(HasLower(s) && HasUpper(s))
  {
    var lower, upper := false, false;
    var i := 0;
    while i < |s|
      invariant 0 <= i <= |s| && Printable(s[..i]) && lower == HasLower(s[..i]) && upper == HasUpper(s[..i])
    {
      var c := s[i];
      if c < 33 || c > 126 {
        return false;
      }
      MoreChars(s, i);
      if 'a' as int <= c <= 'z' as int {
        lower := true;
      }
      if 'A' as int <= c <= 'Z' as int {
        upper := true;
      }
      i := i + 1;
    }
    assert s[..i] == s;
    ok := !(lower && upper);
  }

  lemma MoreChars(s: Text, i: nat)
    requires i < |s|
    ensures HasLower(s[..i + 1]) <==> HasLower(s[..i]) || 'a' as int <= s[i] <= 'z' as int
    ensures HasUpper(s[..i + 1]) <==> HasUpper(s[..i]) || 'A' as int <= s[i] <= 'Z' as int
  {
    var t, u := s[..i], s[..i + 1];
    assert u[i] == s[i] && forall j :: 0 <= j < i ==> u[j] == t[j];
    if HasLower(t) {
      var j :| 0 <= j < i && 'a' as int <= t[j] <= 'z' as int;
      assert u[j] == t[j];
    }
    if HasUpper(t) {
      var j :| 0 <= j < i && 'A' as int <= t[j] <= 'Z' as int;
      assert u[j] == t[j];
    }
  }

  method FindSeparator(s: Text) returns (pos: int)
    ensures pos == LastSeparator(s)
  {
    pos := |s| - 1;
    while pos >= 0 && s[pos] != SEPARATOR
      invariant -1 <= pos < |s| && forall i :: pos < i < |s| ==> s[i] != SEPARATOR
    {
      pos := pos - 1;
    }
  }

  method ReadValues(rest: Text) returns (known: bool, values: seq<nat>)
    ensures known == AllKnown(rest) && (known ==> values == Reversed(rest))
  {
    values := [];
    var i := 0;
    while i < |rest|
      invariant 0 <= i <= |rest| == |rest[..i]| + (|rest| - i) && |values| == i
      invariant forall j :: 0 <= j < i ==> Reverse(rest[j]) == values[j]
    {
      var rev := Reverse(rest[i]);
      if rev == -1 {
        return false, [];
      }
      if rev >= 0 { CharOfReverse(rest[i]); }
      values := values + [rev];
      i := i + 1;
    }
    known := true;
  }

  method DecodeText(s: Text) returns (hrp: Text, values: seq<nat>)
    ensures (hrp, values) == Decode(s)
  {
    var ok := CheckChars(s);
    if !ok {
      return [], [];
    }
    var pos := FindSeparator(s);
    if |s| > MAX_LENGTH || pos == -1 || pos == 0 || pos + 7 > |s| {
      return [], [];
    }
    var rest := s[pos + 1..];
    var known;
    known, values := ReadValues(rest);
    if !known {
      return [], [];
    }
    hrp := [];
    var i := 0;
    while i < pos
      invariant 0 <= i <= pos && hrp == Lowered(s[..i])
    {
      hrp := hrp + [LowerCase(s[i])];
      i := i + 1;
    }
    var expanded := Expand(hrp);
    var remainder := PolyMod(expanded + values);
    if remainder != ONE {
      return [], [];
    }
    values := values[..|values| - 6];
  }
}
