/**
 The loops that write an entry of the coins data base to a stream and read it back. Reading past
 the end of the stream, an exception in the source, gives no result.
 */
module CoinsCodec {
  import opened Basics
  import opened Amounts
  import opened CoinsTypes
  import opened CoinsCodecSpec
  import opened Powers

  class DataStream {
    var bytes: Bytes

    constructor ()
      ensures bytes == []
    {
      bytes := [];
    }

    method Put(data: Bytes)
      modifies this
      ensures bytes == old(bytes) + data
    {
      bytes := bytes + data;
    }

    method Take(n: nat) returns (r: Option<Bytes>)
      modifies this
      ensures if n <= |old(bytes)| then r == Some(old(bytes)[..n]) && bytes == old(bytes)[n..]
        else r.None? && bytes == old(bytes)
    {
      if n > |bytes| { return None; }
      r := Some(bytes[..n]);
      bytes := bytes[n..];
    }
  }

  /** The outcome of a reading method: its result, and what it left in the stream. */
  ghost predicate Took<T>(p: Parsed<T>, r: Option<T>, rest: Bytes) {
    match p
    case Failed => r.None?
    case Parsed(v, t) => r == Some(v) && rest == t
  }

  // ----- Variable-length integers -----

  function TmpSize(w: Width): nat { if w == W32 then 5 else 10 }

  /** A bound on what is left of a number after k groups of seven bits. */
  function Bound(w: Width, k: nat): nat { if k == 0 then Limit(w) else Bound(w, k - 1) / 128 }

  lemma BoundEnds(w: Width)
    ensures Bound(w, TmpSize(w) - 1) <= 128
  {
    assert Bound(W32, 4) == 16;
    assert Bound(W64, 9) == 2;
  }

  lemma {:induction false} GroupFits(w: Width, len: nat, m: int)
    requires len < TmpSize(w) && 127 < m < Bound(w, len)
    ensures len + 1 < TmpSize(w) && m / 128 - 1 < Bound(w, len + 1)
  {
    BoundEnds(w);
  }

  function Upper(n: int, len: nat): Bytes
    requires len > 0 ==> n >= 0
  {
    if len == 0 then VarInt(n) else High(n)
  }

  /** What was split off a number: `low` behind the groups of the rest makes the whole. */
  ghost predicate Splits(whole: Bytes, m: int, len: nat, low: Bytes) {
    (len > 0 ==> m >= 0) && |low| == len && whole == Upper(m, len) + low
  }

  lemma SplitStarts(n: int)
    ensures Splits(VarInt(n), n, 0, [])
  {
  }

  lemma SplitEnds(whole: Bytes, m: int, len: nat, low: Bytes, digit: int)
    requires Splits(whole, m, len, low) && m <= 127 && digit == m % 128 + if len > 0 then 128 else 0
    ensures whole == [digit] + low
  {
  }

  lemma SplitNext(whole: Bytes, m: int, len: nat, low: Bytes, digit: int)
    requires Splits(whole, m, len, low) && m > 127 && digit == m % 128 + if len > 0 then 128 else 0
    ensures Splits(whole, m / 128 - 1, len + 1, [digit] + low)
  {
    NextGroup(m, len, digit, low);
  }

  /** Groups of seven bits, lowest first; the buffer for them is never too short. */
  method SplitGroups(n: int, w: Width, ghost whole: Bytes) returns (tmp: array<int>, len: nat, ghost low: Bytes)
    requires n < Limit(w) && Splits(whole, n, 0, [])
    ensures fresh(tmp) && len < tmp.Length && |low| == len + 1 && low == whole
    ensures forall i :: 0 <= i <= len ==> tmp[i] == low[len - i]
  {
    tmp := new int[TmpSize(w)];
    var m := n;
    len, low := 0, [];
    while m > 127
      invariant 0 <= len < TmpSize(w) && m < Bound(w, len) && Splits(whole, m, len, low)
      invariant forall i :: 0 <= i < len ==> tmp[i] == low[len - 1 - i]
      decreases m
    {
      var digit := m % 128 + if len > 0 then 128 else 0;
      SplitNext(whole, m, len, low, digit);
      GroupFits(w, len, m);
      tmp[len] := digit;
      low := [digit] + low;
      m := m / 128 - 1;
      len := len + 1;
    }
    var digit := m % 128 + if len > 0 then 128 else 0;
    SplitEnds(whole, m, len, low, digit);
    tmp[len] := digit;
    low := [digit] + low;
  }

  method WriteVarInt(s: DataStream, n: int, w: Width)
    requires n < Limit(w)
    modifies s
    ensures s.bytes == old(s.bytes) + VarInt(n)
  {
    SplitStarts(n);
    var tmp, len, low := SplitGroups(n, w, VarInt(n));
    WriteReversed(s, tmp, len, low);
  }

  method WriteReversed(s: DataStream, tmp: array<int>, last: nat, ghost low: Bytes)
    requires last < tmp.Length && |low| == last + 1 && forall i :: 0 <= i <= last ==> tmp[i] == low[last - i]
    modifies s
    ensures s.bytes == old(s.bytes) + low
  {
    var len := last;
    s.Put([tmp[len]]);
    assert [tmp[len]] == low[..1];
    while len > 0
      invariant 0 <= len <= last
      invariant s.bytes == old(s.bytes) + low[..last + 1 - len]
    {
      len := len - 1;
      assert low[..last + 1 - len] == low[..last - len] + [tmp[len]];
      s.Put([tmp[len]]);
    }
    assert low[..last + 1] == low;
  }

  lemma NextGroup(m: int, len: nat, digit: int, low: Bytes)
    requires m > 127 && digit == m % 128 + if len > 0 then 128 else 0
    ensures Upper(m, len) + low == Upper(m / 128 - 1, len + 1) + ([digit] + low)
  {
    assert Upper(m, len) == High(m / 128 - 1) + [digit];
  }

  method ReadVarInt(s: DataStream, w: Width) returns (r: Option<nat>)
    modifies s
    ensures Took(CoinsCodecSpec.ReadVarInt(old(s.bytes), w), r, s.bytes)
  {
    var n: nat := 0;
    while true
      invariant ReadMore(s.bytes, n, w) == ReadMore(old(s.bytes), 0, w)
      decreases |s.bytes|
    {
      var b := s.Take(1);
      if b.None? { return None; }
      n := Wrap(n * 128 + b.value[0] % 128, w);
      if b.value[0] >= 128 { n := Wrap(n + 1, w); } else { return Some(n); }
    }
  }

  // ----- Amounts -----

  method CompressAmount(amount: nat) returns (x: nat)
    requires amount < Limit(W64)
    ensures x == Wrap(Amounts.CompressAmount(amount), W64)
  {
    if amount == 0 { return 0; }
    var n, e := amount, 0;
    while n % 10 == 0 && e < 9
      invariant n > 0 && 0 <= e <= 9 && Strip(n, e) == Strip(amount, 0)
    {
      n := n / 10;
      e := e + 1;
    }
    if e < 9 {
      var d := n % 10;
      assert 1 <= d <= 9;
      n := n / 10;
      x := Wrap(1 + (n * 9 + d - 1) * 10 + e, W64);
    } else {
      x := Wrap(1 + (n - 1) * 10 + 9, W64);
    }
  }

  lemma WholeTurns(x: int, k: int)
    ensures (x + 18446744073709551616 * k) % 18446744073709551616 == x % 18446744073709551616
  {
  }

  lemma WrapTens(a: nat)
    ensures Wrap(Wrap(a, W64) * 10, W64) == Wrap(10 * a, W64)
  {
    var q, m := a / 18446744073709551616, Wrap(a, W64);
    assert 10 * a == 10 * m + 18446744073709551616 * (10 * q);
    WholeTurns(10 * m, 10 * q);
  }

  method DecompressAmount(code: nat) returns (n: nat)
    requires code < Limit(W64)
    ensures n == Wrap(Amounts.DecompressAmount(code), W64)
  {
    if code == 0 { return 0; }
    var x := code - 1;
    var e := x % 10;
    x := x / 10;
    if e < 9 {
      var d := x % 9 + 1;
      x := x / 9;
      n := x * 10 + d;
    } else {
      n := x + 1;
    }
    ghost var m, done := n, 0;
    while e > 0
      invariant 0 <= e && e + done == (code - 1) % 10
      invariant n == Wrap(Tens(m, done), W64)
    {
      WrapTens(Tens(m, done));
      n := Wrap(n * 10, W64);
      e, done := e - 1, done + 1;
    }
  }

  // ----- Outputs -----

  method WriteScript(s: DataStream, c: Curve, script: Bytes)
    requires |script| + 6 < Limit(W32)
    modifies s
    ensures s.bytes == old(s.bytes) + CoinsCodecSpec.WriteScript(c, script)
  {
    var compr := Compress(c, script);
    if compr.Some? {
      s.Put(compr.value);
    } else {
      WriteVarInt(s, |script| + 6, W32);
      s.Put(script);
    }
  }

  method ReadScript(s: DataStream, c: Curve) returns (r: Option<Bytes>)
    modifies s
    ensures Took(CoinsCodecSpec.ReadScript(c, old(s.bytes)), r, s.bytes)
  {
    var size := ReadVarInt(s, W32);
    if size.None? { return None; }
    if size.value < 6 {
      var vch := s.Take(SpecialSize(size.value));
      r := if vch.None? then None else Some(Decompress(c, size.value, vch.value));
    } else {
      var data := s.Take(size.value - 6);
      if data.None? { return None; }
      r := if size.value - 6 > MAX_SCRIPT_SIZE then Some([OP_RETURN]) else data;
    }
  }

  method WriteOut(s: DataStream, c: Curve, o: TxOut)
    requires |o.script| + 6 < Limit(W32)
    modifies s
    ensures s.bytes == old(s.bytes) + CoinsCodecSpec.WriteOut(c, o)
  {
    var nVal := CompressAmount(Wrap(o.value, W64));
    WriteVarInt(s, nVal, W64);
    WriteScript(s, c, o.script);
  }

  method ReadOut(s: DataStream, c: Curve) returns (r: Option<TxOut>)
    modifies s
    ensures Took(CoinsCodecSpec.ReadOut(c, old(s.bytes)), r, s.bytes)
  {
    var nVal := ReadVarInt(s, W64);
    if nVal.None? { return None; }
    VarIntInRange(old(s.bytes), 0, W64);
    var value := DecompressAmount(nVal.value);
    var script := ReadScript(s, c);
    if script.None? { return None; }
    r := Some(TxOut(if value >= 9223372036854775808 then value - Limit(W64) else value, script.value));
  }

  lemma {:induction false} VarIntInRange(s: Bytes, n: nat, w: Width)
    ensures ReadMore(s, n, w).Parsed? ==> ReadMore(s, n, w).value < Limit(w)
    decreases |s|
  {
    if s != [] { VarIntInRange(s[1..], Wrap(Wrap(n * 128 + s[0] % 128, w) + 1, w), w); }
  }

  // ----- The mask -----

  lemma {:induction false} ByteEmpty(vout: seq<TxOut>, b: nat)
    ensures MaskByte(vout, b) == 0 <==> forall i :: 0 <= i < 8 ==> !MaskBit(vout, b, i)
  {
    BitsZero(MaskBits(vout, b));
  }

  lemma {:induction false} CountAppend(m: Bytes, x: int)
    ensures Used(m + [x]) == if x != 0 then |m| + 1 else Used(m)
    ensures Nonzero(m + [x]) == Nonzero(m) + if x != 0 then 1 else 0
  {
    assert (m + [x])[..|m|] == m;
  }

  lemma {:induction false} MaskAppend(vout: seq<TxOut>, b: nat)
    ensures Mask(vout, b + 1) == Mask(vout, b) + [MaskByte(vout, b)]
  {
  }

  method NoneLeft(vout: seq<TxOut>, b: nat, ghost mask: Bytes) returns (fZero: bool)
    requires b < |mask| && IsMaskByte(vout, mask, b)
    ensures fZero <==> mask[b] == 0
  {
    fZero := true;
    var i := 0;
    while i < 8 && 2 + b * 8 + i < |vout|
      invariant 0 <= i <= 8
      invariant fZero <==> forall j :: 0 <= j < i ==> !MaskBit(vout, b, j)
    {
      assert MaskBit(vout, b, i) <==> !vout[2 + b * 8 + i].IsNull();
      if !vout[2 + b * 8 + i].IsNull() { fZero := false; }
      i := i + 1;
    }
    assert forall j :: i <= j < 8 ==> !MaskBit(vout, b, j);
    ByteEmpty(vout, b);
  }

  method CountMask(vout: seq<TxOut>, ghost mask: Bytes) returns (nBytes: nat, nNonzeroBytes: nat)
    requires |mask| == MaskRoom(vout) && forall b {:trigger IsMaskByte(vout, mask, b)} :: IsMaskByte(vout, mask, b)
    ensures nBytes == Used(mask) && nNonzeroBytes == Nonzero(mask)
  {
    nBytes, nNonzeroBytes := 0, 0;
    var b := 0;
    while 2 + b * 8 < |vout|
      invariant 0 <= b <= |mask|
      invariant nBytes == Used(mask[..b]) && nNonzeroBytes == Nonzero(mask[..b])
    {
      assert IsMaskByte(vout, mask, b);
      var fZero := NoneLeft(vout, b, mask);
      CountAppend(mask[..b], mask[b]);
      assert mask[..b + 1] == mask[..b] + [mask[b]];
      if !fZero {
        nBytes := b + 1;
        nNonzeroBytes := nNonzeroBytes + 1;
      }
      b := b + 1;
    }
    assert mask[..b] == mask;
  }

  method CalcMaskSize(vout: seq<TxOut>) returns (nBytes: nat, nNonzeroBytes: nat)
    ensures nBytes == MaskSize(vout) && nNonzeroBytes == MaskCode(vout)
  {
    ghost var mask := Mask(vout, MaskRoom(vout));
    forall b ensures IsMaskByte(vout, mask, b) { }
    nBytes, nNonzeroBytes := CountMask(vout, mask);
  }

  lemma {:induction false} FromBitsAppend(bits: seq<bool>, x: bool)
    ensures FromBits(bits + [x]) == FromBits(bits) + if x then Pow2(|bits|) else 0
    decreases |bits|
  {
    if bits == [] {
      assert [] + [x] == [x];
    } else {
      FromBitsAppend(bits[1..], x);
      assert (bits + [x])[1..] == bits[1..] + [x];
    }
  }

  lemma {:induction false} FromBitsPad(bits: seq<bool>, i: nat)
    requires i <= |bits| && forall j :: i <= j < |bits| ==> !bits[j]
    ensures FromBits(bits) == FromBits(bits[..i])
    decreases |bits|
  {
    if i < |bits| {
      var n := |bits| - 1;
      FromBitsPad(bits[..n], i);
      FromBitsAppend(bits[..n], bits[n]);
      assert bits == bits[..n] + [bits[n]] && bits[..n][..i] == bits[..i];
    } else {
      assert bits[..i] == bits;
    }
  }

  method AvailByte(vout: seq<TxOut>, b: nat) returns (chAvail: nat)
    ensures chAvail == MaskByte(vout, b)
  {
    ghost var bits := MaskBits(vout, b);
    chAvail := 0;
    var i, bit := 0, 1;
    while i < 8 && 2 + b * 8 + i < |vout|
      invariant 0 <= i <= 8 && bit == Pow2(i)
      invariant chAvail == FromBits(bits[..i])
    {
      FromBitsAppend(bits[..i], bits[i]);
      assert bits[..i + 1] == bits[..i] + [bits[i]];
      assert bits[i] == MaskBit(vout, b, i) == !vout[2 + b * 8 + i].IsNull();
      if !vout[2 + b * 8 + i].IsNull() { chAvail := chAvail + bit; }
      i, bit := i + 1, 2 * bit;
    }
    assert forall j :: i <= j < 8 ==> !MaskBit(vout, b, j);
    FromBitsPad(bits, i);
    assert bits[..8] == bits;
  }

  method WriteMask(s: DataStream, vout: seq<TxOut>, nMaskSize: nat)
    modifies s
    ensures s.bytes == old(s.bytes) + Mask(vout, nMaskSize)
  {
    for b := 0 to nMaskSize
      invariant s.bytes == old(s.bytes) + Mask(vout, b)
    {
      var chAvail := AvailByte(vout, b);
      MaskAppend(vout, b);
      s.Put([chAvail]);
    }
  }

  /** What was read before, in front of what is still to be read. */
  ghost function After<T>(done: seq<T>, p: Parsed<seq<T>>): Parsed<seq<T>> {
    if p.Failed? then Failed else Parsed(done + p.value, p.rest)
  }

  lemma AfterNothing<T>(p: Parsed<seq<T>>)
    ensures After([], p) == p
  {
    if p.Parsed? { assert [] + p.value == p.value; }
  }

  lemma AfterMore<T>(a: seq<T>, b: seq<T>, p: Parsed<seq<T>>)
    ensures After(a, After(b, p)) == After(a + b, p)
  {
    if p.Parsed? { assert a + (b + p.value) == a + b + p.value; }
  }

  lemma MaskMore(s: Bytes, code: nat)
    requires code > 0 && s != []
    ensures CoinsCodecSpec.ReadMask(s, code)
      == After(ToBits(s[0], 8), CoinsCodecSpec.ReadMask(s[1..], if s[0] != 0 then code - 1 else code))
  {
  }

  lemma OutsMore(c: Curve, avail: seq<bool>, i: nat, s: Bytes, o: TxOut, t: Bytes)
    requires i < |avail| && if avail[i] then CoinsCodecSpec.ReadOut(c, s) == Parsed(o, t) else o == NULL_OUT && t == s
    ensures CoinsCodecSpec.ReadOuts(c, avail, i, s) == After([o], CoinsCodecSpec.ReadOuts(c, avail, i + 1, t))
  {
  }

  method BitsOfByte(chAvail: int, n: nat) returns (bits: seq<bool>)
    ensures bits == ToBits(chAvail, n)
  {
    bits := [];
    var rest := chAvail;
    for p := 0 to n
      invariant |bits| == p && bits + ToBits(rest, n - p) == ToBits(chAvail, n)
    {
      bits := bits + [rest % 2 == 1];
      rest := rest / 2;
    }
  }

  method ReadMask(s: DataStream, code: nat) returns (r: Option<seq<bool>>)
    modifies s
    ensures Took(CoinsCodecSpec.ReadMask(old(s.bytes), code), r, s.bytes)
  {
    var nMaskCode: nat, avail: seq<bool> := code, [];
    ghost var left := CoinsCodecSpec.ReadMask(s.bytes, code);
    AfterNothing(left);
    while nMaskCode > 0
      invariant left == CoinsCodecSpec.ReadMask(s.bytes, nMaskCode)
      invariant CoinsCodecSpec.ReadMask(old(s.bytes), code) == After(avail, left)
      decreases |s.bytes|
    {
      if s.bytes != [] { MaskMore(s.bytes, nMaskCode); }
      var b := s.Take(1);
      if b.None? { return None; }
      var bits := BitsOfByte(b.value[0], 8);
      if b.value[0] != 0 { nMaskCode := nMaskCode - 1; }
      left := CoinsCodecSpec.ReadMask(s.bytes, nMaskCode);
      AfterMore(avail, bits, left);
      avail := avail + bits;
    }
    assert avail + [] == avail;
    return Some(avail);
  }

  // ----- An entry -----

  /** Removes the spent outputs at the end. */
  method CleanOuts(outs: seq<TxOut>) returns (vout: seq<TxOut>)
    ensures vout == Trim(outs)
  {
    vout := outs;
    while |vout| > 0 && vout[|vout| - 1].IsNull()
      invariant Trim(vout) == Trim(outs)
    {
      vout := vout[..|vout| - 1];
    }
  }

  method WriteNext(s: DataStream, c: Curve, vout: seq<TxOut>, i: nat)
    requires i < |vout| && AllStorable(vout)
    modifies s
    ensures s.bytes + CoinsCodecSpec.WriteOuts(c, vout, i + 1) == old(s.bytes) + CoinsCodecSpec.WriteOuts(c, vout, i)
  {
    if !vout[i].IsNull() {
      WriteOut(s, c, vout[i]);
      Regrouped(old(s.bytes), CoinsCodecSpec.WriteOut(c, vout[i]), CoinsCodecSpec.WriteOuts(c, vout, i + 1));
    }
  }

  method WriteOuts(s: DataStream, c: Curve, vout: seq<TxOut>)
    requires AllStorable(vout)
    modifies s
    ensures s.bytes == old(s.bytes) + CoinsCodecSpec.WriteOuts(c, vout, 0)
  {
    ghost var whole := old(s.bytes) + CoinsCodecSpec.WriteOuts(c, vout, 0);
    var i := 0;
    while i < |vout|
      invariant 0 <= i <= |vout| && s.bytes + CoinsCodecSpec.WriteOuts(c, vout, i) == whole
    {
      WriteNext(s, c, vout, i);
      i := i + 1;
    }
  }

  method HeaderCode(k: Coins, nMaskCode: nat) returns (nCode: nat)
    requires Writable(k) && nMaskCode == MaskCode(k.vout)
    ensures nCode == Code(k.vout, k.coinBase) < Limit(W32)
  {
    var fFirst := |k.vout| > 0 && !k.vout[0].IsNull();
    var fSecond := |k.vout| > 1 && !k.vout[1].IsNull();
    CodeFits(k);
    SomethingLeft(k.vout);
    assert fFirst || fSecond || nMaskCode > 0;
    nCode := 8 * (nMaskCode - (if fFirst || fSecond then 0 else 1))
      + (if k.coinBase then 1 else 0) + (if fFirst then 2 else 0) + (if fSecond then 4 else 0);
  }

  lemma Chained(start: Bytes, a: Bytes, b: Bytes, m: Bytes, w: Bytes, h: Bytes)
    ensures start + a + b + m + w + h == start + (a + b + m + w + h)
  {
  }

  method Serialize(s: DataStream, c: Curve, k: Coins)
    requires Writable(k)
    modifies s
    ensures s.bytes == old(s.bytes) + CoinsCodecSpec.Serialize(c, k)
  {
    var nMaskSize, nMaskCode := CalcMaskSize(k.vout);
    var nCode := HeaderCode(k, nMaskCode);
    WriteVarInt(s, k.version, W32);
    WriteVarInt(s, nCode, W32);
    WriteMask(s, k.vout, nMaskSize);
    WriteOuts(s, c, k.vout);
    WriteVarInt(s, k.height, W32);
    Chained(old(s.bytes), VarInt(k.version), VarInt(nCode), Mask(k.vout, nMaskSize),
            CoinsCodecSpec.WriteOuts(c, k.vout, 0), VarInt(k.height));
  }

  method ReadOuts(s: DataStream, c: Curve, avail: seq<bool>) returns (r: Option<seq<TxOut>>)
    modifies s
    ensures Took(CoinsCodecSpec.ReadOuts(c, avail, 0, old(s.bytes)), r, s.bytes)
  {
    var vout: seq<TxOut>, i := [], 0;
    ghost var left := CoinsCodecSpec.ReadOuts(c, avail, 0, s.bytes);
    AfterNothing(left);
    while i < |avail|
      invariant 0 <= i <= |avail| && left == CoinsCodecSpec.ReadOuts(c, avail, i, s.bytes)
      invariant CoinsCodecSpec.ReadOuts(c, avail, 0, old(s.bytes)) == After(vout, left)
    {
      ghost var before := s.bytes;
      var out := NULL_OUT;
      if avail[i] {
        var o := ReadOut(s, c);
        if o.None? { return None; }
        out := o.value;
      }
      OutsMore(c, avail, i, before, out, s.bytes);
      i := i + 1;
      left := CoinsCodecSpec.ReadOuts(c, avail, i, s.bytes);
      AfterMore(vout, [out], left);
      vout := vout + [out];
    }
    assert vout + [] == vout;
    return Some(vout);
  }

  method Unserialize(s: DataStream, c: Curve) returns (r: Option<Coins>)
    modifies s
    ensures Took(CoinsCodecSpec.Unserialize(c, old(s.bytes)), r, s.bytes)
  {
    var nVersion := ReadVarInt(s, W32);
    if nVersion.None? { return None; }
    var nCode := ReadVarInt(s, W32);
    if nCode.None? { return None; }
    var code := nCode.value;
    var vAvail := [code / 2 % 2 == 1, code / 4 % 2 == 1];
    var mask := ReadMask(s, code / 8 + if vAvail[0] || vAvail[1] then 0 else 1);
    if mask.None? { return None; }
    var outs := ReadOuts(s, c, vAvail + mask.value);
    if outs.None? { return None; }
    var nHeight := ReadVarInt(s, W32);
    if nHeight.None? { return None; }
    var vout := CleanOuts(outs.value);
    r := Some(Coins(code % 2 == 1, vout, Signed(nHeight.value), Signed(nVersion.value)));
  }

  /** Writing an entry and reading it back. */
  method Store(c: Curve, k: Coins) returns (r: Option<Coins>)
    requires CurveOk(c) && Writable(k)
    ensures r == Some(Restored(k))
  {
    var s := new DataStream();
    Serialize(s, c, k);
    StoredBack(c, k, s.bytes);
    r := Unserialize(s, c);
  }
}
