/**
 The bytes in which the unspent outputs of a transaction are kept: variable-length integers,
 compressed amounts and scripts, a packed header and a mask saying which outputs are left.
 */
module CoinsCodecSpec {
  import opened Basics
  import opened Amounts
  import opened CoinsTypes

  type Bytes = seq<int>

  /** What reading from the front of a stream gives; running off its end is a failure. */
  datatype Parsed<T> = Failed | Parsed(value: T, rest: Bytes)

  // ----- Variable-length integers -----

  /** The bytes before the last, each with the top bit set. */
  function High(m: nat): Bytes {
    (if m <= 127 then [] else High(m / 128 - 1)) + [128 + m % 128]
  }

  /** A negative number stops after one byte. */
  function VarInt(n: int): Bytes {
    if n <= 127 then [n % 128] else High(n / 128 - 1) + [n % 128]
  }

  function ReadMore(s: Bytes, n: nat, w: Width): Parsed<nat> {
    if s == [] then Failed
    else
      var m := Wrap(n * 128 + s[0] % 128, w);
      if s[0] >= 128 then ReadMore(s[1..], Wrap(m + 1, w), w) else Parsed(m, s[1..])
  }

  function ReadVarInt(s: Bytes, w: Width): Parsed<nat> { ReadMore(s, 0, w) }

  lemma SevenBits(m: nat, q: nat, d: int)
    requires q == m / 128 && d % 128 == m % 128
    ensures q * 128 + d % 128 == m
  {
  }

  lemma {:induction false} ReadStep(m: nat, q: nat, d: int, t: Bytes, w: Width)
    requires m + 1 < Limit(w) && q == m / 128 && d == 128 + m % 128
    ensures ReadMore([d] + t, q, w) == ReadMore(t, m + 1, w)
  {
    assert ([d] + t)[1..] == t;
    SevenBits(m, q, d);
    WrapSmall(m, w);
    WrapSmall(m + 1, w);
  }

  lemma {:induction false} HighParts(m: nat, q: nat, d: int, t: Bytes)
    requires m > 127 && q == m / 128 && d == 128 + m % 128
    ensures q > 0 && High(m) + t == High(q - 1) + ([d] + t)
  {
    Regrouped(High(q - 1), [d], t);
  }

  lemma {:induction false} ReadHigh(m: nat, t: Bytes, w: Width)
    requires m + 1 < Limit(w)
    ensures ReadMore(High(m) + t, 0, w) == ReadMore(t, m + 1, w)
    decreases m
  {
    var q, d := m / 128, 128 + m % 128;
    ReadStep(m, q, d, t, w);
    if m <= 127 {
      assert High(m) == [d];
    } else {
      HighParts(m, q, d, t);
      ReadHigh(q - 1, [d] + t, w);
    }
  }

  lemma {:induction false} ReadLast(n: nat, q: nat, t: Bytes, w: Width)
    requires n < Limit(w) && q == n / 128
    ensures ReadMore([n % 128] + t, q, w) == Parsed(n, t)
  {
    assert ([n % 128] + t)[1..] == t;
  }

  /** A number comes back exactly when it is not negative. */
  lemma {:induction false} VarIntBack(n: int, t: Bytes, w: Width)
    requires n < Limit(w)
    ensures ReadVarInt(VarInt(n) + t, w) == Parsed(if n < 0 then n % 128 else n, t)
  {
    if n < 0 { ReadLast(n % 128, 0, t, w); }
    else {
      if n > 127 {
        assert VarInt(n) + t == High(n / 128 - 1) + ([n % 128] + t);
        ReadHigh(n / 128 - 1, [n % 128] + t, w);
      }
      ReadLast(n, n / 128, t, w);
    }
  }

  /** Groups of seven bits, highest first; longer forms start where shorter ones end. */
  lemma VarIntForms(n: nat)
    ensures n < 128 ==> VarInt(n) == [n]
    ensures 128 <= n < 16512 ==> var m := n - 128; VarInt(n) == [128 + m / 128, m % 128]
    ensures 16512 <= n < 2113664 ==>
      var m := n - 16512; VarInt(n) == [128 + m / 16384, 128 + m / 128 % 128, m % 128]
  {
    if 16512 <= n < 2113664 { ThreeGroups(n, n - 16512, n / 128 - 1, n / 128 / 128); }
  }

  lemma ThreeGroups(n: nat, m: nat, q: nat, r: nat)
    requires 16512 <= n < 2113664 && m == n - 16512 && q == n / 128 - 1 && r == n / 128 / 128
    ensures VarInt(n) == [128 + m / 16384, 128 + m / 128 % 128, m % 128]
  {
    assert n / 128 == m / 128 + 129 && n % 128 == m % 128;
    assert q == m / 128 + 128 && q / 128 - 1 == m / 16384 && q % 128 == m / 128 % 128;
    assert High(q / 128 - 1) == [128 + m / 16384];
  }

  // ----- Scripts -----

  const MAX_SCRIPT_SIZE := 10000
  const OP_RETURN := 0x6a
  const OP_DUP := 0x76
  const OP_EQUAL := 0x87
  const OP_EQUALVERIFY := 0x88
  const OP_HASH160 := 0xa9
  const OP_CHECKSIG := 0xac

  /** The elliptic curve: which full keys are points, and the full key of a short one. */
  datatype Curve = Curve(valid: Bytes -> bool, expand: Bytes -> Option<Bytes>)

  ghost predicate PointBack(c: Curve, p: Bytes) {
    |p| == 65 && p[0] == 4 && c.valid(p) ==> c.expand([2 + p[64] % 2] + p[1..33]) == Some(p)
  }

  /** A point is determined by its first coordinate and the parity of its second. */
  ghost predicate CurveOk(c: Curve) {
    forall p {:trigger PointBack(c, p)} :: PointBack(c, p)
  }

  predicate IsToKeyID(s: Bytes) {
    |s| == 25 && s[0] == OP_DUP && s[1] == OP_HASH160 && s[2] == 20 && s[23] == OP_EQUALVERIFY && s[24] == OP_CHECKSIG
  }

  predicate IsToScriptID(s: Bytes) {
    |s| == 23 && s[0] == OP_HASH160 && s[1] == 20 && s[22] == OP_EQUAL
  }

  predicate IsToShortKey(s: Bytes) {
    |s| == 35 && s[0] == 33 && s[34] == OP_CHECKSIG && (s[1] == 2 || s[1] == 3)
  }

  predicate IsToFullKey(c: Curve, s: Bytes) {
    |s| == 67 && s[0] == 65 && s[66] == OP_CHECKSIG && s[1] == 4 && c.valid(s[1..66])
  }

  function Compress(c: Curve, s: Bytes): Option<Bytes> {
    if IsToKeyID(s) then Some([0] + s[3..23])
    else if IsToScriptID(s) then Some([1] + s[2..22])
    else if IsToShortKey(s) then Some(s[1..34])
    else if IsToFullKey(c, s) then Some([4 + s[65] % 2] + s[2..34])
    else None
  }

  function SpecialSize(n: nat): nat { if n <= 1 then 20 else if n <= 5 then 32 else 0 }

  /** A key that is not on the curve leaves the script empty. */
  function Decompress(c: Curve, n: nat, d: Bytes): Bytes {
    if n == 0 then [OP_DUP, OP_HASH160, 20] + d + [OP_EQUALVERIFY, OP_CHECKSIG]
    else if n == 1 then [OP_HASH160, 20] + d + [OP_EQUAL]
    else if n <= 3 then [33, n] + d + [OP_CHECKSIG]
    else
      match c.expand([n - 2] + d)
      case None => []
      case Some(p) => [65] + p + [OP_CHECKSIG]
  }

  /** Numbers and contents of the special scripts: to a key hash, to a script hash, to a short and to a full key. */
  lemma CompressForms(c: Curve, h: Bytes, key: Bytes)
    requires |h| == 20
    ensures Compress(c, [0x76, 0xa9, 20] + h + [0x88, 0xac]) == Some([0] + h)
    ensures Compress(c, [0xa9, 20] + h + [0x87]) == Some([1] + h)
    ensures |key| == 33 && (key[0] == 2 || key[0] == 3) ==> Compress(c, [33] + key + [0xac]) == Some(key)
    ensures |key| == 65 && key[0] == 4 && c.valid(key) ==>
      Compress(c, [65] + key + [0xac]) == Some([4 + key[64] % 2] + key[1..33])
  {
    assert ([0x76, 0xa9, 20] + h + [0x88, 0xac])[3..23] == h && ([0xa9, 20] + h + [0x87])[2..22] == h;
    if |key| == 33 { assert ([33] + key + [0xac])[1..34] == key; }
    if |key| == 65 {
      var s := [65] + key + [0xac];
      assert s[1..66] == key && s[2..34] == key[1..33];
    }
  }

  lemma DecompressCompressed(c: Curve, s: Bytes)
    requires CurveOk(c) && Compress(c, s).Some?
    ensures var d := Compress(c, s).value;
      |d| > 0 && 0 <= d[0] <= 5 && |d| == 1 + SpecialSize(d[0]) && Decompress(c, d[0], d[1..]) == s
  {
    if IsToKeyID(s) {
      assert ([0] + s[3..23])[1..] == s[3..23];
      assert [OP_DUP, OP_HASH160, 20] + s[3..23] + [OP_EQUALVERIFY, OP_CHECKSIG] == s;
    } else if IsToScriptID(s) {
      assert ([1] + s[2..22])[1..] == s[2..22];
      assert [OP_HASH160, 20] + s[2..22] + [OP_EQUAL] == s;
    } else if IsToShortKey(s) {
      assert s[1..34][1..] == s[2..34];
      assert [33, s[1]] + s[2..34] + [OP_CHECKSIG] == s;
    } else {
      FullKeyBack(c, s);
    }
  }

  lemma FullKeyBack(c: Curve, s: Bytes)
    requires CurveOk(c) && IsToFullKey(c, s)
    ensures var d := [4 + s[65] % 2] + s[2..34];
      |d| == 33 && Decompress(c, d[0], d[1..]) == s
  {
    var p := s[1..66];
    assert PointBack(c, p);
    assert p[1..33] == s[2..34];
    assert ([4 + s[65] % 2] + s[2..34])[1..] == s[2..34];
    assert [65] + p + [OP_CHECKSIG] == s;
  }

  function WriteScript(c: Curve, s: Bytes): Bytes {
    match Compress(c, s)
    case Some(d) => d
    case None => VarInt(|s| + 6) + s
  }

  function ReadScript(c: Curve, s: Bytes): Parsed<Bytes> {
    match ReadVarInt(s, W32)
    case Failed => Failed
    case Parsed(n, t) => ReadScriptBody(c, n, t)
  }

  function ReadScriptBody(c: Curve, n: nat, t: Bytes): Parsed<Bytes> {
    if n < 6 then
      if |t| < SpecialSize(n) then Failed
      else Parsed(Decompress(c, n, t[..SpecialSize(n)]), t[SpecialSize(n)..])
    else if |t| < n - 6 then Failed
    else Parsed(if n - 6 > MAX_SCRIPT_SIZE then [OP_RETURN] else t[..n - 6], t[n - 6..])
  }

  /** Overly long scripts come back as a short unspendable one. */
  function Short(s: Bytes): Bytes { if |s| > MAX_SCRIPT_SIZE then [OP_RETURN] else s }

  lemma {:induction false} SpecialBack(c: Curve, d: Bytes, t: Bytes)
    requires |d| > 0 && 0 <= d[0] <= 5 && |d| == 1 + SpecialSize(d[0])
    ensures ReadScript(c, d + t) == Parsed(Decompress(c, d[0], d[1..]), t)
  {
    assert d + t == VarInt(d[0]) + (d[1..] + t);
    VarIntBack(d[0], d[1..] + t, W32);
    assert (d[1..] + t)[..|d| - 1] == d[1..] && (d[1..] + t)[|d| - 1..] == t;
  }

  lemma {:induction false} ScriptBack(c: Curve, s: Bytes, t: Bytes)
    requires CurveOk(c) && |s| + 6 < Limit(W32)
    ensures ReadScript(c, WriteScript(c, s) + t) == Parsed(Short(s), t)
  {
    if Compress(c, s).Some? {
      DecompressCompressed(c, s);
      SpecialBack(c, Compress(c, s).value, t);
    } else {
      assert VarInt(|s| + 6) + s + t == VarInt(|s| + 6) + (s + t);
      VarIntBack(|s| + 6, s + t, W32);
      assert (s + t)[..|s|] == s && (s + t)[|s|..] == t;
    }
  }

  // ----- One output -----

  function WriteOut(c: Curve, o: TxOut): Bytes {
    VarInt(AmountCode(o.value)) + WriteScript(c, o.script)
  }

  function ReadOut(c: Curve, s: Bytes): Parsed<TxOut> {
    match ReadVarInt(s, W64)
    case Failed => Failed
    case Parsed(x, t) =>
      match ReadScript(c, t)
      case Failed => Failed
      case Parsed(script, u) => Parsed(TxOut(AmountOf(x), script), u)
  }

  /** What an output is read back as. */
  function Kept(o: TxOut): TxOut {
    if o.IsNull() then NULL_OUT else TxOut(AmountOf(AmountCode(o.value)), Short(o.script))
  }

  /** A 64-bit amount, and a script whose length fits 32 bits. */
  predicate Storable(o: TxOut) {
    -9223372036854775808 <= o.value < 9223372036854775808 && |o.script| + 6 < Limit(W32)
  }

  /** Nothing is cut: the code of the amount fits, the script is not overlong, a spent output is cleared. */
  predicate Safe(o: TxOut) {
    if o.IsNull() then o.script == []
    else CompressAmount(Wrap(o.value, W64)) < Limit(W64) && |o.script| <= MAX_SCRIPT_SIZE
  }

  lemma {:induction false} KeptExact(o: TxOut)
    requires Storable(o)
    ensures Kept(o) == o <==> Safe(o)
  {
    AmountExact(o.value);
  }

  lemma {:induction false} OutParts(c: Curve, x: nat, written: Bytes, script: Bytes, t: Bytes)
    requires x < Limit(W64) && ReadScript(c, written + t) == Parsed(script, t)
    ensures ReadOut(c, VarInt(x) + written + t) == Parsed(TxOut(AmountOf(x), script), t)
  {
    assert VarInt(x) + written + t == VarInt(x) + (written + t);
    VarIntBack(x, written + t, W64);
  }

  lemma {:induction false} OutBack(c: Curve, o: TxOut, t: Bytes)
    requires CurveOk(c) && Storable(o) && !o.IsNull()
    ensures ReadOut(c, WriteOut(c, o) + t) == Parsed(Kept(o), t)
  {
    ScriptBack(c, o.script, t);
    OutParts(c, AmountCode(o.value), WriteScript(c, o.script), Short(o.script), t);
  }

  // ----- The mask -----

  function FromBits(bits: seq<bool>): nat {
    if bits == [] then 0 else (if bits[0] then 1 else 0) + 2 * FromBits(bits[1..])
  }

  function ToBits(x: int, n: nat): (r: seq<bool>)
    ensures |r| == n
    decreases n, x
  {
    if n == 0 then [] else [x % 2 == 1] + ToBits(x / 2, n - 1)
  }

  /** Bit i of a number. */
  predicate BitAt(x: nat, i: nat) { if i == 0 then x % 2 == 1 else BitAt(x / 2, i - 1) }

  /** The lowest bit of a byte stands for the first of its outputs. */
  lemma {:induction false} LowestFirst(bits: seq<bool>, i: nat)
    requires i < |bits|
    ensures BitAt(FromBits(bits), i) == bits[i]
    decreases i
  {
    if i > 0 {
      LowestFirst(bits[1..], i - 1);
      assert FromBits(bits) / 2 == FromBits(bits[1..]);
    }
  }

  lemma {:induction false} BitsBack(bits: seq<bool>)
    ensures ToBits(FromBits(bits), |bits|) == bits
  {
    if bits != [] {
      BitsBack(bits[1..]);
      assert bits == [bits[0]] + bits[1..];
    }
  }

  lemma {:induction false} BitsZero(bits: seq<bool>)
    ensures FromBits(bits) == 0 <==> forall i :: 0 <= i < |bits| ==> !bits[i]
  {
    if bits != [] {
      BitsZero(bits[1..]);
      assert forall i :: 1 <= i < |bits| ==> bits[i] == bits[1..][i - 1];
    }
  }

  predicate Available(vout: seq<TxOut>, i: nat) { i < |vout| && !vout[i].IsNull() }

  /** Which of outputs 2 + 8b .. 9 + 8b are left. */
  predicate MaskBit(vout: seq<TxOut>, b: nat, i: int) { i >= 0 && Available(vout, 2 + 8 * b + i) }

  function MaskBits(vout: seq<TxOut>, b: nat): (r: seq<bool>)
    ensures |r| == 8 && forall i :: 0 <= i < 8 ==> r[i] == MaskBit(vout, b, i)
  {
    seq(8, i => MaskBit(vout, b, i))
  }

  function MaskByte(vout: seq<TxOut>, b: nat): nat { FromBits(MaskBits(vout, b)) }

  function Mask(vout: seq<TxOut>, n: nat): (r: Bytes)
    ensures |r| == n && forall b :: 0 <= b < n ==> r[b] == MaskByte(vout, b)
  {
    seq(n, b requires 0 <= b => MaskByte(vout, b))
  }

  function Nonzero(m: Bytes): nat {
    if m == [] then 0 else Nonzero(m[..|m| - 1]) + if m[|m| - 1] != 0 then 1 else 0
  }

  /** m without the zero bytes at its end. */
  function Used(m: Bytes): (n: nat)
    ensures n <= |m| && (n > 0 ==> m[n - 1] != 0) && forall i :: n <= i < |m| ==> m[i] == 0
  {
    if m == [] then 0 else if m[|m| - 1] != 0 then |m| else Used(m[..|m| - 1])
  }

  /** The mask bytes there are outputs for. */
  function MaskRoom(vout: seq<TxOut>): nat { if |vout| <= 2 then 0 else (|vout| + 5) / 8 }

  function MaskSize(vout: seq<TxOut>): nat { Used(Mask(vout, MaskRoom(vout))) }
  function MaskCode(vout: seq<TxOut>): nat { Nonzero(Mask(vout, MaskRoom(vout))) }

  /** Reads mask bytes until `code` of them were not zero. */
  function ReadMask(s: Bytes, code: nat): Parsed<seq<bool>>
    decreases |s|
  {
    if code == 0 then Parsed([], s)
    else if s == [] then Failed
    else
      match ReadMask(s[1..], if s[0] != 0 then code - 1 else code)
      case Failed => Failed
      case Parsed(bits, t) => Parsed(ToBits(s[0], 8) + bits, t)
  }

  // ----- The header -----

  function Code(vout: seq<TxOut>, coinBase: bool): int {
    var first, second := Available(vout, 0), Available(vout, 1);
    8 * (MaskCode(vout) - (if first || second then 0 else 1))
      + (if coinBase then 1 else 0) + (if first then 2 else 0) + (if second then 4 else 0)
  }

  // ----- A whole entry -----

  function WriteOuts(c: Curve, vout: seq<TxOut>, i: nat): Bytes
    decreases |vout| - i
  {
    if i >= |vout| then []
    else (if vout[i].IsNull() then [] else WriteOut(c, vout[i])) + WriteOuts(c, vout, i + 1)
  }

  function ReadOuts(c: Curve, avail: seq<bool>, i: nat, s: Bytes): Parsed<seq<TxOut>>
    decreases |avail| - i
  {
    if i >= |avail| then Parsed([], s)
    else if !avail[i] then
      match ReadOuts(c, avail, i + 1, s)
      case Failed => Failed
      case Parsed(outs, t) => Parsed([NULL_OUT] + outs, t)
    else
      match ReadOut(c, s)
      case Failed => Failed
      case Parsed(o, t) =>
        match ReadOuts(c, avail, i + 1, t)
        case Failed => Failed
        case Parsed(outs, u) => Parsed([o] + outs, u)
  }

  predicate IsInt32(n: int) { -2147483648 <= n < 2147483648 }

  /** The signed number of 32 bits. */
  function Signed(x: nat): int { if x >= 2147483648 then x - 4294967296 else x }

  /** An entry with something left, in numbers of the source's widths. */
  predicate Writable(k: Coins) {
    !k.IsPruned() && IsInt32(k.version) && IsInt32(k.height) && |k.vout| < 4294967280 && AllStorable(k.vout)
  }

  function Serialize(c: Curve, k: Coins): Bytes {
    VarInt(k.version) + VarInt(Code(k.vout, k.coinBase)) + Mask(k.vout, MaskSize(k.vout))
      + WriteOuts(c, k.vout, 0) + VarInt(k.height)
  }

  function Unserialize(c: Curve, s: Bytes): Parsed<Coins> {
    match ReadVarInt(s, W32)
    case Failed => Failed
    case Parsed(version, s1) =>
      match ReadVarInt(s1, W32)
      case Failed => Failed
      case Parsed(code, s2) => ReadBody(c, version, code, s2)
  }

  function ReadBody(c: Curve, version: nat, code: nat, s: Bytes): Parsed<Coins> {
    var head := [code / 2 % 2 == 1, code / 4 % 2 == 1];
    match ReadMask(s, code / 8 + if head[0] || head[1] then 0 else 1)
    case Failed => Failed
    case Parsed(bits, t) =>
      match ReadOuts(c, head + bits, 0, t)
      case Failed => Failed
      case Parsed(outs, u) =>
        match ReadVarInt(u, W32)
        case Failed => Failed
        case Parsed(height, v) => Parsed(Coins(code % 2 == 1, Trim(outs), Signed(height), Signed(version)), v)
  }

  // ----- The mask comes back -----

  function Left(vout: seq<TxOut>, b: nat, n: nat): seq<bool>
    requires b <= n
  {
    seq(8 * (n - b), j requires 0 <= j => Available(vout, 2 + 8 * b + j))
  }

  lemma LeftStep(vout: seq<TxOut>, b: nat, n: nat)
    requires b < n
    ensures Left(vout, b, n) == MaskBits(vout, b) + Left(vout, b + 1, n)
  {
  }

  lemma {:induction false} NonzeroFront(m: Bytes)
    requires m != []
    ensures Nonzero(m) == (if m[0] != 0 then 1 else 0) + Nonzero(m[1..])
    decreases |m|
  {
    if |m| > 1 {
      NonzeroFront(m[..|m| - 1]);
      assert m[1..][..|m| - 2] == m[..|m| - 1][1..];
    }
  }

  lemma {:induction false} MaskStep(x: int, rest: Bytes, code: nat, bits: seq<bool>, t: Bytes)
    requires code > 0 && ReadMask(rest, if x != 0 then code - 1 else code) == Parsed(bits, t)
    ensures ReadMask([x] + rest, code) == Parsed(ToBits(x, 8) + bits, t)
  {
    assert ([x] + rest)[1..] == rest;
  }

  ghost predicate IsMaskByte(vout: seq<TxOut>, m: Bytes, b: nat) { b < |m| ==> m[b] == MaskByte(vout, b) }

  /** Reads a mask from byte b on; the last byte is the last one that is not zero. */
  lemma {:induction false} MaskBack(vout: seq<TxOut>, m: Bytes, b: nat, t: Bytes)
    requires forall b {:trigger IsMaskByte(vout, m, b)} :: IsMaskByte(vout, m, b)
    requires b <= |m| && (m != [] ==> m[|m| - 1] != 0)
    ensures ReadMask(m[b..] + t, Nonzero(m[b..])) == Parsed(Left(vout, b, |m|), t)
    decreases |m| - b
  {
    if b == |m| {
      assert m[b..] == [] && [] + t == t && Left(vout, b, |m|) == [];
    } else {
      MaskBack(vout, m, b + 1, t);
      MaskNext(vout, m, b, m[b..], m[b + 1..], t);
    }
  }

  lemma {:induction false} MaskNext(vout: seq<TxOut>, m: Bytes, b: nat, here: Bytes, rest: Bytes, t: Bytes)
    requires b < |m| && here == [m[b]] + rest && here[|here| - 1] != 0 && IsMaskByte(vout, m, b)
    requires ReadMask(rest + t, Nonzero(rest)) == Parsed(Left(vout, b + 1, |m|), t)
    ensures ReadMask(here + t, Nonzero(here)) == Parsed(Left(vout, b, |m|), t)
  {
    NonzeroFront(here);
    assert here[1..] == rest && here + t == [m[b]] + (rest + t);
    MaskStep(m[b], rest + t, Nonzero(here), Left(vout, b + 1, |m|), t);
    BitsBack(MaskBits(vout, b));
    LeftStep(vout, b, |m|);
  }

  lemma {:induction false} NonzeroUsed(m: Bytes)
    ensures Nonzero(m[..Used(m)]) == Nonzero(m) <= |m|
    ensures Nonzero(m) == 0 <==> Used(m) == 0
    decreases |m|
  {
    if m != [] {
      var n := |m| - 1;
      NonzeroUsed(m[..n]);
      if m[n] == 0 { assert m[..n][..Used(m)] == m[..Used(m)]; } else { assert m[..|m|] == m; }
    }
  }

  /** Nothing is left beyond the mask. */
  lemma {:induction false} BeyondMask(vout: seq<TxOut>, j: nat)
    requires j >= 2 + 8 * MaskSize(vout)
    ensures !Available(vout, j)
  {
    if j < |vout| {
      var b := (j - 2) / 8;
      var m := Mask(vout, MaskRoom(vout));
      assert MaskSize(vout) <= b < MaskRoom(vout) && m[b] == 0;
      BitsZero(MaskBits(vout, b));
      assert MaskBits(vout, b)[(j - 2) % 8] == Available(vout, 2 + 8 * b + (j - 2) % 8);
    }
  }

  lemma {:induction false} MaskHolds(vout: seq<TxOut>, b: nat) returns (i: nat)
    requires MaskByte(vout, b) != 0
    ensures Available(vout, i)
  {
    BitsZero(MaskBits(vout, b));
    var j :| 0 <= j < 8 && MaskBits(vout, b)[j];
    i := 2 + 8 * b + j;
  }

  /** The assertion in Serialize fails exactly on a fully spent entry. */
  lemma {:induction false} SomethingLeft(vout: seq<TxOut>)
    ensures Available(vout, 0) || Available(vout, 1) || MaskCode(vout) > 0 <==> exists i: nat :: Available(vout, i)
  {
    NonzeroUsed(Mask(vout, MaskRoom(vout)));
    if MaskCode(vout) > 0 {
      var i := MaskHolds(vout, MaskSize(vout) - 1);
    } else {
      forall i: nat | i >= 2 ensures !Available(vout, i) { BeyondMask(vout, i); }
    }
  }

  lemma CodeBack(mask: nat, first: bool, second: bool, coinBase: bool, code: int)
    requires first || second || mask > 0
    requires code == 8 * (mask - (if first || second then 0 else 1))
      + (if coinBase then 1 else 0) + (if first then 2 else 0) + (if second then 4 else 0)
    ensures code >= 0 && (code % 2 == 1 <==> coinBase)
    ensures (code / 2 % 2 == 1 <==> first) && (code / 4 % 2 == 1 <==> second)
    ensures code / 8 + (if first || second then 0 else 1) == mask
  {
  }

  // ----- The outputs come back -----

  function Outs(vout: seq<TxOut>, i: nat, n: nat): seq<TxOut>
    requires i <= n
  {
    seq(n - i, j requires 0 <= j => if Available(vout, i + j) then Kept(vout[i + j]) else NULL_OUT)
  }

  lemma OutsStep(vout: seq<TxOut>, i: nat, n: nat)
    requires i < n
    ensures Outs(vout, i, n) == [if Available(vout, i) then Kept(vout[i]) else NULL_OUT] + Outs(vout, i + 1, n)
  {
  }

  predicate AllStorable(vout: seq<TxOut>) {
    forall i :: 0 <= i < |vout| ==> Storable(vout[i])
  }

  lemma {:induction false} NothingWritten(c: Curve, vout: seq<TxOut>, i: nat)
    requires forall j: nat :: j >= i ==> !Available(vout, j)
    ensures WriteOuts(c, vout, i) == []
    decreases |vout| - i
  {
    if i < |vout| {
      assert !Available(vout, i);
      NothingWritten(c, vout, i + 1);
    }
  }

  lemma {:induction false} OutsBack(c: Curve, vout: seq<TxOut>, avail: seq<bool>, i: nat, t: Bytes)
    requires CurveOk(c) && AllStorable(vout) && i <= |avail|
    requires Marks(vout, avail)
    ensures ReadOuts(c, avail, i, WriteOuts(c, vout, i) + t) == Parsed(Outs(vout, i, |avail|), t)
    decreases |avail| - i
  {
    if i == |avail| {
      forall j: nat | j >= i ensures !Available(vout, j) { assert MarkAt(vout, avail, j); }
      NothingWritten(c, vout, i);
      assert WriteOuts(c, vout, i) + t == t && Outs(vout, i, |avail|) == [];
    } else {
      assert MarkAt(vout, avail, i);
      OutsBack(c, vout, avail, i + 1, t);
      OutsStep(vout, i, |avail|);
      OutWritten(c, vout, i, t);
    }
  }

  /** The list says which outputs are left, and none is left beyond it. */
  ghost predicate MarkAt(vout: seq<TxOut>, avail: seq<bool>, j: nat) {
    if j < |avail| then avail[j] == Available(vout, j) else !Available(vout, j)
  }

  ghost predicate Marks(vout: seq<TxOut>, avail: seq<bool>) {
    forall j: nat {:trigger MarkAt(vout, avail, j)} :: MarkAt(vout, avail, j)
  }

  lemma {:induction false} OutWritten(c: Curve, vout: seq<TxOut>, i: nat, t: Bytes)
    requires CurveOk(c) && AllStorable(vout)
    ensures !Available(vout, i) ==> WriteOuts(c, vout, i) == WriteOuts(c, vout, i + 1)
    ensures Available(vout, i) ==>
      ReadOut(c, WriteOuts(c, vout, i) + t) == Parsed(Kept(vout[i]), WriteOuts(c, vout, i + 1) + t)
  {
    var rest := WriteOuts(c, vout, i + 1);
    if Available(vout, i) {
      OutBack(c, vout[i], rest + t);
      Regrouped(WriteOut(c, vout[i]), rest, t);
    } else if i < |vout| {
      assert [] + rest == rest;
    }
  }

  lemma Regrouped(a: Bytes, b: Bytes, t: Bytes)
    ensures a + b + t == a + (b + t)
  {
  }

  function KeptAll(vout: seq<TxOut>): seq<TxOut> { seq(|vout|, i requires 0 <= i < |vout| => Kept(vout[i])) }

  /** Nulls at the end do not matter. */
  lemma {:induction false} TrimPadded(v: seq<TxOut>, n: nat)
    requires n <= |v| && forall i :: n <= i < |v| ==> v[i].IsNull()
    ensures Trim(v) == Trim(v[..n])
    decreases |v|
  {
    if n < |v| {
      TrimPadded(v[..|v| - 1], n);
      assert v[..|v| - 1][..n] == v[..n];
    } else {
      assert v[..n] == v;
    }
  }

  /** What is read, trimmed, is what was left, as it is kept. */
  lemma {:induction false} TrimKept(vout: seq<TxOut>, n: nat)
    requires forall j: nat :: j >= n ==> !Available(vout, j)
    ensures Trim(Outs(vout, 0, n)) == Trim(KeptAll(Trim(vout)))
  {
    var outs, q := Outs(vout, 0, n), Trim(vout);
    assert q != [] ==> Available(vout, |q| - 1);
    assert |q| <= n;
    forall i | |q| <= i < n ensures outs[i].IsNull() { assert !Available(vout, i); }
    TrimPadded(outs, |q|);
    forall i | 0 <= i < |q| ensures outs[i] == KeptAll(q)[i] { assert q[i] == vout[i]; }
    assert outs[..|q|] == KeptAll(q);
  }

  // ----- The entry comes back -----

  /** What a number is read back as. */
  function Cut(n: int): int { if n < 0 then n % 128 else n }

  /** What an entry is read back as: trimmed, each output as it is kept, negative numbers cut to seven bits. */
  function Restored(k: Coins): Coins {
    Coins(k.coinBase, Trim(KeptAll(Trim(k.vout))), Cut(k.height), Cut(k.version))
  }

  function Head(vout: seq<TxOut>): seq<bool> { [Available(vout, 0), Available(vout, 1)] }

  lemma {:induction false} CodeFits(k: Coins)
    requires Writable(k)
    ensures var code := Code(k.vout, k.coinBase);
      && 0 <= code < Limit(W32) && (code % 2 == 1 <==> k.coinBase)
      && [code / 2 % 2 == 1, code / 4 % 2 == 1] == Head(k.vout)
      && code / 8 + (if Head(k.vout)[0] || Head(k.vout)[1] then 0 else 1) == MaskCode(k.vout)
  {
    var vout := k.vout;
    SomethingLeft(vout);
    assert exists i: nat :: Available(vout, i) by {
      var i :| 0 <= i < |vout| && !vout[i].IsNull();
      assert Available(vout, i);
    }
    NonzeroUsed(Mask(vout, MaskRoom(vout)));
    CodeBack(MaskCode(vout), Available(vout, 0), Available(vout, 1), k.coinBase, Code(vout, k.coinBase));
  }

  lemma {:induction false} WholeMaskBack(vout: seq<TxOut>, m: Bytes, t: Bytes)
    requires m == Mask(vout, MaskSize(vout))
    ensures ReadMask(m + t, MaskCode(vout)) == Parsed(Left(vout, 0, |m|), t)
  {
    var all := Mask(vout, MaskRoom(vout));
    NonzeroUsed(all);
    assert all[..|m|] == m && m[0..] == m;
    forall b ensures IsMaskByte(vout, m, b) { }
    MaskBack(vout, m, 0, t);
  }

  lemma {:induction false} AvailIs(vout: seq<TxOut>, n: nat, avail: seq<bool>)
    requires avail == Head(vout) + Left(vout, 0, n)
    ensures |avail| == 2 + 8 * n && forall j :: 0 <= j < |avail| ==> avail[j] == Available(vout, j)
  {
    forall j | 0 <= j < |avail| ensures avail[j] == Available(vout, j) {
      if j >= 2 { assert avail[j] == Left(vout, 0, n)[j - 2]; }
    }
  }

  lemma {:induction false} NothingBeyond(vout: seq<TxOut>, n: nat)
    requires n == 2 + 8 * MaskSize(vout)
    ensures forall j: nat :: j >= n ==> !Available(vout, j)
  {
    forall j: nat | j >= n ensures !Available(vout, j) { BeyondMask(vout, j); }
  }

  lemma {:induction false} AllOutsBack(c: Curve, vout: seq<TxOut>, n: nat, size: nat, t: Bytes)
    requires CurveOk(c) && AllStorable(vout) && n == MaskSize(vout) && size == 2 + 8 * n
    ensures ReadOuts(c, Head(vout) + Left(vout, 0, n), 0, WriteOuts(c, vout, 0) + t) == Parsed(Outs(vout, 0, size), t)
    ensures Trim(Outs(vout, 0, size)) == Trim(KeptAll(Trim(vout)))
  {
    AllOutsRead(c, vout, n, size, Head(vout) + Left(vout, 0, n), t);
    AllTrimmed(vout, size);
  }

  lemma {:induction false} AllOutsRead(c: Curve, vout: seq<TxOut>, n: nat, size: nat, avail: seq<bool>, t: Bytes)
    requires CurveOk(c) && AllStorable(vout) && n == MaskSize(vout) && size == 2 + 8 * n
    requires avail == Head(vout) + Left(vout, 0, n)
    ensures ReadOuts(c, avail, 0, WriteOuts(c, vout, 0) + t) == Parsed(Outs(vout, 0, size), t)
  {
    AvailIs(vout, n, avail);
    NothingBeyond(vout, size);
    forall j: nat ensures MarkAt(vout, avail, j) {}
    OutsBack(c, vout, avail, 0, t);
  }

  lemma {:induction false} AllTrimmed(vout: seq<TxOut>, size: nat)
    requires size == 2 + 8 * MaskSize(vout)
    ensures Trim(Outs(vout, 0, size)) == Trim(KeptAll(Trim(vout)))
  {
    NothingBeyond(vout, size);
    TrimKept(vout, size);
  }

  lemma {:induction false} BodyBack(c: Curve, version: nat, code: nat, head: seq<bool>, mask: nat, s: Bytes,
                                    bits: seq<bool>,
                                    t: Bytes, outs: seq<TxOut>, u: Bytes, height: nat, v: Bytes)
    requires head == [code / 2 % 2 == 1, code / 4 % 2 == 1] && mask == code / 8 + (if head[0] || head[1] then 0 else 1)
    requires ReadMask(s, mask) == Parsed(bits, t) && ReadOuts(c, head + bits, 0, t) == Parsed(outs, u)
    requires ReadVarInt(u, W32) == Parsed(height, v)
    ensures ReadBody(c, version, code, s) ==
      Parsed(Coins(code % 2 == 1, Trim(outs), Signed(height), Signed(version)), v)
  {
  }

  lemma Grouped(a: Bytes, b: Bytes, m: Bytes, w: Bytes, h: Bytes, t: Bytes)
    ensures a + b + m + w + h + t == a + (b + (m + (w + (h + t))))
  {
  }

  /** Reading undoes writing for every entry with something left, whatever follows in the stream. */
  lemma {:induction false} RoundTrip(c: Curve, k: Coins, t: Bytes)
    requires CurveOk(c) && Writable(k)
    ensures Unserialize(c, Serialize(c, k) + t) == Parsed(Restored(k), t)
  {
    var vout, code := k.vout, Code(k.vout, k.coinBase);
    var m, w, h := Mask(vout, MaskSize(vout)), WriteOuts(c, vout, 0), VarInt(k.height);
    CodeFits(k);
    Grouped(VarInt(k.version), VarInt(code), m, w, h, t);
    var s := m + (w + (h + t));
    VarIntBack(k.version, VarInt(code) + s, W32);
    VarIntBack(code, s, W32);
    EntryBack(c, k, code, m, w, h, t);
  }

  lemma {:induction false} EntryBack(c: Curve, k: Coins, code: nat, m: Bytes, w: Bytes, h: Bytes, t: Bytes)
    requires CurveOk(c) && Writable(k) && code == Code(k.vout, k.coinBase)
    requires m == Mask(k.vout, MaskSize(k.vout)) && w == WriteOuts(c, k.vout, 0) && h == VarInt(k.height)
    ensures ReadBody(c, Cut(k.version), code, m + (w + (h + t))) == Parsed(Restored(k), t)
  {
    CodeFits(k);
    var n, u := |m|, h + t;
    VarIntBack(k.height, t, W32);
    AllOutsBack(c, k.vout, n, 2 + 8 * n, u);
    WholeMaskBack(k.vout, m, w + u);
    RestoredOuts(k, Outs(k.vout, 0, 2 + 8 * n));
    BodyBack(c, Cut(k.version), code, Head(k.vout), MaskCode(k.vout), m + (w + u), Left(k.vout, 0, n),
             w + u, Outs(k.vout, 0, 2 + 8 * n), u, Cut(k.height), t);
  }

  lemma RestoredOuts(k: Coins, outs: seq<TxOut>)
    requires Writable(k) && Trim(outs) == Trim(KeptAll(Trim(k.vout)))
    ensures 0 <= Cut(k.height) < 2147483648 && 0 <= Cut(k.version) < 2147483648
    ensures Restored(k) == Coins(k.coinBase, Trim(outs), Signed(Cut(k.height)), Signed(Cut(k.version)))
  {
  }

  lemma {:induction false} StoredBack(c: Curve, k: Coins, bytes: Bytes)
    requires CurveOk(c) && Writable(k) && bytes == Serialize(c, k)
    ensures Unserialize(c, bytes) == Parsed(Restored(k), [])
  {
    assert bytes + [] == bytes;
    RoundTrip(c, k, []);
  }

  lemma {:induction false} KeptAllExact(q: seq<TxOut>)
    requires q == Trim(q) && AllStorable(q)
    ensures Trim(KeptAll(q)) == q <==> forall i :: 0 <= i < |q| ==> Safe(q[i])
  {
    forall i | 0 <= i < |q| ensures KeptAll(q)[i] == q[i] <==> Safe(q[i]) { KeptExact(q[i]); }
    if Trim(KeptAll(q)) == q {
      assert Trim(KeptAll(q)) <= KeptAll(q);
      assert forall i :: 0 <= i < |q| ==> KeptAll(q)[i] == q[i];
    }
    if forall i :: 0 <= i < |q| ==> Safe(q[i]) { assert KeptAll(q) == q; }
  }

  /**
   An entry comes back as Cleanup leaves it if and only if its numbers are not negative and nothing of
   its outputs is cut.
   */
  lemma {:induction false} StoredExact(c: Curve, k: Coins, t: Bytes)
    requires CurveOk(c) && Writable(k)
    ensures Unserialize(c, Serialize(c, k) + t) == Parsed(Cleanup(k), t) <==>
      k.version >= 0 && k.height >= 0 && forall i :: 0 <= i < |Trim(k.vout)| ==> Safe(k.vout[i])
  {
    RoundTrip(c, k, t);
    var q := Trim(k.vout);
    assert forall i :: 0 <= i < |q| ==> q[i] == k.vout[i];
    assert Trim(q) == q;
    KeptAllExact(q);
  }

  // ----- A documented entry -----

  /** A pay-to-key-hash output of 600 coins, the second of two with the first spent, of height 203998. */
  lemma DocumentedEntry(c: Curve, h: Bytes)
    requires |h| == 20
    ensures var script := [0x76, 0xa9, 20] + h + [0x88, 0xac];
      Serialize(c, Coins(false, [NULL_OUT, TxOut(60_000_000_000, script)], 203998, 1)) ==
        [0x01, 0x04, 0x83, 0x58, 0x00] + h + [0x8b, 0xb8, 0x5e]
  {
    var out := TxOut(60_000_000_000, [0x76, 0xa9, 20] + h + [0x88, 0xac]);
    DocumentedOut(c, h, out.value, 600);
    DocumentedNumbers(203998);
    TwoOuts(c, [NULL_OUT, out]);
    TwoOutsCode([NULL_OUT, out]);
    var k := Coins(false, [NULL_OUT, out], 203998, 1);
    Assembled(c, k, [0x01], [0x04], [0x83, 0x58] + ([0x00] + h), [0x8b, 0xb8, 0x5e]);
    Reassembled(h);
  }

  lemma Reassembled(h: Bytes)
    ensures [0x01] + [0x04] + ([0x83, 0x58] + ([0x00] + h)) + [0x8b, 0xb8, 0x5e] ==
      [0x01, 0x04, 0x83, 0x58, 0x00] + h + [0x8b, 0xb8, 0x5e]
  {
  }

  lemma DocumentedNumbers(height: nat)
    requires height == 203998
    ensures VarInt(1) == [0x01] && VarInt(4) == [0x04] && VarInt(height) == [0x8b, 0xb8, 0x5e]
  {
    VarIntForms(height);
  }

  lemma RoundAmount(v: nat, k: nat)
    requires 0 < k < 1000 && v == k * 1_000_000_000
    ensures AmountCode(v) == 10 * k
  {
    CompressRound(k);
    WrapSmall(v, W64);
    WrapSmall(10 * k, W64);
  }

  lemma DocumentedOut(c: Curve, h: Bytes, v: nat, code: nat)
    requires |h| == 20 && v == 60_000_000_000 && code == 600
    ensures WriteOut(c, TxOut(v, [0x76, 0xa9, 20] + h + [0x88, 0xac])) == [0x83, 0x58] + ([0x00] + h)
  {
    CompressForms(c, h, []);
    RoundAmount(v, 60);
    VarIntForms(code);
  }

  lemma Assembled(c: Curve, k: Coins, a: Bytes, b: Bytes, w: Bytes, h: Bytes)
    requires a == VarInt(k.version) && b == VarInt(Code(k.vout, k.coinBase)) && MaskSize(k.vout) == 0
    requires w == WriteOuts(c, k.vout, 0) && h == VarInt(k.height)
    ensures Serialize(c, k) == a + b + w + h
  {
    assert a + b + [] == a + b;
  }

  lemma TwoOutsCode(vout: seq<TxOut>)
    requires |vout| == 2 && vout[0].IsNull() && !vout[1].IsNull()
    ensures MaskSize(vout) == 0 && Mask(vout, 0) == [] && Code(vout, false) == 4
  {
    assert Mask(vout, MaskRoom(vout)) == [];
  }

  lemma TwoOuts(c: Curve, vout: seq<TxOut>)
    requires |vout| == 2 && vout[0].IsNull() && !vout[1].IsNull()
    ensures WriteOuts(c, vout, 0) == WriteOut(c, vout[1])
  {
    assert WriteOuts(c, vout, 2) == [];
    assert WriteOuts(c, vout, 1) == WriteOut(c, vout[1]) + WriteOuts(c, vout, 2);
  }
}
