// kanzi/entropy RiceGolombCodec (Go): a byte is written as the quotient
// `v >> logBase` in unary (that many zero bits, closed by a one bit), then
// the low `logBase` bits of `v`; in signed mode `v` is the magnitude of the
// byte read as an `int8`, followed by a sign bit.
//
// The bit streams are sequences of bits: the encoder returns the bits it
// writes and the decoder reads from a sequence at a position.
module RiceGolomb {
  import opened Bytes
  import opened Wrappers

  // ---------------------------------------------------------------------
  // The bit stream

  /** `WriteBits(v, n)`: the low `n` bits of `v`, most significant first. */
  function WriteBits(v: nat, n: nat): (r: seq<bool>)
    ensures |r| == n
  {
    if n == 0 then [] else WriteBits(v / 2, n - 1) + [v % 2 == 1]
  }

  /** The value of the `n` bits from position `i` on, most significant
      first: what `ReadBits(n)` returns there. */
  function ValueAt(bits: seq<bool>, i: nat, n: nat): nat
    requires i + n <= |bits|
  {
    if n == 0 then 0 else 2 * ValueAt(bits, i, n - 1) + if bits[i + n - 1] then 1 else 0
  }

  function Zeros(n: nat): (r: seq<bool>)
    ensures |r| == n
  {
    if n == 0 then [] else Zeros(n - 1) + [false]
  }

  /** `ReadBit`: the bit at `pos`, or a failure at the end of the stream. */
  method ReadBit(bits: seq<bool>, pos0: nat) returns (bit: bool, ok: bool, pos: nat)
    requires pos0 <= |bits|
    ensures ok <==> pos0 < |bits|
    ensures ok ==> bit == bits[pos0] && pos == pos0 + 1
    ensures !ok ==> pos == pos0
  {
    if pos0 == |bits| {
      return false, false, pos0;
    }
    return bits[pos0], true, pos0 + 1;
  }

  /** `ReadBits(n)`: the value of the next `n` bits, or a failure when
      fewer remain. */
  method ReadBits(bits: seq<bool>, pos0: nat, n: nat) returns (v: nat, ok: bool, pos: nat)
    requires pos0 <= |bits|
    ensures ok <==> pos0 + n <= |bits|
    ensures ok ==> v == ValueAt(bits, pos0, n) && pos == pos0 + n
    ensures !ok ==> pos == pos0
  {
    if pos0 + n > |bits| {
      return 0, false, pos0;
    }
    return ValueAt(bits, pos0, n), true, pos0 + n;
  }

  /** Go `q << k`. */
  function Shl(q: nat, k: nat): nat {
    if k == 0 then q else 2 * Shl(q, k - 1)
  }

  /** Go `v >> k`. */
  function Shr(v: nat, k: nat): nat {
    if k == 0 then v else Shr(v / 2, k - 1)
  }

  /** Go `v & ((1 << k) - 1)`: the low `k` bits of `v`. */
  function Low(v: nat, k: nat): nat {
    if k == 0 then 0 else 2 * Low(v / 2, k - 1) + v % 2
  }

  /** The low `k` bits are below `1 << k`. */
  lemma {:induction false} LowBound(v: nat, k: nat)
    ensures Low(v, k) < Shl(1, k)
  {
    if k > 0 {
      LowBound(v / 2, k - 1);
    }
  }

  /** Zero has no bits to shift or mask. */
  lemma {:induction false} ZeroShifts(k: nat)
    ensures Shr(0, k) == 0 && Low(0, k) == 0
  {
    if k > 0 {
      ZeroShifts(k - 1);
    }
  }

  /** A value is its high part shifted back, or-ed with its low bits:
      `(v >> k) << k | v & ((1 << k) - 1) == v`. */
  lemma {:induction false} ShiftsRebuild(v: nat, k: nat)
    ensures Shl(Shr(v, k), k) + Low(v, k) == v
  {
    if k > 0 {
      ShiftsRebuild(v / 2, k - 1);
    }
  }

  /** `(a << k) | r` with `r` below `1 << k` splits back into `a` and `r`. */
  lemma {:induction false} ShiftsSplit(a: nat, r: nat, k: nat)
    requires r < Shl(1, k)
    ensures Shr(Shl(a, k) + r, k) == a && Low(Shl(a, k) + r, k) == r
  {
    if k > 0 {
      var v := Shl(a, k) + r;
      assert v / 2 == Shl(a, k - 1) + r / 2 && v % 2 == r % 2;
      ShiftsSplit(a, r / 2, k - 1);
    }
  }

  /** Reading back `n` written bits, wherever they sit in the stream,
      gives the low `n` bits of the value. */
  lemma {:induction false} ReadWritten(x: seq<bool>, v: nat, n: nat, y: seq<bool>)
    ensures ValueAt(x + WriteBits(v, n) + y, |x|, n) == Low(v, n)
  {
    if n > 0 {
      var b := v % 2 == 1;
      assert x + WriteBits(v, n) + y == x + WriteBits(v / 2, n - 1) + ([b] + y);
      ReadWritten(x, v / 2, n - 1, [b] + y);
    }
  }

  /** Writing `n + m` bits is writing the high `n` bits, then the low `m`. */
  lemma {:induction false} WriteBitsSplit(v: nat, n: nat, m: nat)
    ensures WriteBits(v, n + m) == WriteBits(Shr(v, m), n) + WriteBits(v, m)
  {
    if m > 0 {
      WriteBitsSplit(v / 2, n, m - 1);
    }
  }

  /** Only the low `m` bits of the value are written. */
  lemma {:induction false} WriteBitsLow(v: nat, m: nat)
    ensures WriteBits(v, m) == WriteBits(Low(v, m), m)
  {
    if m > 0 {
      var w := Low(v, m);
      assert w / 2 == Low(v / 2, m - 1) && w % 2 == v % 2;
      WriteBitsLow(v / 2, m - 1);
    }
  }

  /** The value 1 in `q + 1` bits is `q` zero bits and a one bit. */
  lemma {:induction false} WriteOne(q: nat)
    ensures WriteBits(1, q + 1) == Zeros(q) + [true]
  {
    WriteZero(q);
  }

  lemma {:induction false} WriteZero(n: nat)
    ensures WriteBits(0, n) == Zeros(n)
  {
    if n > 0 {
      WriteZero(n - 1);
    }
  }

  // ---------------------------------------------------------------------
  // The codec

  datatype Encoder = Encoder(signed: bool, logBase: nat, base: nat)

  datatype Decoder = Decoder(signed: bool, logBase: nat)

  /** An encoder as `NewRiceGolombEncoder` builds it. */
  ghost predicate ValidEncoder(e: Encoder) {
    1 <= e.logBase <= 7 && e.base == Shl(1, e.logBase)
  }

  /** Go `NewRiceGolombEncoder`: a nil stream or a `logBase` outside
      [1, 7] is an error; otherwise `base` is `1 << logBase`. Only whether
      the stream is nil matters to the model. */
  function NewRiceGolombEncoder<S>(bs: Option<S>, sgn: bool, logBase: nat): (r: Result<Encoder>)
    ensures r.Failure? <==> bs.None? || !(1 <= logBase <= 7)
    ensures bs.None? ==> r == Failure("Bit stream parameter cannot be null")
    ensures r.Success? ==> ValidEncoder(r.value) && r.value.signed == sgn && r.value.logBase == logBase
  {
    if bs.None? then Failure("Bit stream parameter cannot be null")
    else if logBase <= 0 || logBase >= 8 then Failure("Invalid logBase value (must be in [1..7])")
    else Success(Encoder(sgn, logBase, Shl(1, logBase)))
  }

  /** Go `NewRiceGolombDecoder`: the same checks as the encoder. */
  function NewRiceGolombDecoder<S>(bs: Option<S>, sgn: bool, logBase: nat): (r: Result<Decoder>)
    ensures r.Failure? <==> bs.None? || !(1 <= logBase <= 7)
    ensures bs.None? ==> r == Failure("Bit stream parameter cannot be null")
    ensures r.Success? ==> r.value == Decoder(sgn, logBase)
  {
    if bs.None? then Failure("Bit stream parameter cannot be null")
    else if logBase <= 0 || logBase >= 8 then Failure("Invalid logBase value (must be in [1..7])")
    else Success(Decoder(sgn, logBase))
  }

  /** Go `int8(x)`: `x` wrapped to -128..127. */
  function Int8(x: int): (r: int)
    ensures -128 <= r < 128 && (x - r) % 256 == 0
  {
    (x + 128) % 256 - 128
  }

  /** The encoder's `abs()` of the byte read as an `int8`:
      `(sVal + (sVal >> 7)) ^ (sVal >> 7)` in `int8` arithmetic, then
      `byte(...)`. The shift is -1 for a negative `sVal` and 0 otherwise,
      and `x ^ -1` is `-x - 1`. */
  function Magnitude(val: byte): (r: byte)
    ensures r <= 128 && (r == 0 <==> val == 0)
  {
    var sVal := Int8(val);
    var mask := sVal / 128;
    var t := Int8(sVal + mask);
    ToByte(if mask == 0 then t else -t - 1)
  }

  /** The magnitude is the byte itself below 128 and `256 - val` from 128
      on; 0x80 (-128) has magnitude 128, which does not fit an `int8`. */
  lemma MagnitudeValue(val: byte)
    ensures Magnitude(val) == if val < 128 then val else 256 - val
  {
    var sVal := Int8(val);
    if val < 128 {
      assert sVal == val && sVal / 128 == 0;
      assert Int8(sVal + 0) == val;
    } else {
      assert sVal == val - 256 && sVal / 128 == -1;
      if val == 128 {
        assert Int8(sVal - 1) == 127;
      } else {
        assert Int8(sVal - 1) == val - 257;
      }
    }
  }

  /** The value whose code is written: the magnitude in signed mode. */
  function Coded(e: Encoder, val: byte): byte {
    if e.signed then Magnitude(val) else val
  }

  /** Go `EncodeByte`: the bits written for `val`. 0 is written as `base`
      in `logBase + 1` bits; any other value as its coded value followed,
      in signed mode, by the sign bit `(val >> 7) & 1`. */
  function EncodeByte(e: Encoder, val: byte): (r: seq<bool>)
    requires ValidEncoder(e)
    ensures |r| == 1 + Shr(Coded(e, val), e.logBase) + e.logBase + (if e.signed && val != 0 then 1 else 0)
  {
    if val == 0 then
      ZeroShifts(e.logBase);
      WriteBits(e.base, e.logBase + 1)
    else NonzeroCode(e, Coded(e, val), (val / 128) % 2)
  }

  /** The nonzero branch of `EncodeByte` for the coded value `m` and the
      sign digit `s`: `emit` in `n` bits, or `emit << 1 | s` in `n + 1`
      bits in signed mode. `base | (m & (base - 1))` is a sum, as `base`
      is a power of two above the masked bits. */
  function NonzeroCode(e: Encoder, m: nat, s: nat): (r: seq<bool>)
    ensures |r| == 1 + Shr(m, e.logBase) + e.logBase + (if e.signed then 1 else 0)
  {
    var emit := e.base + Low(m, e.logBase);
    var n := 1 + Shr(m, e.logBase) + e.logBase;
    if e.signed then WriteBits(2 * emit + s, n + 1) else WriteBits(emit, n)
  }

  /** The unary quotient of `m`, a one bit and the low `logBase` bits of `m`. */
  function Layout(m: nat, logBase: nat): seq<bool> {
    Zeros(Shr(m, logBase)) + [true] + WriteBits(m, logBase)
  }

  /** `base | (m & (base - 1))` in `(m >> logBase) + 1 + logBase` bits is
      the quotient in unary, a one bit, and the low bits of `m`. */
  lemma UnaryBinary(base: nat, logBase: nat, m: nat)
    requires base == Shl(1, logBase)
    ensures WriteBits(base + Low(m, logBase), Shr(m, logBase) + 1 + logBase)
         == Zeros(Shr(m, logBase)) + [true] + WriteBits(m, logBase)
  {
    var emit := base + Low(m, logBase);
    WriteBitsSplit(emit, Shr(m, logBase) + 1, logBase);
    LowBound(m, logBase);
    ShiftsSplit(1, Low(m, logBase), logBase);
    WriteOne(Shr(m, logBase));
    WriteBitsLow(emit, logBase);
    WriteBitsLow(m, logBase);
  }

  /** Writing `2 v + b` in one more bit appends `b` to `v`'s bits. */
  lemma AppendBit(v: nat, n: nat, b: bool)
    ensures WriteBits(2 * v + (if b then 1 else 0), n + 1) == WriteBits(v, n) + [b]
  {
    var w := 2 * v + (if b then 1 else 0);
    assert w / 2 == v && w % 2 == (if b then 1 else 0);
  }

  /** The code of `val`: the quotient `val2 >> logBase` of its coded
      value in unary, closed by a one bit, then the low `logBase` bits of
      the coded value, then in signed mode and for a nonzero value the sign
      bit (1 for a byte whose top bit is set). */
  lemma EncodeLayout(e: Encoder, val: byte)
    requires ValidEncoder(e)
    ensures var m := Coded(e, val);
      EncodeByte(e, val) == Zeros(Shr(m, e.logBase)) + [true] + WriteBits(m, e.logBase)
                            + (if e.signed && val != 0 then [val >= 128] else [])
  {
    var m := Coded(e, val);
    var sign := if e.signed && val != 0 then [val >= 128] else [];
    if val == 0 {
      ZeroShifts(e.logBase);
      UnaryBinary(e.base, e.logBase, 0);
      assert EncodeByte(e, val) == Layout(0, e.logBase);
    } else {
      var s := (val / 128) % 2;
      assert s == if val >= 128 then 1 else 0;
      NonzeroLayout(e, m, val >= 128, s);
      assert EncodeByte(e, val) == NonzeroCode(e, m, s);
    }
    assert EncodeByte(e, val) == Layout(m, e.logBase) + sign;
  }

  /** The nonzero branch of `EncodeByte` on the coded value `m`, with the
      sign bit `b` given as the digit `s`. */
  lemma NonzeroLayout(e: Encoder, m: nat, b: bool, s: nat)
    requires ValidEncoder(e) && s == if b then 1 else 0
    ensures NonzeroCode(e, m, s) == Layout(m, e.logBase) + (if e.signed then [b] else [])
  {
    UnaryBinary(e.base, e.logBase, m);
    if e.signed {
      AppendBit(e.base + Low(m, e.logBase), 1 + Shr(m, e.logBase) + e.logBase, b);
    }
  }

  /** The number of zero bits from `pos` up to the first one bit (or the
      end of the stream). */
  function Unary(bits: seq<bool>, pos: nat): (q: nat)
    requires pos <= |bits|
    ensures pos + q <= |bits|
    decreases |bits| - pos
  {
    if pos == |bits| || bits[pos] then 0 else 1 + Unary(bits, pos + 1)
  }

  /** What one `DecodeByte` returns: the byte, whether the stream could be
      read, and the position after the bits it read. */
  datatype Read = Read(value: byte, ok: bool, pos: nat)

  /** The decoding of the code at `pos`: a unary quotient `q` closed by a
      one bit, `logBase` remainder bits `r`, `res = (q << logBase) | r`,
      then in signed mode for a nonzero `res` a sign bit, 1 negating it. A
      read past the end fails with 0, or with `byte(res)` at the sign bit. */
  function ReadCode(d: Decoder, bits: seq<bool>, pos: nat): (r: Read)
    requires pos <= |bits|
    ensures r.pos <= |bits|
    ensures r.ok ==> pos + 1 + d.logBase <= r.pos
    ensures !r.ok ==> r.value == 0 || (d.signed && r.pos == |bits|)
  {
    var q := Unary(bits, pos);
    var p := pos + q + 1;
    if pos + q == |bits| then Read(0, false, |bits|)
    else if p + d.logBase > |bits| then Read(0, false, p)
    else ReadSign(d, bits, p + d.logBase, Shl(q, d.logBase) + ValueAt(bits, p, d.logBase))
  }

  /** The end of a decoding at `p2`, once `res` is known: in signed mode a
      nonzero `res` is followed by a sign bit, 1 for a negative value. */
  function ReadSign(d: Decoder, bits: seq<bool>, p2: nat, res: nat): (r: Read)
    requires p2 <= |bits|
    ensures r.ok <==> !(res != 0 && d.signed && p2 == |bits|)
    ensures r.pos == if r.ok && res != 0 && d.signed then p2 + 1 else p2
    ensures r.ok && (res == 0 || !d.signed) ==> r.value == res % 256
  {
    if res != 0 && d.signed then
      if p2 == |bits| then Read(ToByte(res), false, p2)
      else Read(if bits[p2] then ToByte(Int8(-(res as int))) else ToByte(res), true, p2 + 1)
    else Read(ToByte(res), true, p2)
  }

  /** Go `DecodeByte`: reads one code from `bits` at `pos0`. */
  method DecodeByte(d: Decoder, bits: seq<bool>, pos0: nat) returns (value: byte, ok: bool, pos: nat)
    requires pos0 <= |bits|
    ensures Read(value, ok, pos) == ReadCode(d, bits, pos0)
  {
    var q := 0;
    var bit;
    bit, ok, pos := ReadBit(bits, pos0);
    if !ok {
      return 0, false, pos;
    }

    // quotient is unary encoded
    while !bit
      invariant pos == pos0 + q + 1 <= |bits| && bit == bits[pos - 1]
      invariant forall k :: pos0 <= k < pos0 + q ==> !bits[k]
      decreases |bits| - pos
    {
      q := q + 1;
      bit, ok, pos := ReadBit(bits, pos);
      if !ok {
        UnaryAt(bits, pos0, q);
        return 0, false, pos;
      }
    }
    UnaryAt(bits, pos0, q);

    // remainder is binary encoded
    var r;
    r, ok, pos := ReadBits(bits, pos, d.logBase);
    if !ok {
      return 0, false, pos;
    }

    // (q << logBase) | r, with r below 1 << logBase
    var res := Shl(q, d.logBase) + r;
    if res != 0 && d.signed {
      bit, ok, pos := ReadBit(bits, pos);
      if !ok {
        return ToByte(res), false, pos;
      }
      if bit {
        return ToByte(Int8(-(res as int))), true, pos;
      }
    }
    return ToByte(res), true, pos;
  }

  /** The zero bits before the first one bit at `pos + q`, or before the
      end of the stream, number `q`. */
  lemma {:induction false} UnaryAt(bits: seq<bool>, pos: nat, q: nat)
    requires pos + q <= |bits|
    requires forall k :: pos <= k < pos + q ==> !bits[k]
    requires pos + q < |bits| ==> bits[pos + q]
    ensures Unary(bits, pos) == q
    decreases q
  {
    if q > 0 {
      UnaryAt(bits, pos + 1, q - 1);
    }
  }

  lemma {:induction false} ZerosAreZero(n: nat)
    ensures forall k :: 0 <= k < n ==> !Zeros(n)[k]
  {
    if n > 0 {
      ZerosAreZero(n - 1);
    }
  }

  /** Equal bits have equal values. */
  lemma {:induction false} ValueAtSame(b1: seq<bool>, i1: nat, b2: seq<bool>, i2: nat, n: nat)
    requires i1 + n <= |b1| && i2 + n <= |b2|
    requires forall k :: i1 <= k < i1 + n ==> b1[k] == b2[k - i1 + i2]
    ensures ValueAt(b1, i1, n) == ValueAt(b2, i2, n)
  {
    if n > 0 {
      ValueAtSame(b1, i1, b2, i2, n - 1);
      assert b1[i1 + n - 1] == b2[i2 + n - 1];
    }
  }

  /** Once the quotient `q` is known at `pos`, `ReadCode` reads the
      remainder bits that follow the closing one bit. */
  lemma ReadAt(d: Decoder, bits: seq<bool>, pos: nat, q: nat)
    requires pos + q + 1 + d.logBase <= |bits| && Unary(bits, pos) == q
    ensures var p := pos + q + 1;
      ReadCode(d, bits, pos) == ReadSign(d, bits, p + d.logBase, Shl(q, d.logBase) + ValueAt(bits, p, d.logBase))
  {
  }

  /** What a code laid out as the encoder writes it holds, bit by bit:
      `q` zero bits, a one bit, the low bits of `m`, then `sign`. */
  lemma CodeFacts(code: seq<bool>, m: nat, logBase: nat, sign: seq<bool>)
    requires code == Zeros(Shr(m, logBase)) + [true] + WriteBits(m, logBase) + sign
    ensures var q := Shr(m, logBase);
      && |code| == q + 1 + logBase + |sign|
      && (forall i :: 0 <= i < q ==> !code[i])
      && code[q]
      && ValueAt(code, q + 1, logBase) == Low(m, logBase)
      && (sign != [] ==> code[q + 1 + logBase] == sign[0])
  {
    var q := Shr(m, logBase);
    ZerosAreZero(q);
    assert forall i :: 0 <= i < q ==> !code[i] by {
      forall i | 0 <= i < q ensures !code[i] {
        assert code[i] == Zeros(q)[i];
      }
    }
    ReadWritten(Zeros(q) + [true], m, logBase, sign);
  }

  /** The bits of `prefix + code + rest` from `|prefix|` on are those of
      `code`, then those of `rest`. */
  lemma Embedded(prefix: seq<bool>, code: seq<bool>, rest: seq<bool>)
    ensures var bits, pos := prefix + code + rest, |prefix|;
      && |bits| == pos + |code| + |rest|
      && (forall k :: pos <= k < pos + |code| ==> bits[k] == code[k - pos])
      && (rest != [] ==> bits[pos + |code|] == rest[0])
  {
  }

  /** `ReadCode` at `pos` on a stream holding there a code laid out as
      `CodeFacts` says, followed by `rest`. */
  lemma CodeInStream(d: Decoder, bits: seq<bool>, pos: nat, code: seq<bool>, rest: seq<bool>, m: nat, sign: seq<bool>)
    requires var q := Shr(m, d.logBase);
      && |code| == q + 1 + d.logBase + |sign|
      && (forall i :: 0 <= i < q ==> !code[i])
      && code[q]
      && ValueAt(code, q + 1, d.logBase) == Low(m, d.logBase)
      && (sign != [] ==> code[q + 1 + d.logBase] == sign[0])
    requires |bits| == pos + |code| + |rest|
    requires forall k :: pos <= k < pos + |code| ==> bits[k] == code[k - pos]
    requires rest != [] ==> bits[pos + |code|] == rest[0]
    ensures var p2 := pos + Shr(m, d.logBase) + 1 + d.logBase;
      var tail := sign + rest;
      ReadCode(d, bits, pos)
        == if m != 0 && d.signed then
             if tail == [] then Read(ToByte(m), false, p2)
             else Read(if tail[0] then ToByte(Int8(-(m as int))) else ToByte(m), true, p2 + 1)
           else Read(ToByte(m), true, p2)
  {
    var q := Shr(m, d.logBase);
    assert forall k :: pos <= k < pos + q ==> !bits[k] by {
      forall k | pos <= k < pos + q ensures !bits[k] {
        assert bits[k] == code[k - pos];
      }
    }
    assert bits[pos + q] == code[q];
    UnaryAt(bits, pos, q);
    ValueAtSame(bits, pos + q + 1, code, q + 1, d.logBase);
    if sign != [] {
      assert bits[pos + q + 1 + d.logBase] == code[q + 1 + d.logBase];
    }
    ReadBack(d, bits, pos, m, sign + rest);
  }

  /** `ReadCode` at `pos` on a stream showing the quotient and remainder
      bits of `m`: it reads back `m`, and the bits after them decide only
      the sign. */
  lemma ReadBack(d: Decoder, bits: seq<bool>, pos: nat, m: nat, tail: seq<bool>)
    requires var q := Shr(m, d.logBase);
      var p := pos + q + 1;
      && |bits| == p + d.logBase + |tail|
      && Unary(bits, pos) == q
      && ValueAt(bits, p, d.logBase) == Low(m, d.logBase)
      && (tail != [] ==> bits[p + d.logBase] == tail[0])
    ensures var p2 := pos + Shr(m, d.logBase) + 1 + d.logBase;
      ReadCode(d, bits, pos)
        == if m != 0 && d.signed then
             if tail == [] then Read(ToByte(m), false, p2)
             else Read(if tail[0] then ToByte(Int8(-(m as int))) else ToByte(m), true, p2 + 1)
           else Read(ToByte(m), true, p2)
  {
    var q := Shr(m, d.logBase);
    ReadAt(d, bits, pos, q);
    ShiftsRebuild(m, d.logBase);
    SignAt(d, bits, pos + q + 1 + d.logBase, m, tail);
  }

  /** A stream that ends inside the unary quotient fails with 0. */
  lemma EndsInQuotient(d: Decoder, bits: seq<bool>, q: nat)
    requires |bits| <= q && forall i :: 0 <= i < |bits| ==> !bits[i]
    ensures ReadCode(d, bits, 0) == Read(0, false, |bits|)
  {
    UnaryAt(bits, 0, |bits|);
  }

  /** A stream that ends inside the remainder bits fails with 0. */
  lemma EndsInRemainder(d: Decoder, bits: seq<bool>, q: nat)
    requires q < |bits| < q + 1 + d.logBase
    requires (forall i :: 0 <= i < q ==> !bits[i]) && bits[q]
    ensures !ReadCode(d, bits, 0).ok && ReadCode(d, bits, 0).value == 0
  {
    UnaryAt(bits, 0, q);
  }

  /** The byte arithmetic of the round trip: the coded value is zero only
      for 0, and the decoder's sign step restores the byte from it. */
  lemma CodedDecodes(e: Encoder, val: byte)
    ensures var m := Coded(e, val);
      && (m == 0 <==> val == 0)
      && val == if e.signed && val >= 128 then ToByte(Int8(-(m as int))) else ToByte(m)
  {
    MagnitudeValue(val);
  }

  /** The sign step on a stream whose bits from `p2` on are `tail`. */
  lemma SignAt(d: Decoder, bits: seq<bool>, p2: nat, res: nat, tail: seq<bool>)
    requires |bits| == p2 + |tail| && (tail != [] ==> bits[p2] == tail[0])
    ensures ReadSign(d, bits, p2, res)
         == if res != 0 && d.signed then
              if tail == [] then Read(ToByte(res), false, p2)
              else Read(if tail[0] then ToByte(Int8(-(res as int))) else ToByte(res), true, p2 + 1)
            else Read(ToByte(res), true, p2)
  {
  }

  /** The round trip: a decoder with the encoder's `signed` and `logBase`
      reads back every byte from its code, wherever the code sits in the
      stream, and stops right after it. */
  lemma RoundTrip(e: Encoder, val: byte, prefix: seq<bool>, rest: seq<bool>)
    requires ValidEncoder(e)
    ensures var code := EncodeByte(e, val);
      ReadCode(Decoder(e.signed, e.logBase), prefix + code + rest, |prefix|)
        == Read(val, true, |prefix| + |code|)
  {
    EncodeLayout(e, val);
    LaidOutRoundTrip(e, val, prefix, EncodeByte(e, val), rest);
  }

  /** `RoundTrip` for any bits laid out as `EncodeLayout` says. */
  lemma LaidOutRoundTrip(e: Encoder, val: byte, prefix: seq<bool>, code: seq<bool>, rest: seq<bool>)
    requires var m := Coded(e, val);
      code == Zeros(Shr(m, e.logBase)) + [true] + WriteBits(m, e.logBase)
              + (if e.signed && val != 0 then [val >= 128] else [])
    ensures ReadCode(Decoder(e.signed, e.logBase), prefix + code + rest, |prefix|)
         == Read(val, true, |prefix| + |code|)
  {
    var m := Coded(e, val);
    var sign := if e.signed && val != 0 then [val >= 128] else [];
    CodeFacts(code, m, e.logBase, sign);
    Embedded(prefix, code, rest);
    CodeInStream(Decoder(e.signed, e.logBase), prefix + code + rest, |prefix|, code, rest, m, sign);
    SignRestores(e, val, |prefix| + Shr(m, e.logBase) + 1 + e.logBase, sign + rest);
  }

  /** The sign step that follows the code of `val` in a stream whose next
      bits are `tail`: it gives `val` back, and consumes the sign bit
      exactly when one was written. */
  lemma SignRestores(e: Encoder, val: byte, p2: nat, tail: seq<bool>)
    requires e.signed && val != 0 ==> tail != [] && tail[0] == (val >= 128)
    ensures var m := Coded(e, val);
      (if m != 0 && e.signed then
         if tail == [] then Read(ToByte(m), false, p2)
         else Read(if tail[0] then ToByte(Int8(-(m as int))) else ToByte(m), true, p2 + 1)
       else Read(ToByte(m), true, p2))
      == Read(val, true, p2 + (if e.signed && val != 0 then 1 else 0))
  {
    CodedDecodes(e, val);
  }

  /** A code cut short fails to decode: with 0, or, when only the sign bit
      is missing, with the magnitude already read. */
  lemma TruncatedCode(e: Encoder, val: byte, k: nat)
    requires ValidEncoder(e) && k < |EncodeByte(e, val)|
    ensures var r := ReadCode(Decoder(e.signed, e.logBase), EncodeByte(e, val)[..k], 0);
      && !r.ok
      && r.value == if e.signed && val != 0 && k == |EncodeByte(e, val)| - 1 then Magnitude(val) else 0
  {
    var d := Decoder(e.signed, e.logBase);
    var m := Coded(e, val);
    var q := Shr(m, e.logBase);
    var sign := if e.signed && val != 0 then [val >= 128] else [];
    var code := EncodeByte(e, val);
    EncodeLayout(e, val);
    CodeFacts(code, m, e.logBase, sign);
    CodedDecodes(e, val);
    CutCode(d, code, k, m, sign);
  }

  /** The first `k` bits of a code laid out as `CodeFacts` says. */
  lemma CutCode(d: Decoder, code: seq<bool>, k: nat, m: nat, sign: seq<bool>)
    requires var q := Shr(m, d.logBase);
      && |code| == q + 1 + d.logBase + |sign| && |sign| <= 1
      && (forall i :: 0 <= i < q ==> !code[i])
      && code[q]
      && ValueAt(code, q + 1, d.logBase) == Low(m, d.logBase)
    requires sign != [] ==> m != 0 && d.signed
    requires k < |code|
    ensures var r := ReadCode(d, code[..k], 0);
      && !r.ok
      && r.value == if k == Shr(m, d.logBase) + 1 + d.logBase then ToByte(m) else 0
  {
    var q := Shr(m, d.logBase);
    var bits := code[..k];
    if k <= q {
      EndsInQuotient(d, bits, q);
    } else if k < q + 1 + d.logBase {
      EndsInRemainder(d, bits, q);
    } else {
      ValueAtSame(code, q + 1, bits, q + 1, d.logBase);
      CodeInStream(d, bits, 0, bits, [], m, []);
    }
  }
}
