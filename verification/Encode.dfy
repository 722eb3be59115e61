/** Packing field values into a payload. */
module Encode {
  import opened Wire
  import opened BitStrings
  import opened Bits
  import opened Schema

  datatype Staged = Scalar(raw: u64) | Bytes(bytes: seq<byte>)

  datatype EncodeError =
    | NotFixedLength(field: string)
    | LengthMismatch(pgn: nat, expected: nat, got: nat)
    | ValueOutOfRange(field: string)
    | TypeMismatch(field: string)
    | NoSuchField(order: nat)

  datatype Result<+T> = Ok(value: T) | Err(error: EncodeError)

  /** A 64-bit signed value, masked into the low `bits` bits. */
  function MaskToWidth(value: int, bits: nat): (raw: u64)
    ensures raw < Pow2(Min(bits, 64))
  {
    PowMonotone(Min(bits, 64), 64);
    Pow64();
    value % Pow2(Min(bits, 64))
  }

  function AllOnes(bits: nat): u64 {
    Pow64();
    PowMonotone(Min(bits, 64), 64);
    Pow2(Min(bits, 64)) - 1
  }

  /** The raw value of a scalar that the caller left unset. */
  function DefaultRaw(f: FieldInfo): u64 {
    var bl := if f.bitLength.Some? then f.bitLength.value else 0;
    if f.matchValue.Some? then MaskToWidth(f.matchValue.value, bl)
    else if f.fieldType == Some(Spare) then 0
    else if f.unknownValue.Some? then f.unknownValue.value
    else AllOnes(bl)
  }

  function Repeat(x: byte, n: nat): (s: seq<byte>)
    ensures |s| == n
  {
    seq(n, _ => x)
  }

  /** The bits that an unset field contributes. */
  function UnsetBits(f: FieldInfo): Result<BitStrings.Bits> {
    match f.fieldType
    case Some(StringFix) =>
      if f.bitLength.Some? then Ok(BytesBits(Repeat(0xff, f.bitLength.value / 8))) else Err(NotFixedLength(f.name))
    case Some(Binary) =>
      if f.bitLength.Some? then Ok(BytesBits(Repeat(0xff, f.bitLength.value / 8))) else Ok([])
    case Some(StringLz) => Ok(BytesBits([0]))
    case Some(StringLau) => Ok(BytesBits([2, 1]))
    case Some(Variable) => Err(NotFixedLength(f.name))
    case Some(DynamicFieldKey) => Err(NotFixedLength(f.name))
    case Some(DynamicFieldLength) => Err(NotFixedLength(f.name))
    case Some(DynamicFieldValue) => Err(NotFixedLength(f.name))
    case _ =>
      if f.bitLength.Some? then Ok(LowBits(DefaultRaw(f), f.bitLength.value)) else Err(NotFixedLength(f.name))
  }

  /** The bits that a field contributes. */
  function FieldBits(f: FieldInfo, staged: Option<Staged>): Result<BitStrings.Bits> {
    match staged
    case Some(Bytes(bs)) => Ok(BytesBits(bs))
    case Some(Scalar(v)) =>
      if f.bitLength.Some? then Ok(LowBits(v, f.bitLength.value)) else Err(NotFixedLength(f.name))
    case None => UnsetBits(f)
  }

  /** The bits of the first `n` fields, or the first error. */
  function MessageBits(fields: seq<FieldInfo>, staged: seq<Option<Staged>>, n: nat): Result<BitStrings.Bits>
    requires n <= |fields| == |staged|
  {
    if n == 0 then Ok([])
    else
      var before := MessageBits(fields, staged, n - 1);
      if before.Err? then before
      else
        var own := FieldBits(fields[n - 1], staged[n - 1]);
        if own.Err? then own else Ok(before.value + own.value)
  }

  /** How many bits are missing to a whole number of bytes. */
  function Gap(n: nat): (g: nat)
    ensures g < 8 && (n + g) % 8 == 0
  {
    (8 - n % 8) % 8
  }

  /** Filled up with ones to whole bytes. */
  function Padded(b: BitStrings.Bits): (p: BitStrings.Bits)
    ensures |p| % 8 == 0 && |b| <= |p| < |b| + 8 && p[..|b|] == b
  {
    b + LowBits(0xff, Gap(|b|))
  }

  /** The payload of these bits has the length that the schema gives, if it gives one. */
  predicate LengthFits(info: PgnInfo, bits: BitStrings.Bits) {
    info.length.Some? ==> info.length.value == |Padded(bits)| / 8
  }

  /** A buffer into which `bits` have been written: whole bytes, the rest of the last one clear. */
  predicate Written(buf: seq<byte>, bits: BitStrings.Bits) {
    && |buf| == (|bits| + 7) / 8
    && BytesBits(buf)[..|bits|] == bits
    && Clear(BytesBits(buf), |bits|)
  }

  /** `b` with bit `k` set. */
  function OrBit(b: byte, k: nat): byte
    requires k < 8
  {
    ByteOf(LowBits(b, BYTE)[k := true])
  }

  /** All bits from `start` on are clear. */
  predicate Clear(b: BitStrings.Bits, start: nat) { forall k :: start <= k < |b| ==> !b[k] }

  lemma {:induction false} ZeroBits(w: nat)
    ensures Clear(LowBits(0, w), 0)
  {
    if w > 0 {
      ZeroBits(w - 1);
    }
  }

  lemma ClearAppended(all: BitStrings.Bits, a: BitStrings.Bits, z: BitStrings.Bits)
    requires all == a + z && Clear(z, 0)
    ensures Clear(all, |a|) && all[..|a|] == a
  {
  }

  lemma WholeBytes(n: nat, m: nat)
    requires n % 8 == 0 && m == (n + 7) / 8
    ensures n == 8 * m
  {
  }

  lemma WholeIsPrefix(all: BitStrings.Bits, bits: BitStrings.Bits)
    requires |bits| == |all| && all[..|bits|] == bits
    ensures all == bits
  {
  }

  lemma GrownByZero(buf: seq<byte>, bits: BitStrings.Bits, zero: byte)
    requires Written(buf, bits) && |bits| % 8 == 0 && zero == 0
    ensures |bits| == 8 * |buf|
    ensures BytesBits(buf + [zero])[..|bits|] == bits && Clear(BytesBits(buf + [zero]), |bits|)
  {
    WholeBytes(|bits|, |buf|);
    WholeIsPrefix(BytesBits(buf), bits);
    BytesSnoc(buf, zero);
    ZeroBits(8);
    ClearAppended(BytesBits(buf + [zero]), bits, LowBits(zero, BYTE));
  }

  lemma BitSet(buf: seq<byte>, i: nat, k: nat)
    requires i < |buf| && k < 8
    ensures BytesBits(buf[i := OrBit(buf[i], k)]) == BytesBits(buf)[8 * i + k := true]
  {
    var own := LowBits(buf[i], BYTE);
    LowFrom(own[k := true]);
    ByteWritten(buf, i, OrBit(buf[i], k));
    ByteAt(buf, i);
    var all := BytesBits(buf);
    assert all[8 * i..8 * i + 8] == own;
    UpdateMiddle(all, 8 * i, 8, k);
  }

  lemma UpdateMiddle(all: BitStrings.Bits, at: nat, n: nat, k: nat)
    requires at + n <= |all| && k < n
    ensures (all[..at] + all[at..at + n][k := true]) + all[at + n..] == all[at + k := true]
  {
  }

  /** One bit more, at bit `pos` of byte `idx`. */
  lemma BitWritten(buf: seq<byte>, bits: BitStrings.Bits, x: bool, idx: nat, pos: nat, grown: seq<byte>) returns (next: seq<byte>)
    requires Written(buf, bits) && idx == |bits| / 8 && pos == |bits| % 8
    requires grown == if pos == 0 then buf + [0] else buf
    ensures idx < |grown| && next == if x then grown[idx := OrBit(grown[idx], pos)] else grown
    ensures Written(next, bits + [x])
  {
    if pos == 0 {
      GrownByZero(buf, bits, 0);
    }
    var all := BytesBits(grown);
    assert all[..|bits|] == bits;
    assert Clear(all, |bits|);
    next := grown;
    if x {
      BitSet(grown, idx, pos);
      next := grown[idx := OrBit(grown[idx], pos)];
      assert BytesBits(next) == all[|bits| := true];
    }
    assert BytesBits(next) == all[|bits| := x];
  }

  /** Append one bit. */
  method WriteBit(buf: seq<byte>, nextBit: nat, x: bool, ghost written: BitStrings.Bits) returns (buf': seq<byte>)
    requires nextBit == |written| && Written(buf, written)
    ensures Written(buf', written + [x])
  {
    var idx := nextBit / 8;
    var bitPos := nextBit % 8;
    ghost var grown := if bitPos == 0 then buf + [0] else buf;
    ghost var next := BitWritten(buf, written, x, idx, bitPos, grown);
    buf' := buf;
    if bitPos == 0 {
      buf' := buf' + [0];
    }
    if x {
      buf' := buf'[idx := OrBit(buf'[idx], bitPos)];
    }
    assert buf' == next;
  }

  /** Append the `bits` low bits of `value`, bit by bit, growing the buffer as needed. */
  method WriteBits(buf: seq<byte>, nextBit: nat, bits: nat, value: nat, ghost written: BitStrings.Bits)
    returns (buf': seq<byte>, nextBit': nat)
    requires nextBit == |written| && Written(buf, written)
    ensures nextBit' == nextBit + bits
    ensures Written(buf', written + LowBits(value, bits))
  {
    buf', nextBit' := buf, nextBit;
    var rest := value;
    ghost var done, total := written, written + LowBits(value, bits);
    for i := 0 to bits
      invariant nextBit' == nextBit + i == |done|
      invariant Written(buf', done)
      invariant done + LowBits(rest, bits - i) == total
    {
      RestBits(done, rest, bits - i, total);
      buf' := WriteBit(buf', nextBit', rest % 2 == 1, done);
      done := done + [rest % 2 == 1];
      rest := rest / 2;
      nextBit' := nextBit' + 1;
    }
    NoBitsLeft(done, rest, total);
  }

  lemma NoBitsLeft(done: BitStrings.Bits, rest: nat, total: BitStrings.Bits)
    requires done + LowBits(rest, 0) == total
    ensures done == total
  {
  }

  lemma RestBits(done: BitStrings.Bits, rest: nat, n: nat, total: BitStrings.Bits)
    requires n > 0 && done + LowBits(rest, n) == total
    ensures (done + [rest % 2 == 1]) + LowBits(rest / 2, n - 1) == total
  {
    Assoc(done, [rest % 2 == 1], LowBits(rest / 2, n - 1));
  }

  // ----- Staging a value -----

  /** A value to place into a field: a physical number, a raw integer, text, bytes, a PGN, or
      nothing. Text is its bytes. */
  datatype EncodeValue =
    | Number(x: real)
    | Int(n: int)
    | Text(text: seq<byte>)
    | RawBytes(bytes: seq<byte>)
    | PgnNumber(p: nat)
    | NotAvailable

  /** Rounding to the nearest integer, halves away from zero. */
  function Round(x: real): int {
    if x >= 0.0 then (x + 0.5).Floor else -((0.5 - x).Floor)
  }

  /** A 64-bit signed conversion saturates. */
  function Saturate(n: int): int {
    if n < -0x8000_0000_0000_0000 then -0x8000_0000_0000_0000
    else if n > 0x7fff_ffff_ffff_ffff then 0x7fff_ffff_ffff_ffff
    else n
  }

  /** The raw integer nearest to a physical value. */
  function ScaledToRaw(f: FieldInfo, x: real): Result<int> {
    if f.resolution == 0.0 then Err(ValueOutOfRange(f.name))
    else Ok(Saturate(Round((x - f.unitOffset - f.offset as real) / f.resolution)))
  }

  /** The bit pattern of a value for a scalar field. */
  function ValueToRaw(f: FieldInfo, v: EncodeValue): Result<u64> {
    if f.bitLength.None? then Err(NotFixedLength(f.name))
    else
      var bl := f.bitLength.value;
      match v
      case NotAvailable => Ok(DefaultRaw(f))
      case Text(_) => Err(TypeMismatch(f.name))
      case RawBytes(_) => Err(TypeMismatch(f.name))
      case PgnNumber(p) => Ok(MaskToWidth(p, bl))
      case Int(n) => Ok(MaskToWidth(n, bl))
      case Number(x) =>
        match ScaledToRaw(f, x)
        case Ok(n) => Ok(MaskToWidth(n, bl))
        case Err(e) => Err(e)
  }

  function TextOf(f: FieldInfo, v: EncodeValue): Result<seq<byte>> {
    match v
    case Text(s) => Ok(s)
    case NotAvailable => Ok([])
    case _ => Err(TypeMismatch(f.name))
  }

  /** A fixed-width text, filled up with zeros. */
  function StageStringFix(f: FieldInfo, v: EncodeValue): Result<Staged> {
    var text := TextOf(f, v);
    if text.Err? then Err(text.error)
    else if f.bitLength.None? then Err(NotFixedLength(f.name))
    else if |text.value| > f.bitLength.value / 8 then Err(ValueOutOfRange(f.name))
    else Ok(Bytes(text.value + Repeat(0, f.bitLength.value / 8 - |text.value|)))
  }

  /** A length byte and the text; zeros up to the width, if there is one. */
  function StageStringLz(f: FieldInfo, v: EncodeValue): Result<Staged> {
    var text := TextOf(f, v);
    if text.Err? then Err(text.error)
    else if |text.value| > 255 then Err(ValueOutOfRange(f.name))
    else
      var run := [|text.value|] + text.value;
      if f.bitLength.None? then Ok(Bytes(run))
      else if |run| > f.bitLength.value / 8 then Err(ValueOutOfRange(f.name))
      else Ok(Bytes(run + Repeat(0, f.bitLength.value / 8 - |run|)))
  }

  /** The total length, the encoding byte 1, and the text. */
  function StageStringLau(f: FieldInfo, v: EncodeValue): Result<Staged> {
    var text := TextOf(f, v);
    if text.Err? then Err(text.error)
    else if |text.value| + 2 > 255 then Err(ValueOutOfRange(f.name))
    else Ok(Bytes([|text.value| + 2, 1] + text.value))
  }

  function StageBinary(f: FieldInfo, v: EncodeValue): Result<Staged> {
    match v
    case RawBytes(b) =>
      if f.bitLength.None? then Ok(Bytes(b))
      else if |b| > f.bitLength.value / 8 then Err(ValueOutOfRange(f.name))
      else Ok(Bytes(b + Repeat(0, f.bitLength.value / 8 - |b|)))
    case NotAvailable => Ok(Bytes(if f.bitLength.Some? then Repeat(0, f.bitLength.value / 8) else []))
    case _ => Err(TypeMismatch(f.name))
  }

  function StageDynamic(f: FieldInfo, v: EncodeValue): Result<Staged> {
    match v
    case RawBytes(b) => Ok(Bytes(b))
    case NotAvailable => Ok(Bytes([]))
    case _ => Err(TypeMismatch(f.name))
  }

  function StageValue(f: FieldInfo, v: EncodeValue): Result<Staged> {
    match f.fieldType
    case Some(StringFix) => StageStringFix(f, v)
    case Some(StringLz) => StageStringLz(f, v)
    case Some(StringLau) => StageStringLau(f, v)
    case Some(Binary) => StageBinary(f, v)
    case Some(DynamicFieldValue) => StageDynamic(f, v)
    case _ =>
      match ValueToRaw(f, v)
      case Ok(raw) => Ok(Scalar(raw))
      case Err(e) => Err(e)
  }

  // ----- The builder -----

  class PgnBuilder {
    const pgn: PgnInfo
    var prio: byte
    var src: byte
    var dst: byte
    var timestamp: Option<string>
    var staged: seq<Option<Staged>>

    ghost predicate Valid() reads this { |staged| == |pgn.fields| }

    constructor (pgn: PgnInfo)
      ensures Valid() && this.pgn == pgn && staged == seq(|pgn.fields|, _ => None)
      ensures prio == (if pgn.priority.Some? then pgn.priority.value else 6) && src == 0 && dst == 255 && timestamp == None
    {
      this.pgn := pgn;
      this.prio := if pgn.priority.Some? then pgn.priority.value else 6;
      this.src := 0;
      this.dst := 255;
      this.timestamp := None;
      this.staged := seq(|pgn.fields|, _ => None);
    }

    /** Set the field of the given order. */
    method Push(order: nat, v: EncodeValue) returns (r: Result<nat>)
      requires Valid()
      modifies `staged
      ensures Valid()
      ensures if order == 0 || order > |pgn.fields| then r == Err(NoSuchField(order)) && staged == old(staged)
              else match StageValue(pgn.fields[order - 1], v)
                   case Ok(s) => r == Ok(order - 1) && staged == old(staged)[order - 1 := Some(s)]
                   case Err(e) => r == Err(e) && staged == old(staged)
    {
      if order == 0 || order > |pgn.fields| {
        return Err(NoSuchField(order));
      }
      var s := StageValue(pgn.fields[order - 1], v);
      if s.Err? {
        return Err(s.error);
      }
      staged := staged[order - 1 := Some(s.value)];
      return Ok(order - 1);
    }

    /** Pack every field, staged or default; fill the last byte with ones; check the length. */
    method Build() returns (r: Result<RawFrame>)
      requires Valid()
      ensures match MessageBits(pgn.fields, staged, |pgn.fields|)
              case Err(e) => r == Err(e)
              case Ok(bits) =>
                if !LengthFits(pgn, bits)
                then r == Err(LengthMismatch(pgn.pgn, pgn.length.value, |Padded(bits)| / 8))
                else r.Ok? && r.value == RawFrame(timestamp, prio, pgn.pgn, src, dst, r.value.data)
                     && BytesBits(r.value.data) == Padded(bits)
    {
      var packed;
      ghost var done;
      packed, done := Pack(pgn.fields, staged);
      if packed.Err? {
        return Err(packed.error);
      }
      var (buf, nextBit) := packed.value;
      buf, nextBit := FillUp(buf, nextBit, done);
      if pgn.length.Some? && |buf| != pgn.length.value {
        return Err(LengthMismatch(pgn.pgn, pgn.length.value, |buf|));
      }
      return Ok(RawFrame(timestamp, prio, pgn.pgn, src, dst, buf));
    }
  }

  /** Write the fields one after the other, up to the first that cannot be written. */
  method Pack(fields: seq<FieldInfo>, staged: seq<Option<Staged>>)
    returns (r: Result<(seq<byte>, nat)>, ghost done: BitStrings.Bits)
    requires |fields| == |staged|
    ensures match MessageBits(fields, staged, |fields|)
            case Err(e) => r == Err(e)
            case Ok(bits) => r.Ok? && done == bits && Written(r.value.0, bits) && r.value.1 == |bits|
  {
    var buf: seq<byte> := [];
    var nextBit := 0;
    done := [];
    for i := 0 to |fields|
      invariant MessageBits(fields, staged, i) == Ok(done)
      invariant nextBit == |done| && Written(buf, done)
    {
      var bits := FieldBits(fields[i], staged[i]);
      if bits.Err? {
        FirstError(fields, staged, i + 1, |fields|);
        return Err(bits.error), done;
      }
      buf, nextBit := WriteField(buf, nextBit, fields[i], staged[i], done);
      done := done + bits.value;
    }
    return Ok((buf, nextBit)), done;
  }

  /** Fill the last byte with ones. */
  method FillUp(buf: seq<byte>, nextBit: nat, ghost written: BitStrings.Bits) returns (buf': seq<byte>, nextBit': nat)
    requires nextBit == |written| && Written(buf, written)
    ensures BytesBits(buf') == Padded(written)
  {
    var pad := Gap(nextBit);
    buf', nextBit' := buf, nextBit;
    if pad != 0 {
      buf', nextBit' := WriteBits(buf, nextBit, pad, 0xff, written);
    } else {
      assert written + LowBits(0xff, pad) == written;
    }
    WholeIsPrefix(BytesBits(buf'), Padded(written));
  }

  /** Write one field: staged bytes, a staged scalar, or the default. */
  method WriteField(buf: seq<byte>, nextBit: nat, f: FieldInfo, staged: Option<Staged>, ghost written: BitStrings.Bits)
    returns (buf': seq<byte>, nextBit': nat)
    requires nextBit == |written| && Written(buf, written) && FieldBits(f, staged).Ok?
    ensures nextBit' == nextBit + |FieldBits(f, staged).value|
    ensures Written(buf', written + FieldBits(f, staged).value)
  {
    match staged
    case Some(Bytes(bytes)) => buf', nextBit' := WriteBytes(buf, nextBit, bytes, written);
    case Some(Scalar(v)) => buf', nextBit' := WriteBits(buf, nextBit, f.bitLength.value, v, written);
    case None => buf', nextBit' := WriteUnset(buf, nextBit, f, written);
  }

  method WriteBytes(buf: seq<byte>, nextBit: nat, bytes: seq<byte>, ghost written: BitStrings.Bits)
    returns (buf': seq<byte>, nextBit': nat)
    requires nextBit == |written| && Written(buf, written)
    ensures nextBit' == nextBit + 8 * |bytes|
    ensures Written(buf', written + BytesBits(bytes))
  {
    buf', nextBit' := buf, nextBit;
    assert written + BytesBits(bytes[..0]) == written;
    for i := 0 to |bytes|
      invariant nextBit' == nextBit + 8 * i
      invariant Written(buf', written + BytesBits(bytes[..i]))
    {
      BytesSnoc(bytes[..i], bytes[i]);
      assert bytes[..i + 1] == bytes[..i] + [bytes[i]];
      Assoc(written, BytesBits(bytes[..i]), LowBits(bytes[i], BYTE));
      buf', nextBit' := WriteBits(buf', nextBit', 8, bytes[i], written + BytesBits(bytes[..i]));
    }
    assert bytes[..|bytes|] == bytes;
  }

  method WriteUnset(buf: seq<byte>, nextBit: nat, f: FieldInfo, ghost written: BitStrings.Bits)
    returns (buf': seq<byte>, nextBit': nat)
    requires nextBit == |written| && Written(buf, written) && UnsetBits(f).Ok?
    ensures nextBit' == nextBit + |UnsetBits(f).value|
    ensures Written(buf', written + UnsetBits(f).value)
  {
    if f.fieldType == Some(StringFix) || (f.fieldType == Some(Binary) && f.bitLength.Some?) {
      buf', nextBit' := WriteBytes(buf, nextBit, Repeat(0xff, f.bitLength.value / 8), written);
    } else if f.fieldType == Some(Binary) {
      assert written + [] == written;
      buf', nextBit' := buf, nextBit;
    } else if f.fieldType == Some(StringLz) {
      buf', nextBit' := WriteBytes(buf, nextBit, [0], written);
    } else if f.fieldType == Some(StringLau) {
      buf', nextBit' := WriteBytes(buf, nextBit, [2, 1], written);
    } else {
      buf', nextBit' := WriteBits(buf, nextBit, f.bitLength.value, DefaultRaw(f), written);
    }
  }

  lemma {:induction false} FirstError(fields: seq<FieldInfo>, staged: seq<Option<Staged>>, k: nat, n: nat)
    requires k <= n <= |fields| == |staged| && MessageBits(fields, staged, k).Err?
    ensures MessageBits(fields, staged, n) == MessageBits(fields, staged, k)
    decreases n - k
  {
    if k < n {
      FirstError(fields, staged, k, n - 1);
    }
  }

  // ----- Reading back what was written -----

  /** Where field `i` starts. */
  function FieldStart(fields: seq<FieldInfo>, staged: seq<Option<Staged>>, i: nat): nat
    requires i <= |fields| == |staged| && MessageBits(fields, staged, i).Ok?
  {
    |MessageBits(fields, staged, i).value|
  }

  lemma PrefixSlice(all: BitStrings.Bits, more: BitStrings.Bits, at: nat, n: nat)
    requires at + n <= |all|
    ensures (all + more)[at..at + n] == all[at..at + n]
  {
  }

  lemma {:induction false} FieldInMessage(fields: seq<FieldInfo>, staged: seq<Option<Staged>>, i: nat, n: nat)
    requires i < n <= |fields| == |staged| && MessageBits(fields, staged, n).Ok?
    ensures MessageBits(fields, staged, i).Ok? && FieldBits(fields[i], staged[i]).Ok?
    ensures var at, own := FieldStart(fields, staged, i), FieldBits(fields[i], staged[i]).value;
            at + |own| <= |MessageBits(fields, staged, n).value|
            && MessageBits(fields, staged, n).value[at..at + |own|] == own
  {
    if i + 1 < n {
      FieldInMessage(fields, staged, i, n - 1);
      PrefixSlice(MessageBits(fields, staged, n - 1).value, FieldBits(fields[n - 1], staged[n - 1]).value,
                  FieldStart(fields, staged, i), |FieldBits(fields[i], staged[i]).value|);
    }
  }

  lemma SliceOfPadded(b: BitStrings.Bits, at: nat, n: nat)
    requires at + n <= |b|
    ensures Padded(b)[at..at + n] == b[at..at + n]
  {
  }

  /** A field that contributed the `w` low bits of `raw` reads back as them. */
  lemma FieldPattern(fields: seq<FieldInfo>, staged: seq<Option<Staged>>, data: seq<byte>, i: nat, raw: nat, w: nat, signed: bool, offset: int)
    requires |fields| == |staged| && MessageBits(fields, staged, |fields|).Ok?
    requires BytesBits(data) == Padded(MessageBits(fields, staged, |fields|).value)
    requires i < |fields| && 1 <= w <= 64 && FieldBits(fields[i], staged[i]) == Ok(LowBits(raw, w))
    ensures MessageBits(fields, staged, i).Ok?
    ensures Extract(data, FieldStart(fields, staged, i), w, signed, offset)
            == Some(Interpret(FromBits(LowBits(raw, w)), w, signed, offset))
  {
    FieldInMessage(fields, staged, i, |fields|);
    var at := FieldStart(fields, staged, i);
    SliceOfPadded(MessageBits(fields, staged, |fields|).value, at, w);
    assert Present(data, at, w) == LowBits(raw, w);
  }

  /** After the whole message is built, later fields and padding included, every scalar field
      of at most 64 bits reads back, at the sum of the widths before it, as its staged value
      modulo two to its width; and the payload has as many bytes as the bits need. */
  lemma ScalarReadsBack(fields: seq<FieldInfo>, staged: seq<Option<Staged>>, data: seq<byte>, i: nat, signed: bool, offset: int)
    requires |fields| == |staged| && MessageBits(fields, staged, |fields|).Ok?
    requires BytesBits(data) == Padded(MessageBits(fields, staged, |fields|).value)
    requires i < |fields| && staged[i].Some? && staged[i].value.Scalar? && fields[i].bitLength.Some?
    requires 1 <= fields[i].bitLength.value <= 64
    ensures MessageBits(fields, staged, i).Ok?
    ensures var w := fields[i].bitLength.value;
            var x := Extract(data, FieldStart(fields, staged, i), w, signed, offset);
            x == Some(Interpret(staged[i].value.raw % Pow2(w), w, signed, offset))
    ensures |data| == (|MessageBits(fields, staged, |fields|).value| + 7) / 8
  {
    FieldPattern(fields, staged, data, i, staged[i].value.raw, fields[i].bitLength.value, signed, offset);
    FromLow(staged[i].value.raw, fields[i].bitLength.value);
  }

  // ----- Where the fields end up -----

  /** What keeps a field of `w` bits in step with its declared width. */
  predicate KeepsWidth(f: FieldInfo, staged: Option<Staged>, w: nat) {
    match staged
    case Some(Scalar(_)) => true
    case Some(Bytes(bs)) => 8 * |bs| == w
    case None =>
      match f.fieldType
      case Some(StringFix) => w % 8 == 0
      case Some(Binary) => w % 8 == 0
      case Some(StringLz) => w == 8
      case Some(StringLau) => w == 16
      case _ => true
  }

  predicate AllKeepWidth(fields: seq<FieldInfo>, staged: seq<Option<Staged>>, n: nat)
    requires n <= |fields| == |staged|
  {
    forall j :: 0 <= j < n ==> fields[j].bitLength.Some? && KeepsWidth(fields[j], staged[j], fields[j].bitLength.value)
  }

  lemma FieldKeepsWidth(f: FieldInfo, staged: Option<Staged>, w: nat)
    requires f.bitLength == Some(w) && FieldBits(f, staged).Ok?
    ensures |FieldBits(f, staged).value| == w <==> KeepsWidth(f, staged, w)
  {
    assert |BytesBits([0])| == 8 && |BytesBits([2, 1])| == 16;
  }

  /** Every field up to `n`, and the end of the last one, lies at the sum of the declared widths
      before it. */
  predicate AtWidthSums(fields: seq<FieldInfo>, staged: seq<Option<Staged>>, n: nat)
    requires n <= |fields| == |staged|
  {
    forall i :: 0 <= i <= n ==>
      MessageBits(fields, staged, i).Ok? && |MessageBits(fields, staged, i).value| == WidthSum(fields, i)
  }

  lemma {:induction false} PrefixOk(fields: seq<FieldInfo>, staged: seq<Option<Staged>>, i: nat, n: nat)
    requires i <= n <= |fields| == |staged| && MessageBits(fields, staged, n).Ok?
    ensures MessageBits(fields, staged, i).Ok?
  {
    if i < n {
      PrefixOk(fields, staged, i, n - 1);
    }
  }

  predicate HaveWidths(fields: seq<FieldInfo>, n: nat)
    requires n <= |fields|
  {
    forall j :: 0 <= j < n ==> fields[j].bitLength.Some?
  }

  lemma AtSnoc(fields: seq<FieldInfo>, staged: seq<Option<Staged>>, n: nat, m: nat)
    requires m < n <= |fields| == |staged| && m == n - 1 && MessageBits(fields, staged, n).Ok?
    ensures AtWidthSums(fields, staged, n)
            <==> AtWidthSums(fields, staged, m) && |MessageBits(fields, staged, n).value| == WidthSum(fields, n)
  {
  }

  lemma KeepSnoc(fields: seq<FieldInfo>, staged: seq<Option<Staged>>, n: nat, m: nat)
    requires m < n <= |fields| == |staged| && m == n - 1
    ensures AllKeepWidth(fields, staged, n)
            <==> AllKeepWidth(fields, staged, m) && fields[m].bitLength.Some? && KeepsWidth(fields[m], staged[m], fields[m].bitLength.value)
  {
  }

  lemma OwnWidth(fields: seq<FieldInfo>, staged: seq<Option<Staged>>, n: nat, m: nat, w: nat)
    requires m < n <= |fields| == |staged| && m == n - 1 && MessageBits(fields, staged, n).Ok? && fields[m].bitLength == Some(w)
    ensures WidthSum(fields, n) == WidthSum(fields, m) + w && MessageBits(fields, staged, m).Ok?
    ensures |MessageBits(fields, staged, n).value| == |MessageBits(fields, staged, m).value| + w
            <==> KeepsWidth(fields[m], staged[m], w)
  {
    FieldKeepsWidth(fields[m], staged[m], w);
  }

  /** In a message that packs, fields lie where their declared widths put them if and only if
      every field before them keeps its width. */
  lemma {:induction false} WidthSumsExactly(fields: seq<FieldInfo>, staged: seq<Option<Staged>>, n: nat)
    requires n <= |fields| == |staged| && HaveWidths(fields, n) && MessageBits(fields, staged, n).Ok?
    ensures AtWidthSums(fields, staged, n) == AllKeepWidth(fields, staged, n)
  {
    if n > 0 {
      var m := n - 1;
      OwnWidth(fields, staged, n, m, fields[m].bitLength.value);
      AtSnoc(fields, staged, n, m);
      KeepSnoc(fields, staged, n, m);
      WidthSumsExactly(fields, staged, m);
    }
  }

  /** The schema puts every field up to `n` at the sum of the widths before it. */
  predicate Contiguous(fields: seq<FieldInfo>, n: nat)
    requires n < |fields|
  {
    && HaveWidths(fields, n)
    && forall i :: 0 <= i <= n ==> fields[i].bitOffset == Some(WidthSum(fields, i))
  }

  predicate AtSchemaOffsets(fields: seq<FieldInfo>, staged: seq<Option<Staged>>, n: nat)
    requires n < |fields| == |staged|
  {
    forall i :: 0 <= i <= n ==>
      MessageBits(fields, staged, i).Ok? && fields[i].bitOffset == Some(FieldStart(fields, staged, i))
  }

  /** So fields are packed at their schema offsets if and only if every field before them keeps
      its width; the first that does not moves all that follow. */
  lemma {:induction false} OffsetsExactly(fields: seq<FieldInfo>, staged: seq<Option<Staged>>, n: nat)
    requires n < |fields| == |staged| && Contiguous(fields, n) && MessageBits(fields, staged, n).Ok?
    ensures AtSchemaOffsets(fields, staged, n) <==> AllKeepWidth(fields, staged, n)
  {
    WidthSumsExactly(fields, staged, n);
  }

  /** What a caller can see of a value, before it is staged in a field of `w` bits. */
  predicate ValueKeepsWidth(f: FieldInfo, v: EncodeValue, w: nat) {
    match f.fieldType
    case Some(StringFix) => w % 8 == 0
    case Some(StringLz) => w % 8 == 0
    case Some(Binary) => w % 8 == 0
    case Some(StringLau) => w == 8 * ((if v.Text? then |v.text| else 0) + 2)
    case Some(DynamicFieldValue) => w == 8 * if v.RawBytes? then |v.bytes| else 0
    case _ => true
  }

  lemma WholeBytesKept(w: nat)
    ensures 8 * (w / 8) == w <==> w % 8 == 0
  {
  }

  /** A staged value keeps the width of its field exactly if the field has whole bytes; a
      length-prefixed text only if it happens to be as long as the field. */
  lemma StagedKeepsWidth(f: FieldInfo, v: EncodeValue, w: nat)
    requires f.bitLength == Some(w) && StageValue(f, v).Ok?
    ensures KeepsWidth(f, Some(StageValue(f, v).value), w) <==> ValueKeepsWidth(f, v, w)
  {
    WholeBytesKept(w);
  }

  // ----- Part-byte binaries -----

  /** Is the field packed as the whole bytes of its width, the odd bits left out? */
  predicate Cut(f: FieldInfo, staged: Option<Staged>, w: nat) {
    match staged
    case Some(Scalar(_)) => false
    case Some(Bytes(bs)) => |bs| == w / 8
    case None => f.fieldType == Some(StringFix) || f.fieldType == Some(Binary)
  }

  function OddBits(f: FieldInfo, staged: Option<Staged>, w: nat): nat { if Cut(f, staged, w) then w % 8 else 0 }

  /** Every field has a width, and keeps it or is cut to whole bytes. */
  predicate KeptOrCut(fields: seq<FieldInfo>, staged: seq<Option<Staged>>, n: nat)
    requires n <= |fields| == |staged|
  {
    forall j :: 0 <= j < n ==>
      && fields[j].bitLength.Some?
      && var w := fields[j].bitLength.value;
         KeepsWidth(fields[j], staged[j], w) || Cut(fields[j], staged[j], w)
  }

  /** How many bits the first `n` fields are packed short of their widths. */
  function Shortfall(fields: seq<FieldInfo>, staged: seq<Option<Staged>>, n: nat): nat
    requires n <= |fields| == |staged|
  {
    if n == 0 then 0
    else
      var f, s := fields[n - 1], staged[n - 1];
      Shortfall(fields, staged, n - 1) + if f.bitLength.Some? then OddBits(f, s, f.bitLength.value) else 0
  }

  lemma CutWidth(f: FieldInfo, staged: Option<Staged>, w: nat)
    requires f.bitLength == Some(w) && FieldBits(f, staged).Ok? && (KeepsWidth(f, staged, w) || Cut(f, staged, w))
    ensures |FieldBits(f, staged).value| + OddBits(f, staged, w) == w
  {
    FieldKeepsWidth(f, staged, w);
  }

  /** A binary whose width is no number of whole bytes never keeps it, whatever is staged. */
  lemma PartByteBinary(f: FieldInfo, v: EncodeValue, w: nat)
    requires f.fieldType == Some(Binary) && f.bitLength == Some(w) && w % 8 != 0
    ensures Cut(f, None, w) && !KeepsWidth(f, None, w)
    ensures StageValue(f, v).Ok? ==>
              Cut(f, Some(StageValue(f, v).value), w) && !KeepsWidth(f, Some(StageValue(f, v).value), w)
  {
  }

  lemma ShortfallStep(fields: seq<FieldInfo>, staged: seq<Option<Staged>>, n: nat, m: nat, w: nat)
    requires m < n <= |fields| == |staged| && m == n - 1 && MessageBits(fields, staged, n).Ok? && fields[m].bitLength == Some(w)
    requires KeepsWidth(fields[m], staged[m], w) || Cut(fields[m], staged[m], w)
    ensures MessageBits(fields, staged, m).Ok?
    ensures |MessageBits(fields, staged, n).value| + OddBits(fields[m], staged[m], w)
            == |MessageBits(fields, staged, m).value| + w
  {
    CutWidth(fields[m], staged[m], w);
  }

  lemma {:induction false} ShortfallExactly(fields: seq<FieldInfo>, staged: seq<Option<Staged>>, n: nat)
    requires n <= |fields| == |staged| && KeptOrCut(fields, staged, n) && MessageBits(fields, staged, n).Ok?
    ensures |MessageBits(fields, staged, n).value| + Shortfall(fields, staged, n) == WidthSum(fields, n)
  {
    if n > 0 {
      var m := n - 1;
      ShortfallStep(fields, staged, n, m, fields[m].bitLength.value);
      ShortfallExactly(fields, staged, m);
    }
  }

  lemma RoundedUp(total: nat, lost: nat, size: nat)
    requires lost <= total && size % 8 == 0 && total - lost <= size < total - lost + 8
    ensures size / 8 == (total + 7) / 8 <==> lost <= (total + 7) % 8
  {
  }

  /** The length check of a message whose schema length is that of its declared widths: it
      notices that bits are missing if and only if they are more than the padding hides. */
  lemma {:induction false} LengthCheckExactly(info: PgnInfo, staged: seq<Option<Staged>>)
    requires |info.fields| == |staged| && KeptOrCut(info.fields, staged, |staged|)
    requires MessageBits(info.fields, staged, |staged|).Ok?
    requires info.length == Some((WidthSum(info.fields, |staged|) + 7) / 8)
    ensures LengthFits(info, MessageBits(info.fields, staged, |staged|).value)
            <==> Shortfall(info.fields, staged, |staged|) <= (WidthSum(info.fields, |staged|) + 7) % 8
  {
    var bits := MessageBits(info.fields, staged, |staged|).value;
    ShortfallExactly(info.fields, staged, |staged|);
    RoundedUp(WidthSum(info.fields, |staged|), Shortfall(info.fields, staged, |staged|), |Padded(bits)|);
  }

  // ----- PGN 65240 -----

  /** The widths of the fields of PGN 65240, the commanded address: a binary of 21 bits, and
      numbers. */
  const COMMANDED_ADDRESS: seq<nat> := [21, 11, 3, 5, 8, 1, 7, 4, 3, 1, 8]

  predicate CommandedAddress(info: PgnInfo, staged: seq<Option<Staged>>) {
    && |info.fields| == |staged| == 11 && info.length == Some(9)
    && (forall j :: 0 <= j < 11 ==> info.fields[j].bitLength == Some(COMMANDED_ADDRESS[j]))
    && (forall j :: 0 <= j < 11 ==> info.fields[j].bitOffset == Some(WidthSum(info.fields, j)))
    && info.fields[0].fieldType == Some(Binary) && Cut(info.fields[0], staged[0], 21)
    && (forall j :: 1 <= j < 11 ==> IsScalar(info.fields[j], staged[j]))
  }

  function Sum(ws: seq<nat>, n: nat): nat
    requires n <= |ws|
  {
    if n == 0 then 0 else Sum(ws, n - 1) + ws[n - 1]
  }

  lemma {:induction false} WidthSumIs(fields: seq<FieldInfo>, ws: seq<nat>, n: nat)
    requires |fields| == |ws| && (forall j :: 0 <= j < |ws| ==> fields[j].bitLength == Some(ws[j])) && n <= |ws|
    ensures WidthSum(fields, n) == Sum(ws, n)
  {
    if n > 0 {
      WidthSumIs(fields, ws, n - 1);
    }
  }

  lemma CommandedSum()
    ensures Sum(COMMANDED_ADDRESS, 11) == 72
  {
    var ws := COMMANDED_ADDRESS;
    assert Sum(ws, 2) == 32;
    assert Sum(ws, 4) == 40;
    assert Sum(ws, 6) == 49;
    assert Sum(ws, 8) == 60;
    assert Sum(ws, 10) == 64;
  }

  lemma CommandedShortfall(fields: seq<FieldInfo>, staged: seq<Option<Staged>>, n: nat)
    requires |fields| == |staged| == 11 && 1 <= n <= 11
    requires fields[0].bitLength == Some(21) && Cut(fields[0], staged[0], 21)
    requires forall j :: 1 <= j < 11 ==> IsScalar(fields[j], staged[j])
    ensures Shortfall(fields, staged, n) == 5
  {
    if n > 1 {
      CommandedShortfall(fields, staged, n - 1);
    }
  }

  lemma CommandedPacks(info: PgnInfo, staged: seq<Option<Staged>>, n: nat)
    requires CommandedAddress(info, staged) && n <= 11
    ensures MessageBits(info.fields, staged, n).Ok?
  {
    if n > 1 {
      CommandedPacks(info, staged, n - 1);
      ScalarBits(info.fields[n - 1], staged[n - 1]);
    }
  }

  lemma CommandedStart(info: PgnInfo, staged: seq<Option<Staged>>, j: nat)
    requires CommandedAddress(info, staged) && 1 <= j <= 11
    ensures MessageBits(info.fields, staged, j).Ok?
    ensures |MessageBits(info.fields, staged, j).value| + 5 == WidthSum(info.fields, j)
  {
    CommandedPacks(info, staged, j);
    CommandedShortfall(info.fields, staged, j);
    ShortfallExactly(info.fields, staged, j);
  }

  /** Every commanded address, whatever is staged or left unset, goes out with all fields after
      the first moved five bits forward; the length check does not notice. */
  lemma CommandedAddressMoves(info: PgnInfo, staged: seq<Option<Staged>>)
    requires CommandedAddress(info, staged)
    ensures MessageBits(info.fields, staged, 11).Ok? && LengthFits(info, MessageBits(info.fields, staged, 11).value)
    ensures forall j :: 1 <= j < 11 ==>
              && MessageBits(info.fields, staged, j).Ok?
              && info.fields[j].bitOffset == Some(FieldStart(info.fields, staged, j) + 5)
  {
    forall j | 1 <= j < 11
      ensures MessageBits(info.fields, staged, j).Ok?
      ensures info.fields[j].bitOffset == Some(FieldStart(info.fields, staged, j) + 5)
    {
      CommandedStart(info, staged, j);
    }
    CommandedLength(info, staged);
  }

  lemma CommandedLength(info: PgnInfo, staged: seq<Option<Staged>>)
    requires CommandedAddress(info, staged)
    ensures MessageBits(info.fields, staged, 11).Ok? && LengthFits(info, MessageBits(info.fields, staged, 11).value)
  {
    WidthSumIs(info.fields, COMMANDED_ADDRESS, 11);
    CommandedSum();
    CommandedPacks(info, staged, 11);
    CommandedShortfall(info.fields, staged, 11);
    LengthCheckExactly(info, staged);
  }

  /** A field of fixed width that is packed as a number, staged or not. */
  predicate IsScalar(f: FieldInfo, staged: Option<Staged>) {
    && f.bitLength.Some? && 1 <= f.bitLength.value <= 64
    && match staged
       case Some(s) => s.Scalar?
       case None =>
         f.fieldType.Some? ==>
           f.fieldType.value !in {StringFix, StringLz, StringLau, Binary, Variable, DynamicFieldKey, DynamicFieldLength, DynamicFieldValue}
  }

  predicate AllScalar(fields: seq<FieldInfo>, staged: seq<Option<Staged>>) {
    |fields| == |staged| && forall i :: 0 <= i < |fields| ==> IsScalar(fields[i], staged[i])
  }

  /** The value that is packed: the staged one, or the default. */
  function Packed(f: FieldInfo, staged: Option<Staged>): nat
    requires IsScalar(f, staged)
  {
    match staged
    case Some(s) => s.raw
    case None => DefaultRaw(f)
  }

  lemma ScalarBits(f: FieldInfo, staged: Option<Staged>)
    requires IsScalar(f, staged)
    ensures FieldBits(f, staged) == Ok(LowBits(Packed(f, staged), f.bitLength.value))
  {
  }

  lemma {:induction false} ScalarMessageBits(fields: seq<FieldInfo>, staged: seq<Option<Staged>>, n: nat)
    requires AllScalar(fields, staged) && n <= |fields|
    ensures MessageBits(fields, staged, n).Ok? && |MessageBits(fields, staged, n).value| == WidthSum(fields, n)
  {
    if n > 0 {
      ScalarMessageBits(fields, staged, n - 1);
      ScalarBits(fields[n - 1], staged[n - 1]);
    }
  }

  /** A message of fields of at most 64 bits, staged or not, always packs; each field reads back,
      at the sum of the widths before it, as its value modulo two to its width; and the payload
      has the sum of all widths over 8, rounded up, bytes. */
  lemma {:induction false} ScalarMessage(fields: seq<FieldInfo>, staged: seq<Option<Staged>>, data: seq<byte>, i: nat, signed: bool, offset: int)
    requires AllScalar(fields, staged) && i < |fields|
    ensures MessageBits(fields, staged, |fields|).Ok?
    ensures BytesBits(data) == Padded(MessageBits(fields, staged, |fields|).value) ==>
              var w := fields[i].bitLength.value;
              && |data| == (WidthSum(fields, |fields|) + 7) / 8
              && Extract(data, WidthSum(fields, i), w, signed, offset)
                 == Some(Interpret(Packed(fields[i], staged[i]) % Pow2(w), w, signed, offset))
  {
    var w, raw := fields[i].bitLength.value, Packed(fields[i], staged[i]);
    ScalarMessageBits(fields, staged, |fields|);
    ScalarMessageBits(fields, staged, i);
    ScalarBits(fields[i], staged[i]);
    if BytesBits(data) == Padded(MessageBits(fields, staged, |fields|).value) {
      FieldPattern(fields, staged, data, i, raw, w, signed, offset);
      FromLow(raw, w);
    }
  }

  lemma MaskedInverse(x: int, w: nat, raw: u64, got: Option<Extracted>)
    requires 1 <= w <= 64 && 0 - Pow2(w - 1) <= x < Pow2(w - 1) && raw == MaskToWidth(x, w)
    requires got == Some(Interpret(FromBits(LowBits(raw, w)), w, true, 0))
    ensures got.Some? && got.value.value == x
  {
    FromLow(raw, w);
    ModTwice(x, Pow2(w));
    SignedInverse(x, w);
  }

  /** A signed value that fits its field survives building and signed extraction. */
  lemma {:induction false} SignedReadsBack(fields: seq<FieldInfo>, staged: seq<Option<Staged>>, data: seq<byte>, i: nat, w: nat, x: int)
    requires |fields| == |staged| && MessageBits(fields, staged, |fields|).Ok?
    requires BytesBits(data) == Padded(MessageBits(fields, staged, |fields|).value)
    requires i < |fields| && fields[i].bitLength == Some(w) && 1 <= w <= 64
    requires 0 - Pow2(w - 1) <= x < Pow2(w - 1)
    requires staged[i] == Some(Scalar(MaskToWidth(x, w)))
    ensures MessageBits(fields, staged, i).Ok?
    ensures var r := Extract(data, FieldStart(fields, staged, i), w, true, 0);
            r.Some? && r.value.value == x
  {
    FieldPattern(fields, staged, data, i, staged[i].value.raw, w, true, 0);
    MaskedInverse(x, w, staged[i].value.raw, Extract(data, FieldStart(fields, staged, i), w, true, 0));
  }

  lemma SmallField(data: seq<byte>, at: nat, x: nat, w: nat)
    requires 1 <= w <= 64 && x < Pow2(w) && at + w <= 8 * |data| && BytesBits(data)[at..at + w] == LowBits(x, w)
    ensures Extract(data, at, w, false, 0).Some? && Extract(data, at, w, false, 0).value.raw == x
  {
    ExtractRaw(data, at, w, false, 0);
    FromLowExact(x, w);
  }

  /** A slice of a slice of a prefix. */
  lemma SliceInPrefix(whole: BitStrings.Bits, all: BitStrings.Bits, start: nat, own: BitStrings.Bits, at: nat, b: BitStrings.Bits)
    requires all <= whole && start + |own| <= |all| && all[start..start + |own|] == own
    requires start <= at && at - start + |b| <= |own| && own[at - start..at - start + |b|] == b
    ensures at + |b| <= |whole| && whole[at..at + |b|] == b
  {
    SliceOfSlice(all, start, |own|, at - start, |b|);
    assert whole[at..at + |b|] == all[at..at + |b|];
  }

  /** Byte `k` of `bytes` starts at bit `first` of its bits `own`. */
  lemma ByteInOwn(bytes: seq<byte>, own: BitStrings.Bits, k: nat, first: nat, w: nat)
    requires k < |bytes| && own == BytesBits(bytes) && w == 8 && first == 8 * k
    ensures first + w <= |own| && own[first..first + w] == LowBits(bytes[k], w) && bytes[k] < Pow2(w)
  {
    ByteAt(bytes, k);
    Pow2Eight();
  }

  lemma AlignedByte(data: seq<byte>, at: nat, n: nat, x: byte, w: nat)
    requires w == 8 && at == 8 * n && at + w <= 8 * |data| && BytesBits(data)[at..at + w] == LowBits(x, w)
    ensures n < |data| && data[n] == x
  {
    ByteInOwn(data, BytesBits(data), n, at, w);
    Pow2Eight();
    LowInjective(x, data[n], w);
  }

  lemma PaddedPrefix(whole: BitStrings.Bits, all: BitStrings.Bits)
    requires whole == Padded(all)
    ensures all <= whole
  {
  }

  /** The bits that field `i` contributes lie at its start among the bits `all` of the message. */
  lemma StagedSlice(fields: seq<FieldInfo>, staged: seq<Option<Staged>>, i: nat, n: nat, own: BitStrings.Bits, all: BitStrings.Bits, start: nat)
    requires i < n <= |fields| == |staged| && MessageBits(fields, staged, n) == Ok(all)
    requires FieldBits(fields[i], staged[i]) == Ok(own)
    requires MessageBits(fields, staged, i).Ok? && start == FieldStart(fields, staged, i)
    ensures start + |own| <= |all| && all[start..start + |own|] == own
  {
    FieldInMessage(fields, staged, i, n);
  }

  lemma ByteInWhole(whole: BitStrings.Bits, all: BitStrings.Bits, start: nat, bytes: seq<byte>, own: BitStrings.Bits, k: nat, at: nat, w: nat)
    requires all <= whole && start + |own| <= |all| && all[start..start + |own|] == own
    requires own == BytesBits(bytes) && k < |bytes| && w == 8 && at == start + 8 * k
    ensures at + w <= |whole| && whole[at..at + w] == LowBits(bytes[k], w)
  {
    ByteInOwn(bytes, own, k, at - start, w);
    SliceInPrefix(whole, all, start, own, at, LowBits(bytes[k], w));
  }

  lemma StagedByte(fields: seq<FieldInfo>, staged: seq<Option<Staged>>, whole: BitStrings.Bits, i: nat, n: nat, bytes: seq<byte>, k: nat, at: nat, w: nat)
    requires i < n == |fields| == |staged| && MessageBits(fields, staged, n).Ok?
    requires whole == Padded(MessageBits(fields, staged, n).value)
    requires FieldBits(fields[i], staged[i]) == Ok(BytesBits(bytes)) && k < |bytes| && w == 8
    requires MessageBits(fields, staged, i).Ok? && at == FieldStart(fields, staged, i) + 8 * k
    ensures at + w <= |whole| && whole[at..at + w] == LowBits(bytes[k], w)
  {
    var all, start, own := MessageBits(fields, staged, n).value, FieldStart(fields, staged, i), BytesBits(bytes);
    PaddedPrefix(whole, all);
    StagedSlice(fields, staged, i, n, own, all, start);
    ByteInWhole(whole, all, start, bytes, own, k, at, w);
  }

  lemma StagedReadsBack(fields: seq<FieldInfo>, staged: seq<Option<Staged>>, data: seq<byte>, i: nat, n: nat, bytes: seq<byte>, k: nat, at: nat, w: nat)
    requires i < n == |fields| == |staged| && MessageBits(fields, staged, n).Ok?
    requires BytesBits(data) == Padded(MessageBits(fields, staged, n).value)
    requires FieldBits(fields[i], staged[i]) == Ok(BytesBits(bytes)) && k < |bytes| && w == 8
    requires MessageBits(fields, staged, i).Ok? && at == FieldStart(fields, staged, i) + 8 * k
    ensures Extract(data, at, w, false, 0).Some? && Extract(data, at, w, false, 0).value.raw == bytes[k]
  {
    StagedByte(fields, staged, BytesBits(data), i, n, bytes, k, at, w);
    Pow2Eight();
    SmallField(data, at, bytes[k], w);
  }

  /** On a byte boundary, they are bytes of the payload. */
  lemma StagedInPlace(fields: seq<FieldInfo>, staged: seq<Option<Staged>>, data: seq<byte>, i: nat, n: nat, bytes: seq<byte>, k: nat, at: nat, m: nat, w: nat)
    requires i < n == |fields| == |staged| && MessageBits(fields, staged, n).Ok?
    requires BytesBits(data) == Padded(MessageBits(fields, staged, n).value)
    requires FieldBits(fields[i], staged[i]) == Ok(BytesBits(bytes)) && k < |bytes| && w == 8
    requires MessageBits(fields, staged, i).Ok? && at == FieldStart(fields, staged, i) + 8 * k && at == 8 * m
    ensures m < |data| && data[m] == bytes[k]
  {
    StagedByte(fields, staged, BytesBits(data), i, n, bytes, k, at, w);
    AlignedByte(data, at, m, bytes[k], w);
  }

  /** Every byte of a staged string or binary reads back in its place. */
  lemma BytesReadBack(fields: seq<FieldInfo>, staged: seq<Option<Staged>>, data: seq<byte>, i: nat, k: nat)
    requires |fields| == |staged| && MessageBits(fields, staged, |fields|).Ok?
    requires BytesBits(data) == Padded(MessageBits(fields, staged, |fields|).value)
    requires i < |fields| && staged[i].Some? && staged[i].value.Bytes? && k < |staged[i].value.bytes|
    ensures MessageBits(fields, staged, i).Ok?
    ensures var x := Extract(data, FieldStart(fields, staged, i) + 8 * k, 8, false, 0);
            x.Some? && x.value.raw == staged[i].value.bytes[k]
  {
    var bytes := staged[i].value.bytes;
    PrefixOk(fields, staged, i, |fields|);
    StagedReadsBack(fields, staged, data, i, |fields|, bytes, k, FieldStart(fields, staged, i) + 8 * k, BYTE);
  }

  /** If the field starts on a byte boundary, its bytes are bytes of the payload. */
  lemma {:induction false} BytesInPlace(fields: seq<FieldInfo>, staged: seq<Option<Staged>>, data: seq<byte>, i: nat, k: nat, first: nat, n: nat)
    requires |fields| == |staged| && MessageBits(fields, staged, |fields|).Ok?
    requires BytesBits(data) == Padded(MessageBits(fields, staged, |fields|).value)
    requires i < |fields| && staged[i].Some? && staged[i].value.Bytes? && k < |staged[i].value.bytes|
    requires MessageBits(fields, staged, i).Ok? && first == FieldStart(fields, staged, i) && first + 8 * k == 8 * n
    ensures n < |data| && data[n] == staged[i].value.bytes[k]
  {
    var bytes := staged[i].value.bytes;
    StagedInPlace(fields, staged, data, i, |fields|, bytes, k, first + 8 * k, n, BYTE);
  }
}
