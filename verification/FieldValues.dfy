/** What a pattern in a payload means: as an integer, as a value of its field, or as a text. */
module FieldValues {
  import opened Wire
  import opened BitStrings
  import opened Bits
  import opened Schema
  import opened Decode

  /** There is nothing to extract from a field of no or too many bits, or one that starts behind the
      payload. */
  lemma ExtractsExactly(data: seq<byte>, bitOffset: nat, bits: nat, signed: bool, offset: int)
    ensures Extract(data, bitOffset, bits, signed, offset).Some? <==> 1 <= bits <= 64 && bitOffset < 8 * |data|
  {
  }

  /** What a pattern of `w` bits stands for. With an offset, or unsigned, it is the number itself and
      the offset; signed, the number of that range that equals it modulo two to the width. All 64
      bits are a signed number anyway. And the largest value is that of all ones, without the sign. */
  lemma ValueExactly(raw: nat, w: nat, signed: bool, offset: int)
    requires 1 <= w <= 64 && raw < Pow2(w)
    ensures var x := Interpret(raw, w, signed, offset);
            && x.raw == raw
            && (if signed && offset == 0
                then 0 - Pow2(w - 1) <= x.value < Pow2(w - 1) && x.value % Pow2(w) == raw
                else if w < 64 then x.value == raw + offset
                else -0x8000_0000_0000_0000 <= x.value - offset <= 0x7fff_ffff_ffff_ffff
                     && (x.value - offset) % 0x1_0000_0000_0000_0000 == raw)
            && x.max == if signed then Pow2(w - 1) - 1 + offset else if w < 64 then Pow2(w) - 1 + offset else -1 + offset
  {
    Pow64();
    PowMonotone(w, 64);
    PowMonotone(w - 1, 63);
    if w < 64 {
      PowMonotone(w, 63);
    }
    HalfOnes(w);
    DivModUnique(raw, Pow2(w), 0, raw);
    DivModUnique(raw - Pow2(w), Pow2(w), -1, raw);
  }

  lemma HalfOnes(w: nat)
    requires w >= 1
    ensures Pow2(w) == 2 * Pow2(w - 1) && (Pow2(w) - 1) / 2 == Pow2(w - 1) - 1
  {
  }

  // ----- Numbers -----

  /** The integer that a pattern of a number field stands for: two's complement if the field is signed
      and has no display offset. */
  predicate StandsFor(f: FieldInfo, raw: nat, w: nat, n: int)
    requires w >= 1
  {
    if f.signed && f.offset == 0 then 0 - Pow2(w - 1) <= n < Pow2(w - 1) && n % Pow2(w) == raw
    else if w < 64 then n == raw
    else -0x8000_0000_0000_0000 <= n <= 0x7fff_ffff_ffff_ffff && n % 0x1_0000_0000_0000_0000 == raw
  }

  lemma PatternStands(f: FieldInfo, raw: nat, w: nat, x: Extracted)
    requires 1 <= w <= 64 && raw < Pow2(w) && x == Interpret(raw, w, EffectivelySigned(f), 0)
    ensures x.raw == raw && StandsFor(f, raw, w, x.value)
  {
    ValueExactly(raw, w, EffectivelySigned(f), 0);
  }

  lemma DecodesPattern(f: FieldInfo, data: seq<byte>, at: nat, w: nat, raw: nat)
    requires 1 <= w <= 64 && at + w <= 8 * |data| && raw == FromBits(BytesBits(data)[at..at + w])
    ensures raw < Pow2(w) && DecodeNumber(f, data, at, w) == NumberValue(f, Interpret(raw, w, EffectivelySigned(f), 0))
  {
    ExtractWhole(data, at, w, EffectivelySigned(f), 0, BytesBits(data)[at..at + w]);
  }

  /** A number that lies wholly in the payload: not available, out of range or reserved exactly if its
      pattern is the one that the schema gives for that, in this order; else the integer that it
      stands for, or that many steps of the resolution above the offsets. */
  lemma NumberExactly(f: FieldInfo, data: seq<byte>, at: nat, w: nat, raw: nat) returns (n: int)
    requires 1 <= w <= 64 && at + w <= 8 * |data| && raw == FromBits(BytesBits(data)[at..at + w])
    ensures StandsFor(f, raw, w, n)
    ensures DecodeNumber(f, data, at, w)
            == if f.unknownValue == Some(raw) then NotAvailable
               else if f.outOfRangeValue == Some(raw) then OutOfRange(raw)
               else if f.reservedValue == Some(raw) then ReservedValue(raw)
               else if f.resolution == 1.0 && f.unitOffset == 0.0 && f.offset == 0 && !f.dimensioned then Integer(n)
               else FieldValue.Number(n as real * f.resolution + f.offset as real + f.unitOffset)
  {
    DecodesPattern(f, data, at, w, raw);
    var x := Interpret(raw, w, EffectivelySigned(f), 0);
    PatternStands(f, raw, w, x);
    n := x.value;
    PresentedAs(f, x, raw, n);
  }

  lemma PresentedAs(f: FieldInfo, x: Extracted, raw: nat, n: int)
    requires x.raw == raw && x.value == n
    ensures NumberValue(f, x)
            == if f.unknownValue == Some(raw) then NotAvailable
               else if f.outOfRangeValue == Some(raw) then OutOfRange(raw)
               else if f.reservedValue == Some(raw) then ReservedValue(raw)
               else if f.resolution == 1.0 && f.unitOffset == 0.0 && f.offset == 0 && !f.dimensioned then Integer(n)
               else FieldValue.Number(n as real * f.resolution + f.offset as real + f.unitOffset)
  {
    assert f.unknownValue.Some? && f.unknownValue.value == raw <==> f.unknownValue == Some(raw);
    assert f.outOfRangeValue.Some? && f.outOfRangeValue.value == raw <==> f.outOfRangeValue == Some(raw);
    assert f.reservedValue.Some? && f.reservedValue.value == raw <==> f.reservedValue == Some(raw);
  }

  lemma NumberMissing(f: FieldInfo, data: seq<byte>, at: nat, w: nat)
    requires !(1 <= w <= 64 && at < 8 * |data|)
    ensures DecodeNumber(f, data, at, w) == NotAvailable
  {
    ExtractsExactly(data, at, w, EffectivelySigned(f), 0);
  }

  // ----- Texts -----

  /** A text that does not start on a byte, or that is not whole bytes, is not supported. */
  lemma UnalignedTexts(data: seq<byte>, at: nat, w: nat)
    requires at % 8 != 0
    ensures DecodeLau(data, at) == (Unsupported, 8) && DecodeFix(data, at, w) == Unsupported && DecodeLz(data, at, w) == Unsupported
  {
  }

  /** A self-delimiting text takes as many bytes as its first says, at least two; it is not available
      if that byte or the next is missing, or says less than two; and it ends at the end of the
      payload, should that come first. */
  lemma LauExactly(data: seq<byte>, start: nat, total: nat)
    requires start < |data| ==> total == data[start]
    ensures var d := DecodeLau(data, 8 * start);
            if start + 2 > |data| || total < 2 then d == (NotAvailable, 16)
            else
              && d.1 == 8 * total
              && var end := if start + total <= |data| then start + total else |data|;
                 var body := data[start + 2..end];
                 d.0 == if data[start + 1] == 0 then Utf16(body) else Shown(Trim(body))
  {
    if start + 2 <= |data| && total >= 2 {
      var end := if start + total <= |data| then start + total else |data|;
      LauBody(data, 8 * start, start, total, end, data[start + 2..end]);
    } else {
      LauMissing(data, 8 * start, start, total);
    }
  }

  lemma LauBody(data: seq<byte>, at: nat, start: nat, total: nat, end: nat, body: seq<byte>)
    requires at / 8 == start && at % 8 == 0 && start + 2 <= |data| && total == data[start] && total >= 2
    requires end == Min(start + total, |data|) && body == data[start + 2..end]
    ensures DecodeLau(data, at) == (LauValue(data[start + 1], body), 8 * total)
  {
  }

  lemma LauMissing(data: seq<byte>, at: nat, start: nat, total: nat)
    requires at / 8 == start && at % 8 == 0 && (start + 2 > |data| || (total == data[start] && total < 2))
    ensures DecodeLau(data, at) == (NotAvailable, 16)
  {
  }

  /** A text behind a length byte is that many bytes, or those that the field or the payload still
      has. */
  lemma LzExactly(data: seq<byte>, start: nat, w: nat, end: nat, stop: nat)
    requires start < |data| && (w == 0 || w >= 8)
    requires end == if w != 0 && start + w / 8 < |data| then start + w / 8 else |data|
    requires var n: nat := data[start]; stop == if start + 1 + n <= end then start + 1 + n else end
    ensures start < stop <= end
    ensures DecodeLz(data, 8 * start, w) == Shown(data[start + 1..stop])
  {
    var room := if end > start + 1 then end - (start + 1) else 0;
    LzBody(data, 8 * start, start, w, end, room, stop, data[start + 1..stop]);
  }

  lemma LzBody(data: seq<byte>, at: nat, start: nat, w: nat, end: nat, room: nat, stop: nat, body: seq<byte>)
    requires at / 8 == start && at % 8 == 0 && start < |data| && room == (if end > start + 1 then end - (start + 1) else 0)
    requires end == if w == 0 then |data| else Min(start + w / 8, |data|)
    requires stop == start + 1 + Min(data[start], room) && stop <= |data| && body == data[start + 1..stop]
    ensures DecodeLz(data, at, w) == Shown(body)
  {
  }

  lemma TextsMissing(data: seq<byte>, start: nat, w: nat)
    ensures start >= |data| ==> DecodeLz(data, 8 * start, w) == NotAvailable
    ensures start + w / 8 > |data| && w % 8 == 0 ==> DecodeFix(data, 8 * start, w) == NotAvailable
  {
  }

  /** A text behind a length byte, or a binary, that has no width of its own takes all whole bytes that
      are left. */
  lemma OpenEndedExactly(f: FieldInfo, data: seq<byte>, at: nat)
    requires f.bitLength.None? && (f.fieldType == Some(StringLz) || f.fieldType == Some(Binary))
    ensures DecodeOne(f, data, at).Some?
    ensures var left := if at < 8 * |data| then 8 * |data| - at else 0;
            DecodeOne(f, data, at).value.1 == left - left % 8
  {
  }

  // ----- What the walk passes over -----

  /** A conditional field, or one that cannot be decoded, is not there for the walk. */
  lemma SkippedField(f: FieldInfo, data: seq<byte>, p: Progress)
    requires f.conditional || DecodeOne(f, data, if f.bitOffset.Some? then f.bitOffset.value else p.cursor).None?
    ensures FieldStep(f, data, p) == p
  {
  }

  lemma SkippedInSet(group: seq<FieldInfo>, data: seq<byte>, number: nat, count: Option<nat>, iter: nat, c: nat, sub: nat, first: bool)
    requires c < |group| && group[c].conditional
    ensures Pass(group, data, number, count, iter, c, sub, first) == Pass(group, data, number, count, iter, c + 1, sub, first)
  {
  }

  /** Two passes agree from a field on that they share, if they agree behind it. */
  lemma PassesAgree(g: seq<FieldInfo>, h: seq<FieldInfo>, data: seq<byte>, number: nat, count: Option<nat>, iter: nat, j: nat, k: nat, sub: nat, first: bool,
      off: nat, d: Option<(FieldValue, nat)>, sub': nat)
    requires j < |g| && k < |h| && g[j] == h[k] && !g[j].conditional
    requires off == FieldOffset(g[j], iter, sub) && d == DecodeOne(g[j], data, off)
    requires sub' == if d.Some? then off + d.value.1 else if g[j].bitLength.Some? then off + g[j].bitLength.value else sub
    requires Pass(g, data, number, count, iter, j + 1, sub', first && d.None?) == Pass(h, data, number, count, iter, k + 1, sub', first && d.None?)
    ensures Pass(g, data, number, count, iter, j, sub, first) == Pass(h, data, number, count, iter, k, sub, first)
  {
  }

  /** Nor does it change an iteration of a set to leave out a conditional field. */
  lemma {:induction false} ConditionalIgnored(group: seq<FieldInfo>, less: seq<FieldInfo>, data: seq<byte>, number: nat, count: Option<nat>, iter: nat, c: nat, j: nat, sub: nat, first: bool)
    requires c < |group| && group[c].conditional && less == group[..c] + group[c + 1..] && j <= |less|
    ensures Pass(less, data, number, count, iter, j, sub, first)
            == Pass(group, data, number, count, iter, if j < c then j else j + 1, sub, first)
    decreases |less| - j
  {
    if j < |less| {
      var f, k := less[j], if j < c then j else j + 1;
      assert f == group[k];
      var off := FieldOffset(f, iter, sub);
      var d := if f.conditional then None else DecodeOne(f, data, off);
      var sub' := if f.conditional then sub
                  else if d.Some? then off + d.value.1 else if f.bitLength.Some? then off + f.bitLength.value else sub;
      ConditionalIgnored(group, less, data, number, count, iter, c, j + 1, sub', first && d.None?);
      if k + 1 == c {
        SkippedInSet(group, data, number, count, iter, c, sub', first && d.None?);
      }
      if f.conditional {
        SkippedInSet(less, data, number, count, iter, j, sub, first);
        SkippedInSet(group, data, number, count, iter, k, sub, first);
      } else {
        PassesAgree(less, group, data, number, count, iter, j, k, sub, first, off, d, sub');
      }
    }
  }

  /** A field of a set that cannot be decoded still takes its width. */
  lemma UndecodableInSet(group: seq<FieldInfo>, data: seq<byte>, number: nat, count: Option<nat>, iter: nat, j: nat, sub: nat, first: bool, at: nat)
    requires j < |group| && !group[j].conditional && group[j].bitLength.Some? && DecodeOne(group[j], data, at).None?
    requires at == if iter == 0 && group[j].bitOffset.Some? then group[j].bitOffset.value else sub
    ensures Pass(group, data, number, count, iter, j, sub, first)
            == Pass(group, data, number, count, iter, j + 1, at + group[j].bitLength.value, first)
  {
  }
}
