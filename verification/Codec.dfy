/** What the decoder makes of what the encoder writes. */
module Codec {
  import opened Wire
  import opened BitStrings
  import opened Bits
  import opened Schema
  import Encode
  import Decode

  // ----- Length-prefixed texts -----

  type LauText = t: seq<byte> | |t| <= 253 witness []

  function LauBytes(t: LauText): (b: seq<byte>)
    ensures |b| == |t| + 2
  {
    [|t| + 2, 1] + t
  }

  /** The texts on the wire, one after the other. */
  function LauRun(ts: seq<LauText>): seq<byte> {
    if ts == [] then [] else LauRun(ts[..|ts| - 1]) + LauBytes(ts[|ts| - 1])
  }

  /** A text field that is always there, at an unstated offset or at its true one. */
  predicate LauField(f: FieldInfo, at: nat) {
    && f.fieldType == Some(StringLau) && !f.conditional
    && (f.bitOffset.Some? ==> f.bitOffset.value == at)
  }

  /** A message of text fields only. */
  predicate LauMessage(info: PgnInfo, ts: seq<LauText>) {
    && info.set1.None? && info.set2.None? && |info.fields| == |ts|
    && forall i :: 0 <= i < |ts| ==> LauField(info.fields[i], 8 * |LauRun(ts[..i])|)
  }

  /** Each field was given its text, or left unset for the empty text. */
  predicate LauStaged(info: PgnInfo, staged: seq<Option<Encode.Staged>>, ts: seq<LauText>)
    requires |info.fields| == |ts|
  {
    && |staged| == |ts|
    && forall i :: 0 <= i < |ts| ==>
         || (staged[i].Some? && Encode.StageValue(info.fields[i], Encode.Text(ts[i])) == Encode.Ok(staged[i].value))
         || (staged[i] == None && ts[i] == [])
  }

  lemma LauFieldBits(f: FieldInfo, at: nat, staged: Option<Encode.Staged>, t: LauText)
    requires LauField(f, at)
    requires || (staged.Some? && Encode.StageValue(f, Encode.Text(t)) == Encode.Ok(staged.value))
             || (staged == None && t == [])
    ensures Encode.FieldBits(f, staged) == Encode.Ok(BytesBits(LauBytes(t)))
  {
    if staged == None {
      assert LauBytes(t) == [2, 1];
    } else {
      assert Encode.StageStringLau(f, Encode.Text(t)) == Encode.Ok(Encode.Bytes(LauBytes(t)));
    }
  }

  lemma {:induction false} LauMessageBits(info: PgnInfo, staged: seq<Option<Encode.Staged>>, ts: seq<LauText>, n: nat)
    requires LauMessage(info, ts) && LauStaged(info, staged, ts) && n <= |ts|
    ensures Encode.MessageBits(info.fields, staged, n) == Encode.Ok(BytesBits(LauRun(ts[..n])))
  {
    if n > 0 {
      LauMessageBits(info, staged, ts, n - 1);
      LauFieldBits(info.fields[n - 1], 8 * |LauRun(ts[..n - 1])|, staged[n - 1], ts[n - 1]);
      assert ts[..n][..n - 1] == ts[..n - 1];
      BytesConcat(LauRun(ts[..n - 1]), LauBytes(ts[n - 1]));
    }
  }

  /** What is built is the run of the texts. */
  lemma LauBuilt(info: PgnInfo, staged: seq<Option<Encode.Staged>>, ts: seq<LauText>, data: seq<byte>)
    requires LauMessage(info, ts) && LauStaged(info, staged, ts)
    ensures Encode.MessageBits(info.fields, staged, |ts|).Ok?
    ensures BytesBits(data) == Encode.Padded(Encode.MessageBits(info.fields, staged, |ts|).value) ==> data == LauRun(ts)
  {
    LauMessageBits(info, staged, ts, |ts|);
    assert ts[..|ts|] == ts;
    if BytesBits(data) == Encode.Padded(Encode.MessageBits(info.fields, staged, |ts|).value) {
      WholeBytesUnpadded(LauRun(ts));
      BytesInjective(data, LauRun(ts));
    }
  }

  lemma WholeBytesUnpadded(b: seq<byte>)
    ensures Encode.Padded(BytesBits(b)) == BytesBits(b)
  {
    assert Encode.Gap(8 * |b|) == 0;
    assert LowBits(0xff, 0) == [];
  }

  lemma LauParts(data: seq<byte>, before: seq<byte>, t: LauText, after: seq<byte>, start: nat)
    requires data == before + LauBytes(t) + after && start == |before|
    ensures start + 2 + |t| <= |data| && data[start] == |t| + 2 && data[start + 1] == 1
    ensures data[start + 2..start + 2 + |t|] == t
  {
  }

  lemma LauReads(data: seq<byte>, first: nat, start: nat, t: LauText)
    requires first / 8 == start && first % 8 == 0
    requires start + 2 + |t| <= |data| && data[start] == |t| + 2 && data[start + 1] == 1
    requires data[start + 2..start + 2 + |t|] == t
    ensures Decode.DecodeLau(data, first) == (Decode.LauValue(1, t), 8 * (|t| + 2))
  {
  }

  lemma DecodeLauInPlace(data: seq<byte>, before: seq<byte>, t: LauText, after: seq<byte>)
    requires data == before + LauBytes(t) + after
    ensures Decode.DecodeLau(data, 8 * |before|) == (Decode.LauValue(1, t), 8 * |LauBytes(t)|)
  {
    LauParts(data, before, t, after, |before|);
    LauReads(data, 8 * |before|, |before|, t);
  }

  lemma {:induction false} LauRunSplit(ts: seq<LauText>, i: nat) returns (after: seq<byte>)
    requires i < |ts|
    ensures LauRun(ts) == LauRun(ts[..i]) + LauBytes(ts[i]) + after
  {
    if i + 1 == |ts| {
      after := [];
      assert LauRun(ts) == LauRun(ts[..i]) + LauBytes(ts[i]) + [];
    } else {
      var rest := LauRunSplit(ts[..|ts| - 1], i);
      assert ts[..|ts| - 1][..i] == ts[..i];
      after := rest + LauBytes(ts[|ts| - 1]);
      assert LauRun(ts) == (LauRun(ts[..i]) + LauBytes(ts[i]) + rest) + LauBytes(ts[|ts| - 1]);
    }
  }

  lemma LauRunGrows(ts: seq<LauText>, i: nat)
    requires i < |ts|
    ensures |LauRun(ts[..i + 1])| == |LauRun(ts[..i])| + |LauBytes(ts[i])|
  {
    assert ts[..i + 1][..i] == ts[..i];
  }

  /** What the walk is to find for text `i`. */
  function LauDecoded(info: PgnInfo, ts: seq<LauText>, i: nat): Decode.Decoded
    requires i < |ts| == |info.fields|
  {
    Decode.Decoded(info.fields[i].order, Decode.LauValue(1, ts[i]), 8 * |LauRun(ts[..i])|, 8 * |LauBytes(ts[i])|, 0, None)
  }

  lemma LauFieldStep(f: FieldInfo, data: seq<byte>, p: Decode.Progress, d: (Decode.FieldValue, nat))
    requires LauField(f, p.cursor) && Decode.DecodeLau(data, p.cursor) == d
    ensures Decode.FieldStep(f, data, p)
            == p.(out := p.out + [Decode.Decoded(f.order, d.0, p.cursor, d.1, 0, None)], cursor := p.cursor + d.1)
  {
  }

  lemma LauStep(info: PgnInfo, ts: seq<LauText>, i: nat, p: Decode.Progress)
    requires LauMessage(info, ts) && i < |ts| && p.cursor == 8 * |LauRun(ts[..i])|
    ensures Decode.FieldStep(info.fields[i], LauRun(ts), p)
            == p.(out := p.out + [LauDecoded(info, ts, i)], cursor := 8 * |LauRun(ts[..i + 1])|)
  {
    var after := LauRunSplit(ts, i);
    DecodeLauInPlace(LauRun(ts), LauRun(ts[..i]), ts[i], after);
    LauFieldStep(info.fields[i], LauRun(ts), p, (Decode.LauValue(1, ts[i]), 8 * |LauBytes(ts[i])|));
    LauRunGrows(ts, i);
  }

  /** The walk has decoded the first `i` texts and nothing else. */
  ghost predicate LauSoFar(info: PgnInfo, ts: seq<LauText>, i: nat, p: Decode.Progress)
    requires i <= |ts| == |info.fields|
  {
    && p.cursor == 8 * |LauRun(ts[..i])| && |p.out| == i
    && forall j :: 0 <= j < i ==> p.out[j] == LauDecoded(info, ts, j)
  }

  lemma LauExtend(info: PgnInfo, ts: seq<LauText>, i: nat, p: Decode.Progress, p': Decode.Progress)
    requires i < |ts| == |info.fields| && LauSoFar(info, ts, i, p)
    requires p'.out == p.out + [LauDecoded(info, ts, i)] && p'.cursor == 8 * |LauRun(ts[..i + 1])|
    ensures LauSoFar(info, ts, i + 1, p')
  {
  }

  lemma LauNext(info: PgnInfo, ts: seq<LauText>, i: nat, p: Decode.Progress)
    requires LauMessage(info, ts) && i < |ts| && LauSoFar(info, ts, i, p)
    ensures LauSoFar(info, ts, i + 1, Decode.FieldStep(info.fields[i], LauRun(ts), p))
  {
    LauStep(info, ts, i, p);
    LauExtend(info, ts, i, p, Decode.FieldStep(info.fields[i], LauRun(ts), p));
  }

  lemma {:induction false} LauWalk(info: PgnInfo, ts: seq<LauText>, i: nat, p: Decode.Progress)
    requires LauMessage(info, ts) && i <= |ts| && LauSoFar(info, ts, i, p)
    ensures LauSoFar(info, ts, |ts|, Decode.Walk(info, LauRun(ts), i, p))
    decreases |ts| - i
  {
    if i < |ts| {
      LauNext(info, ts, i, p);
      LauWalk(info, ts, i + 1, Decode.FieldStep(info.fields[i], LauRun(ts), p));
    }
  }

  /** Any sequence of texts, built and then walked with the running cursor: each field decodes
      to its text without the trailing padding characters, or to nothing if that is all there was,
      at its place; and the cursor ends at the end of the payload. UTF-8 has no byte 0xff. */
  lemma {:induction false} LauRoundTrip(info: PgnInfo, staged: seq<Option<Encode.Staged>>, ts: seq<LauText>, data: seq<byte>)
    requires LauMessage(info, ts) && LauStaged(info, staged, ts)
    requires Encode.MessageBits(info.fields, staged, |ts|).Ok?
    requires BytesBits(data) == Encode.Padded(Encode.MessageBits(info.fields, staged, |ts|).value)
    ensures var r := Decode.Walk(info, data, 0, Decode.NOTHING);
            && r.cursor == 8 * |data| && |r.out| == |ts|
            && forall j :: 0 <= j < |ts| ==>
                 && r.out[j].value == Decode.Shown(Decode.Trim(ts[j])) && r.out[j].bitOffset == 8 * |LauRun(ts[..j])|
                 && (0xff !in ts[j] ==> r.out[j].value == Decode.Shown(ts[j]))
  {
    LauBuilt(info, staged, ts, data);
    LauWalk(info, ts, 0, Decode.NOTHING);
    assert ts[..|ts|] == ts;
    forall j | 0 <= j < |ts| && 0xff !in ts[j]
      ensures Decode.Shown(Decode.Trim(ts[j])) == Decode.Shown(ts[j])
    {
      Decode.TrimsAgree(ts[j]);
    }
  }

  // ----- Numbers -----

  lemma RoundInteger(n: int)
    ensures Encode.Round(n as real) == n
  {
  }

  lemma RoundNear(x: real)
    ensures -0.5 <= Encode.Round(x) as real - x <= 0.5
  {
  }

  lemma ScaleBack(x: real, r: real)
    requires r != 0.0
    ensures (x * r) / r == x
  {
  }

  /** The integer that a pattern stands for. */
  function RawValue(f: FieldInfo, raw: nat, w: nat): int
    requires w > 0
  {
    Interpret(raw, w, Decode.EffectivelySigned(f), 0).value
  }

  lemma RawValueCases(f: FieldInfo, raw: nat, w: nat)
    requires 1 <= w <= 64 && raw < Pow2(w)
    ensures RawValue(f, raw, w) == raw || RawValue(f, raw, w) == raw - Pow2(w)
    ensures -0x8000_0000_0000_0000 <= RawValue(f, raw, w) <= 0x7fff_ffff_ffff_ffff
  {
    Pow64();
    PowMonotone(w, 64);
    PowMonotone(w - 1, 63);
    if w < 64 {
      PowMonotone(w, 63);
    }
  }

  lemma MaskOf(n: int, raw: nat, w: nat)
    requires 1 <= w <= 64 && raw < Pow2(w) && (n == raw || n == raw - Pow2(w))
    ensures Encode.MaskToWidth(n, w) == raw
  {
    DivModUnique(n, Pow2(w), if n == raw then 0 else -1, raw);
  }

  lemma RawValueMasks(f: FieldInfo, raw: nat, w: nat)
    requires 1 <= w <= 64 && raw < Pow2(w)
    ensures Encode.MaskToWidth(RawValue(f, raw, w), w) == raw
    ensures -0x8000_0000_0000_0000 <= RawValue(f, raw, w) <= 0x7fff_ffff_ffff_ffff
  {
    RawValueCases(f, raw, w);
    MaskOf(RawValue(f, raw, w), raw, w);
  }

  /** How a decoded number is handed back to the encoder. */
  function Again(v: Decode.FieldValue): Encode.EncodeValue {
    match v
    case Integer(n) => Encode.Int(n)
    case Number(x) => Encode.Number(x)
    case _ => Encode.NotAvailable
  }

  predicate NumericField(f: FieldInfo, w: nat) {
    f.fieldType == Some(FieldType.Number) && f.bitLength == Some(w) && 1 <= w <= 64 && f.resolution > 0.0
  }

  /** The physical value of the raw integer `n`. */
  function Physical(f: FieldInfo, n: int): real {
    n as real * f.resolution + f.offset as real + f.unitOffset
  }

  lemma UnscalePhysical(f: FieldInfo, n: int)
    requires f.resolution > 0.0 && -0x8000_0000_0000_0000 <= n <= 0x7fff_ffff_ffff_ffff
    ensures Encode.ScaledToRaw(f, Physical(f, n)) == Encode.Ok(n)
  {
    ScaleBack(n as real, f.resolution);
    RoundInteger(n);
    assert Physical(f, n) - f.unitOffset - f.offset as real == n as real * f.resolution;
  }

  /** Encoding the decoded value of any pattern that is not a sentinel gives that pattern. */
  lemma {:induction false} EncodeAfterDecode(f: FieldInfo, raw: nat, w: nat)
    requires NumericField(f, w) && raw < Pow2(w) && Decode.Sentinel(f, raw).None?
    ensures Encode.ValueToRaw(f, Again(Decode.NumberValue(f, Interpret(raw, w, Decode.EffectivelySigned(f), 0)))) == Encode.Ok(raw)
  {
    var x := Interpret(raw, w, Decode.EffectivelySigned(f), 0);
    RawValueMasks(f, raw, w);
    UnscalePhysical(f, x.value);
    NumberValueIs(f, x);
    if Decode.Plain(f) {
      assert Encode.ValueToRaw(f, Encode.Int(x.value)) == Encode.Ok(raw);
    } else {
      assert Encode.ValueToRaw(f, Encode.Number(Physical(f, x.value))) == Encode.Ok(raw);
    }
  }

  lemma NumberValueIs(f: FieldInfo, x: Extracted)
    requires Decode.Sentinel(f, x.raw).None?
    ensures Decode.NumberValue(f, x)
            == if Decode.Plain(f) then Decode.Integer(x.value) else Decode.FieldValue.Number(Physical(f, x.value))
  {
  }

  /** The integers that a field can hold. */
  predicate InRange(f: FieldInfo, n: int, w: nat)
    requires w > 0
  {
    if Decode.EffectivelySigned(f) then 0 - Pow2(w - 1) <= n < Pow2(w - 1)
    else 0 <= n < Pow2(w) && n < 0x8000_0000_0000_0000
  }

  lemma InRangeReadsBack(f: FieldInfo, n: int, w: nat)
    requires 1 <= w <= 64 && InRange(f, n, w)
    ensures Encode.Saturate(n) == n
    ensures Encode.MaskToWidth(n, w) < Pow2(w) && RawValue(f, Encode.MaskToWidth(n, w), w) == n
  {
    Pow64();
    PowMonotone(w - 1, 63);
    if Decode.EffectivelySigned(f) {
      SignedInverse(n, w);
    } else {
      MaskOf(n, n, w);
    }
  }

  /** The integer nearest to a physical value in the field's unit. */
  function Nearest(f: FieldInfo, x: real): int
    requires f.resolution > 0.0
  {
    Encode.Round((x - f.unitOffset - f.offset as real) / f.resolution)
  }

  lemma Nonnegative(x: real, y: real)
    requires x >= 0.0 && y >= 0.0
    ensures x * y >= 0.0
  {
  }

  lemma HalfStep(y: real, r: real, n: int)
    requires r > 0.0 && -0.5 <= n as real - y / r <= 0.5
    ensures -r / 2.0 <= n as real * r - y <= r / 2.0
  {
    var q := y / r;
    assert y == q * r;
    var d := n as real - q;
    assert n as real * r - y == d * r;
    Nonnegative(d + 0.5, r);
    Nonnegative(0.5 - d, r);
  }

  /** `v` is a number within half a resolution step of `x`. */
  predicate Near(f: FieldInfo, v: Decode.FieldValue, x: real) {
    match v
    case Integer(n) => -f.resolution / 2.0 <= n as real - x <= f.resolution / 2.0
    case Number(y) => -f.resolution / 2.0 <= y - x <= f.resolution / 2.0
    case _ => false
  }

  lemma NearestIsNear(f: FieldInfo, x: real)
    requires f.resolution > 0.0
    ensures -f.resolution / 2.0 <= Physical(f, Nearest(f, x)) - x <= f.resolution / 2.0
  {
    var y := x - f.unitOffset - f.offset as real;
    RoundNear(y / f.resolution);
    HalfStep(y, f.resolution, Nearest(f, x));
  }

  /** A physical value whose nearest raw integer fits the field, and is no sentinel, decodes to
      within half a resolution step of itself. A display offset makes the field unsigned. */
  lemma {:induction false} DecodeAfterEncode(f: FieldInfo, x: real, w: nat)
    requires NumericField(f, w) && InRange(f, Nearest(f, x), w)
    ensures var r := Encode.ValueToRaw(f, Encode.Number(x));
            && r.Ok? && r.value < Pow2(w)
            && (Decode.Sentinel(f, r.value).None? ==>
                  Near(f, Decode.NumberValue(f, Interpret(r.value, w, Decode.EffectivelySigned(f), 0)), x))
  {
    var n := Nearest(f, x);
    InRangeReadsBack(f, n, w);
    NearestIsNear(f, x);
    var raw := Encode.MaskToWidth(n, w);
    var got := Interpret(raw, w, Decode.EffectivelySigned(f), 0);
    assert got.value == n && got.raw == raw;
    assert Encode.ValueToRaw(f, Encode.Number(x)) == Encode.Ok(raw);
    if Decode.Sentinel(f, raw).None? {
      NumberValueIs(f, got);
      NearNumber(f, n, x);
    }
  }

  lemma NearNumber(f: FieldInfo, n: int, x: real)
    requires -f.resolution / 2.0 <= Physical(f, n) - x <= f.resolution / 2.0
    ensures Near(f, if Decode.Plain(f) then Decode.Integer(n) else Decode.FieldValue.Number(Physical(f, n)), x)
  {
  }
}
