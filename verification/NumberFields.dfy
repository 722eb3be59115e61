/** Messages of numbers, as the encoder packs them and the decoder walks the finished payload. */
module NumberFields {
  import opened Wire
  import opened BitStrings
  import opened Bits
  import opened Schema
  import Encode
  import Decode
  import Codec

  /** A field that is always there, of fixed width and no text, at an unstated offset or at the
      sum of the widths before it. */
  predicate Fixed(f: FieldInfo, at: nat) {
    && !f.conditional && f.bitLength.Some? && (f.bitOffset.Some? ==> f.bitOffset.value == at)
    && (f.fieldType.Some? ==> f.fieldType.value !in {StringFix, StringLz, StringLau, Variable, DynamicFieldValue})
  }

  /** A message of such fields only, each packed as a number. */
  predicate FixedMessage(info: PgnInfo, staged: seq<Option<Encode.Staged>>) {
    && info.set1.None? && info.set2.None? && Encode.AllScalar(info.fields, staged)
    && forall i :: 0 <= i < |info.fields| ==> Fixed(info.fields[i], WidthSum(info.fields, i))
  }

  predicate ShownAsNumber(f: FieldInfo) {
    f.fieldType == Some(FieldType.Number) || f.fieldType == Some(Decimal) || f.fieldType == Some(FieldIndex)
  }

  /** What a field of `w` bits that was packed from `raw` decodes to. */
  function ValueOf(f: FieldInfo, raw: nat, w: nat): Decode.FieldValue
    requires w > 0
  {
    if ShownAsNumber(f) then Decode.NumberValue(f, Interpret(raw % Pow2(w), w, Decode.EffectivelySigned(f), 0))
    else Decode.Other
  }

  /** What the walk is to find for field `i`. */
  function Expected(info: PgnInfo, staged: seq<Option<Encode.Staged>>, i: nat): Decode.Decoded
    requires FixedMessage(info, staged) && i < |info.fields|
  {
    var f := info.fields[i];
    Decode.Decoded(f.order, ValueOf(f, Encode.Packed(f, staged[i]), f.bitLength.value), WidthSum(info.fields, i),
                   f.bitLength.value, 0, None)
  }

  lemma FixedDecodes(f: FieldInfo, data: seq<byte>, at: nat, raw: nat, w: nat)
    requires Fixed(f, at) && f.bitLength == Some(w) && 1 <= w <= 64
    requires Extract(data, at, w, Decode.EffectivelySigned(f), 0)
             == Some(Interpret(raw % Pow2(w), w, Decode.EffectivelySigned(f), 0))
    ensures Decode.DecodeOne(f, data, at) == Some((ValueOf(f, raw, w), w))
  {
  }

  /** The payload is what the message is built to. */
  predicate Builds(info: PgnInfo, staged: seq<Option<Encode.Staged>>, data: seq<byte>) {
    && |info.fields| == |staged| && Encode.MessageBits(info.fields, staged, |info.fields|).Ok?
    && BytesBits(data) == Encode.Padded(Encode.MessageBits(info.fields, staged, |info.fields|).value)
  }

  lemma FieldDecodes(info: PgnInfo, staged: seq<Option<Encode.Staged>>, data: seq<byte>, i: nat, p: Decode.Progress)
    requires FixedMessage(info, staged) && Builds(info, staged, data) && i < |info.fields|
    requires p.cursor == WidthSum(info.fields, i)
    ensures Decode.FieldStep(info.fields[i], data, p)
            == p.(out := p.out + [Expected(info, staged, i)], cursor := WidthSum(info.fields, i + 1))
  {
    var f := info.fields[i];
    assert Encode.IsScalar(f, staged[i]) && Fixed(f, WidthSum(info.fields, i));
    Encode.ScalarMessage(info.fields, staged, data, i, Decode.EffectivelySigned(f), 0);
    FixedDecodes(f, data, WidthSum(info.fields, i), Encode.Packed(f, staged[i]), f.bitLength.value);
  }

  /** What the walk is to find. */
  function Wanted(info: PgnInfo, staged: seq<Option<Encode.Staged>>): (ds: seq<Decode.Decoded>)
    requires FixedMessage(info, staged)
    ensures |ds| == |info.fields| && forall j :: 0 <= j < |ds| ==> ds[j] == Expected(info, staged, j)
  {
    seq(|info.fields|, j requires 0 <= j < |info.fields| => Expected(info, staged, j))
  }

  lemma OneMore<T>(all: seq<T>, i: nat)
    requires i < |all|
    ensures all[..i] + [all[i]] == all[..i + 1]
  {
  }

  /** Field `i` is decoded as `want[i]`, from cursor `cs[i]` to cursor `cs[i + 1]`. */
  ghost predicate Steps(info: PgnInfo, data: seq<byte>, want: seq<Decode.Decoded>, cs: seq<nat>, i: nat)
    requires i < |info.fields| == |want| && |cs| == |want| + 1
  {
    forall p: Decode.Progress :: p.cursor == cs[i] ==>
      Decode.FieldStep(info.fields[i], data, p) == p.(out := p.out + [want[i]], cursor := cs[i + 1])
  }

  /** Without sets, the walk steps from field to field. */
  lemma WalkStep(info: PgnInfo, data: seq<byte>, want: seq<Decode.Decoded>, cs: seq<nat>, i: nat, p: Decode.Progress) returns (p': Decode.Progress)
    requires info.set1.None? && info.set2.None? && i < |info.fields| == |want| && |cs| == |want| + 1
    requires Steps(info, data, want, cs, i) && p.cursor == cs[i] && p.out == want[..i]
    ensures p'.cursor == cs[i + 1] && p'.out == want[..i + 1]
    ensures Decode.Walk(info, data, i, p) == Decode.Walk(info, data, i + 1, p')
  {
    p' := Decode.FieldStep(info.fields[i], data, p);
    OneMore(want, i);
  }

  lemma {:induction false} WalkFrom(info: PgnInfo, data: seq<byte>, want: seq<Decode.Decoded>, cs: seq<nat>, i: nat, p: Decode.Progress)
    requires info.set1.None? && info.set2.None? && i <= |info.fields| == |want| && |cs| == |want| + 1
    requires (forall k :: 0 <= k < |want| ==> Steps(info, data, want, cs, k)) && p.cursor == cs[i] && p.out == want[..i]
    ensures var r := Decode.Walk(info, data, i, p); r.out == want && r.cursor == cs[|want|]
    decreases |info.fields| - i
  {
    if i < |info.fields| {
      var p' := WalkStep(info, data, want, cs, i, p);
      WalkFrom(info, data, want, cs, i + 1, p');
    }
  }

  /** The cursors before and after the fields. */
  function Cursors(info: PgnInfo): (cs: seq<nat>)
    ensures |cs| == |info.fields| + 1 && forall i :: 0 <= i < |cs| ==> cs[i] == WidthSum(info.fields, i)
  {
    seq(|info.fields| + 1, i requires 0 <= i <= |info.fields| => WidthSum(info.fields, i))
  }

  lemma FixedSteps(info: PgnInfo, staged: seq<Option<Encode.Staged>>, data: seq<byte>, i: nat)
    requires FixedMessage(info, staged) && Builds(info, staged, data) && i < |info.fields|
    ensures Steps(info, data, Wanted(info, staged), Cursors(info), i)
  {
    forall p: Decode.Progress | p.cursor == Cursors(info)[i]
      ensures Decode.FieldStep(info.fields[i], data, p)
              == p.(out := p.out + [Wanted(info, staged)[i]], cursor := Cursors(info)[i + 1])
    {
      FieldDecodes(info, staged, data, i, p);
    }
  }

  /** A message of fields of fixed width, staged or not, is built and then walked: every field
      decodes at the sum of the widths before it, a number to the value of its packed pattern,
      and the cursor ends at the total width. */
  lemma {:induction false} MessageRoundTrip(info: PgnInfo, staged: seq<Option<Encode.Staged>>, data: seq<byte>)
    requires FixedMessage(info, staged) && Builds(info, staged, data)
    ensures var r := Decode.Walk(info, data, 0, Decode.NOTHING);
            && r.cursor == WidthSum(info.fields, |info.fields|) && |r.out| == |info.fields|
            && forall j :: 0 <= j < |info.fields| ==> r.out[j] == Expected(info, staged, j)
  {
    forall i | 0 <= i < |info.fields|
      ensures Steps(info, data, Wanted(info, staged), Cursors(info), i)
    {
      FixedSteps(info, staged, data, i);
    }
    WalkFrom(info, data, Wanted(info, staged), Cursors(info), 0, Decode.NOTHING);
  }

  // ----- And back -----

  /** All fields are plain numbers, staged, and none of their patterns is a sentinel. */
  predicate NumberMessage(info: PgnInfo, staged: seq<Option<Encode.Staged>>) {
    && FixedMessage(info, staged)
    && forall i :: 0 <= i < |info.fields| ==>
         var f := info.fields[i];
         && Codec.NumericField(f, f.bitLength.value)
         && Decode.Sentinel(f, Encode.Packed(f, staged[i]) % Pow2(f.bitLength.value)).None?
  }

  /** `again` is what staging the decoded values gives. */
  predicate Restaged(info: PgnInfo, out: seq<Decode.Decoded>, again: seq<Option<Encode.Staged>>) {
    && |out| == |again| == |info.fields|
    && forall i :: 0 <= i < |again| ==>
         again[i].Some? && Encode.StageValue(info.fields[i], Codec.Again(out[i].value)) == Encode.Ok(again[i].value)
  }

  lemma LowOfMod(v: nat, w: nat)
    ensures v % Pow2(w) < Pow2(w) && LowBits(v % Pow2(w), w) == LowBits(v, w)
  {
    FromLow(v, w);
    LowFrom(LowBits(v, w));
    FromBound(LowBits(v, w));
  }

  lemma RestagedField(f: FieldInfo, staged: Option<Encode.Staged>, again: Encode.Staged, w: nat)
    requires Encode.IsScalar(f, staged) && Codec.NumericField(f, w)
    requires Decode.Sentinel(f, Encode.Packed(f, staged) % Pow2(w)).None?
    requires Encode.StageValue(f, Codec.Again(ValueOf(f, Encode.Packed(f, staged), w))) == Encode.Ok(again)
    ensures Encode.FieldBits(f, Some(again)) == Encode.FieldBits(f, staged)
  {
    var raw := Encode.Packed(f, staged);
    LowOfMod(raw, w);
    Codec.EncodeAfterDecode(f, raw % Pow2(w), w);
    Encode.ScalarBits(f, staged);
  }

  /** Field `i` contributes the same bits. */
  predicate SameBits(fields: seq<FieldInfo>, staged: seq<Option<Encode.Staged>>, again: seq<Option<Encode.Staged>>, i: nat)
    requires i < |fields| == |staged| == |again|
  {
    Encode.FieldBits(fields[i], again[i]) == Encode.FieldBits(fields[i], staged[i])
  }

  lemma {:induction false} SameMessage(fields: seq<FieldInfo>, staged: seq<Option<Encode.Staged>>, again: seq<Option<Encode.Staged>>, n: nat)
    requires n <= |fields| == |staged| == |again| && forall i :: 0 <= i < |fields| ==> SameBits(fields, staged, again, i)
    ensures Encode.MessageBits(fields, again, n) == Encode.MessageBits(fields, staged, n)
  {
    if n > 0 {
      SameMessage(fields, staged, again, n - 1);
      assert SameBits(fields, staged, again, n - 1);
    }
  }

  lemma RestagedSame(info: PgnInfo, staged: seq<Option<Encode.Staged>>, out: seq<Decode.Decoded>, again: seq<Option<Encode.Staged>>, i: nat)
    requires NumberMessage(info, staged) && Restaged(info, out, again) && i < |info.fields|
    requires out[i] == Expected(info, staged, i)
    ensures SameBits(info.fields, staged, again, i)
  {
    var f := info.fields[i];
    assert Encode.IsScalar(f, staged[i]);
    RestagedField(f, staged[i], again[i].value, f.bitLength.value);
  }

  /** Staging what a message of numbers decodes to, and building again, gives the same payload. */
  lemma {:induction false} MessageRestored(info: PgnInfo, staged: seq<Option<Encode.Staged>>, data: seq<byte>, again: seq<Option<Encode.Staged>>, data': seq<byte>)
    requires NumberMessage(info, staged) && Builds(info, staged, data)
    requires Restaged(info, Decode.Walk(info, data, 0, Decode.NOTHING).out, again) && Builds(info, again, data')
    ensures data' == data
  {
    MessageRoundTrip(info, staged, data);
    var out := Decode.Walk(info, data, 0, Decode.NOTHING).out;
    forall i | 0 <= i < |info.fields|
      ensures SameBits(info.fields, staged, again, i)
    {
      RestagedSame(info, staged, out, again, i);
    }
    SameMessage(info.fields, staged, again, |info.fields|);
    BytesInjective(data', data);
  }
}
