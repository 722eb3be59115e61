/** What a built message holds for each field that was not set, and what each kind of value is
    staged as. */
module BuiltFields {
  import opened Wire
  import opened BitStrings
  import opened Bits
  import opened Schema
  import opened Encode
  import Decode
  import Dispatch
  import NumberFields
  import TextFields

  // ----- Numbers that were not set -----

  /** The field is packed as a number when it is not set: it has a width, of at most 64 bits, and is
      no text, no binary and none of the dynamic types. */
  predicate PlainNumber(f: FieldInfo, w: nat) {
    && f.bitLength == Some(w) && 1 <= w <= 64
    && (f.fieldType.Some? ==>
          f.fieldType.value !in {StringFix, StringLz, StringLau, Binary, Variable, DynamicFieldKey, DynamicFieldLength, DynamicFieldValue})
  }

  /** What such a field says: the value that selects its variant, if it is a match field; else
      nothing, if it is spare; else its unknown value, if it has one; else all ones. */
  function UnsetValue(f: FieldInfo, w: nat): int {
    match f.matchValue
    case Some(m) => m
    case None =>
      if f.fieldType == Some(Spare) then 0
      else match f.unknownValue
           case Some(u) => u
           case None => Pow2(w) - 1
  }

  lemma MaskedBits(v: int, w: nat)
    requires 1 <= w <= 64
    ensures 0 <= v % Pow2(w) < Pow2(w) && MaskToWidth(v, w) == v % Pow2(w)
  {
    ModTwice(v, Pow2(w));
  }

  lemma OnesBits(w: nat)
    requires 1 <= w <= 64
    ensures AllOnes(w) == Pow2(w) - 1 && (Pow2(w) - 1) % Pow2(w) == Pow2(w) - 1 && 0 % Pow2(w) == 0
  {
    OnesMod(Pow2(w));
  }

  /** The value that the encoder packs, and what the field says. */
  lemma DefaultSays(f: FieldInfo, w: nat, p: nat)
    requires f.bitLength == Some(w) && 1 <= w <= 64 && p == Pow2(w)
    ensures 0 <= UnsetValue(f, w) % p < p && LowBits(DefaultRaw(f), w) == LowBits(UnsetValue(f, w) % p, w)
  {
    MaskedBits(UnsetValue(f, w), w);
    OnesBits(w);
    if f.matchValue.None? && f.fieldType != Some(Spare) && f.unknownValue.Some? {
      NumberFields.LowOfMod(f.unknownValue.value, w);
    }
  }

  lemma UnsetPattern(f: FieldInfo, w: nat)
    requires PlainNumber(f, w)
    ensures FieldBits(f, None).Ok? && FieldBits(f, None).value == LowBits(UnsetValue(f, w) % Pow2(w), w)
    ensures 0 <= UnsetValue(f, w) % Pow2(w) < Pow2(w)
  {
    ScalarBits(f, None);
    DefaultSays(f, w, Pow2(w));
  }

  lemma OnesMod(p: nat)
    requires p > 0
    ensures 0 % p == 0 && (p - 1) % p == p - 1
  {
    DivModUnique(0, p, 0, 0);
    DivModUnique(p - 1, p, 0, p - 1);
  }

  /** In the payload of a message that packs, every number that was not set reads back, where the
      field starts, as that value modulo two to its width. */
  lemma {:induction false} UnsetReadsBack(info: PgnInfo, staged: seq<Option<Staged>>, data: seq<byte>, i: nat, w: nat, signed: bool, offset: int)
    requires NumberFields.Builds(info, staged, data) && i < |staged| && staged[i] == None && PlainNumber(info.fields[i], w)
    ensures MessageBits(info.fields, staged, i).Ok?
    ensures Extract(data, FieldStart(info.fields, staged, i), w, signed, offset)
            == Some(Interpret(UnsetValue(info.fields[i], w) % Pow2(w), w, signed, offset))
  {
    var f := info.fields[i];
    var raw := UnsetValue(f, w) % Pow2(w);
    UnsetPattern(f, w);
    FieldPattern(info.fields, staged, data, i, raw, w, signed, offset);
    FromLowExact(raw, w);
  }

  /** What is left of the last byte is ones. */
  lemma {:induction false} PaddingIsOnes(b: BitStrings.Bits, k: nat)
    requires |b| <= k < |Padded(b)|
    ensures Padded(b)[k]
  {
    Pow2Eight();
    LowPrefix(0xff, BYTE, Gap(|b|));
    OnesAreTrue(BYTE, k - |b|, 0xff);
    assert LowBits(0xff, BYTE)[..Gap(|b|)][k - |b|] == LowBits(0xff, BYTE)[k - |b|];
  }

  // ----- The variant that was built is the one that is picked -----

  /** A match field where the schema puts it, of a value that it can hold. */
  predicate Selector(f: FieldInfo, start: nat, w: nat) {
    && PlainNumber(f, w) && f.matchValue.Some? && f.bitOffset == Some(start) && f.offset == 0
    && var m := f.matchValue.value;
       if f.signed then 0 - Pow2(w - 1) <= m < Pow2(w - 1) else 0 <= m < Pow2(w) && m < 0x8000_0000_0000_0000
  }

  lemma SelectorReads(f: FieldInfo, start: nat, w: nat)
    requires Selector(f, start, w)
    ensures Interpret(f.matchValue.value % Pow2(w), w, f.signed, 0).value == f.matchValue.value
  {
    var m := f.matchValue.value;
    if f.signed {
      SignedInverse(m, w);
    } else {
      DivModUnique(m, Pow2(w), 0, m);
    }
  }

  lemma {:induction false} SelectorMet(info: PgnInfo, staged: seq<Option<Staged>>, data: seq<byte>, i: nat, w: nat)
    requires NumberFields.Builds(info, staged, data) && i < |staged| && staged[i] == None
    requires MessageBits(info.fields, staged, i).Ok? && Selector(info.fields[i], FieldStart(info.fields, staged, i), w)
    ensures Dispatch.Meets(info.fields[i], data)
  {
    var f := info.fields[i];
    UnsetReadsBack(info, staged, data, i, w, f.signed, 0);
    SelectorReads(f, FieldStart(info.fields, staged, i), w);
  }

  /** Every match field was left unset, lies where the schema puts it, and can hold its value. */
  predicate SelectorsUnset(info: PgnInfo, staged: seq<Option<Staged>>)
    requires |info.fields| == |staged|
  {
    forall i :: 0 <= i < |staged| && info.fields[i].matchValue.Some? ==>
      && staged[i] == None && info.fields[i].bitLength.Some? && MessageBits(info.fields, staged, i).Ok?
      && Selector(info.fields[i], FieldStart(info.fields, staged, i), info.fields[i].bitLength.value)
  }

  /** A message built with its selectors unset has all the values that tell its variant apart, so
      that receivers pick that variant, or one declared before it that fits as well. */
  lemma {:induction false} BuiltVariantMatches(info: PgnInfo, staged: seq<Option<Staged>>, data: seq<byte>, v: Dispatch.Variant, vs: seq<Dispatch.Variant>, k: nat)
    requires NumberFields.Builds(info, staged, data) && SelectorsUnset(info, staged)
    requires v.fields == info.fields && Dispatch.Specific(v) && k < |vs| && vs[k] == v
    ensures Dispatch.Matching(data)(v)
    ensures exists j :: 0 <= j <= k && Dispatch.Matching(data)(vs[j]) && Dispatch.Choose(vs, data) == Some(vs[j].idx)
  {
    forall i | 0 <= i < |v.fields| && v.fields[i].matchValue.Some?
      ensures Dispatch.Meets(v.fields[i], data)
    {
      SelectorMet(info, staged, data, i, info.fields[i].bitLength.value);
    }
    assert Dispatch.AllMet(v, data);
    Dispatch.FirstExactly(vs, |vs|, Dispatch.Matching(data));
    var x := Dispatch.First(vs, |vs|, Dispatch.Matching(data)).value;
    var j :| 0 <= j < |vs| && Dispatch.Matching(data)(vs[j]) && vs[j].idx == x
             && forall h :: 0 <= h < j ==> !Dispatch.Matching(data)(vs[h]);
  }

  // ----- And decodes to nothing -----

  lemma UnknownDecodes(f: FieldInfo, w: nat, u: nat)
    requires PlainNumber(f, w) && f.matchValue.None? && f.fieldType == Some(FieldType.Number)
    requires f.unknownValue == Some(u) && u < Pow2(w)
    ensures NumberFields.ValueOf(f, u, w) == Decode.NotAvailable
  {
    DivModUnique(u, Pow2(w), 0, u);
  }

  lemma UnsetPacked(f: FieldInfo, w: nat, u: nat)
    requires PlainNumber(f, w) && f.matchValue.None? && f.fieldType == Some(FieldType.Number)
    requires f.unknownValue == Some(u) && u < Pow2(w)
    ensures IsScalar(f, None) && Packed(f, None) == u
  {
  }

  /** A number that was not set, and has an unknown value, is not available to the receiver. */
  lemma {:induction false} UnsetIsNotAvailable(info: PgnInfo, staged: seq<Option<Staged>>, data: seq<byte>, i: nat, w: nat, u: nat)
    requires NumberFields.FixedMessage(info, staged) && NumberFields.Builds(info, staged, data) && i < |staged| && staged[i] == None
    requires PlainNumber(info.fields[i], w) && info.fields[i].fieldType == Some(FieldType.Number)
    requires info.fields[i].matchValue.None? && info.fields[i].unknownValue == Some(u) && u < Pow2(w)
    ensures var out := Decode.Walk(info, data, 0, Decode.NOTHING).out;
            i < |out| && out[i].value == Decode.NotAvailable && out[i].order == info.fields[i].order
  {
    NumberFields.MessageRoundTrip(info, staged, data);
    UnsetPacked(info.fields[i], w, u);
    UnknownDecodes(info.fields[i], w, u);
  }

  // ----- Texts and binaries that were not set -----

  /** The bytes of an unset text or binary: ones for one of fixed width, the shortest form for one
      that says its own length. */
  function UnsetRun(f: FieldInfo): Option<seq<byte>> {
    match f.fieldType
    case Some(StringFix) => if f.bitLength.Some? then Some(Filler(f.bitLength.value / 8)) else None
    case Some(Binary) => Some(if f.bitLength.Some? then Filler(f.bitLength.value / 8) else [])
    case Some(StringLz) => Some([0])
    case Some(StringLau) => Some([2, 1])
    case _ => None
  }

  lemma UnsetRunPacked(f: FieldInfo)
    ensures UnsetRun(f).Some? ==> FieldBits(f, None) == Ok(BytesBits(UnsetRun(f).value))
  {
    if f.bitLength.Some? {
      assert Repeat(0xff, f.bitLength.value / 8) == Filler(f.bitLength.value / 8);
    }
    assert BytesBits([]) == [];
  }

  /** An unset field can be built if and only if it is a text or a binary of known form, or a number
      of known width. */
  lemma UnsetErrorExactly(f: FieldInfo)
    ensures FieldBits(f, None).Err? <==>
              || (f.fieldType.Some? && f.fieldType.value in {Variable, DynamicFieldKey, DynamicFieldLength, DynamicFieldValue})
              || (f.bitLength.None? && !(f.fieldType.Some? && f.fieldType.value in {Binary, StringLz, StringLau}))
    ensures FieldBits(f, None).Err? ==> FieldBits(f, None).error == NotFixedLength(f.name)
  {
  }

  lemma RunByteLies(fields: seq<FieldInfo>, staged: seq<Option<Staged>>, data: seq<byte>, i: nat, n: nat, at: nat, run: seq<byte>, k: nat)
    requires i < n == |fields| == |staged| && MessageBits(fields, staged, n).Ok?
    requires BytesBits(data) == Padded(MessageBits(fields, staged, n).value)
    requires FieldBits(fields[i], staged[i]) == Ok(BytesBits(run)) && k < |run|
    requires MessageBits(fields, staged, i).Ok? && FieldStart(fields, staged, i) == 8 * at
    ensures at + k < |data| && data[at + k] == run[k]
  {
    StagedInPlace(fields, staged, data, i, n, run, k, 8 * at + 8 * k, at + k, BYTE);
  }

  /** The bytes lie in the payload where the field starts. */
  lemma {:induction false} UnsetBytesLie(info: PgnInfo, staged: seq<Option<Staged>>, data: seq<byte>, i: nat, at: nat, run: seq<byte>)
    requires NumberFields.Builds(info, staged, data) && i < |staged| && staged[i] == None && UnsetRun(info.fields[i]) == Some(run)
    requires MessageBits(info.fields, staged, i).Ok? && FieldStart(info.fields, staged, i) == 8 * at
    ensures TextFields.Lies(data, at, run)
  {
    UnsetRunPacked(info.fields[i]);
    RunLiesUpTo(info.fields, staged, data, i, |staged|, at, run, |run|);
    AllLie(data, at, run);
  }

  lemma AllLie(data: seq<byte>, at: nat, run: seq<byte>)
    requires LiesUpTo(data, at, run, |run|)
    ensures TextFields.Lies(data, at, run)
  {
    forall k: nat | k < |run|
      ensures at + k < |data| && data[at + k] == run[k]
    {
      LiesAt(data, at, run, |run|, k);
    }
  }

  /** The first `m` bytes of `run` lie there. */
  predicate LiesUpTo(data: seq<byte>, at: nat, run: seq<byte>, m: nat) {
    m <= |run| && (m == 0 || (LiesUpTo(data, at, run, m - 1) && at + (m - 1) < |data| && data[at + (m - 1)] == run[m - 1]))
  }

  lemma {:induction false} LiesAt(data: seq<byte>, at: nat, run: seq<byte>, m: nat, k: nat)
    requires LiesUpTo(data, at, run, m) && k < m
    ensures at + k < |data| && data[at + k] == run[k]
  {
    if k < m - 1 {
      LiesAt(data, at, run, m - 1, k);
    }
  }

  lemma {:induction false} RunLiesUpTo(fields: seq<FieldInfo>, staged: seq<Option<Staged>>, data: seq<byte>, i: nat, n: nat, at: nat, run: seq<byte>, m: nat)
    requires i < n == |fields| == |staged| && MessageBits(fields, staged, n).Ok?
    requires BytesBits(data) == Padded(MessageBits(fields, staged, n).value)
    requires FieldBits(fields[i], staged[i]) == Ok(BytesBits(run)) && m <= |run|
    requires MessageBits(fields, staged, i).Ok? && FieldStart(fields, staged, i) == 8 * at
    ensures LiesUpTo(data, at, run, m)
  {
    if m > 0 {
      RunLiesUpTo(fields, staged, data, i, n, at, run, m - 1);
      RunByteLies(fields, staged, data, i, n, at, run, m - 1);
    }
  }

  lemma {:induction false} FillerTrimmed(n: nat)
    ensures Decode.UntilNul(Filler(n)) == Filler(n) && Decode.Trim(Filler(n)) == []
  {
    if n > 0 {
      FillerTrimmed(n - 1);
      assert Filler(n)[1..] == Filler(n - 1) && Filler(n)[..n - 1] == Filler(n - 1);
    }
  }

  lemma UnsetFixShown(data: seq<byte>, at: nat, w: nat)
    requires w % 8 == 0 && TextFields.Lies(data, at, Filler(w / 8))
    ensures Decode.DecodeFix(data, 8 * at, w) == Decode.NotAvailable
  {
    FillerTrimmed(w / 8);
    if w == 0 {
      TextFields.NoText(data, at);
    } else {
      TextFields.LiesSlice(data, at, Filler(w / 8));
      TextFields.FixReads(data, at, 8 * at, w, Filler(w / 8));
    }
  }

  lemma UnsetLauShown(data: seq<byte>, at: nat)
    requires TextFields.Lies(data, at, [2, 1])
    ensures Decode.DecodeLau(data, 8 * at) == (Decode.NotAvailable, 16)
  {
    var run: seq<byte> := [2, 1];
    assert run[0] == 2 && run[1] == 1;
    assert data[at + 2..at + 2] == [];
  }

  lemma UnsetLzShown(data: seq<byte>, at: nat, bits: nat)
    requires TextFields.Lies(data, at, [0])
    ensures Decode.DecodeLz(data, 8 * at, bits) == Decode.NotAvailable
  {
    var run: seq<byte> := [0];
    assert run[0] == 0;
    assert data[at + 1..at + 1] == [];
  }

  /** A text that was not set, of whole bytes if it has a width, is not available to the receiver. */
  lemma {:induction false} UnsetTextIsNotAvailable(info: PgnInfo, staged: seq<Option<Staged>>, data: seq<byte>, i: nat, at: nat)
    requires NumberFields.Builds(info, staged, data) && i < |staged| && staged[i] == None
    requires MessageBits(info.fields, staged, i).Ok? && FieldStart(info.fields, staged, i) == 8 * at
    requires var f := info.fields[i];
             || f.fieldType == Some(StringLz) || f.fieldType == Some(StringLau)
             || (f.fieldType == Some(StringFix) && f.bitLength.Some? && f.bitLength.value % 8 == 0)
    ensures Decode.DecodeOne(info.fields[i], data, 8 * at).Some?
    ensures Decode.DecodeOne(info.fields[i], data, 8 * at).value.0 == Decode.NotAvailable
  {
    var f := info.fields[i];
    UnsetBytesLie(info, staged, data, i, at, UnsetRun(f).value);
    if f.fieldType == Some(StringLau) {
      UnsetLauShown(data, at);
    } else if f.fieldType == Some(StringLz) {
      UnsetLzShown(data, at, TextFields.WidthAt(f, data, at));
      TextFields.DecodesLz(f, data, at);
    } else {
      UnsetFixShown(data, at, f.bitLength.value);
    }
  }

  // ----- Values that are staged -----

  /** Which values each kind of field takes, and how long they may be. */
  predicate Takes(f: FieldInfo, v: EncodeValue) {
    var n := if v.Text? then |v.text| else if v.RawBytes? then |v.bytes| else 0;
    match f.fieldType
    case Some(StringFix) => (v.Text? || v.NotAvailable?) && f.bitLength.Some? && n <= f.bitLength.value / 8
    case Some(StringLz) =>
      (v.Text? || v.NotAvailable?) && n <= 255 && (f.bitLength.Some? ==> n + 1 <= f.bitLength.value / 8)
    case Some(StringLau) => (v.Text? || v.NotAvailable?) && n <= 253
    case Some(Binary) => (v.RawBytes? || v.NotAvailable?) && (f.bitLength.Some? ==> n <= f.bitLength.value / 8)
    case Some(DynamicFieldValue) => v.RawBytes? || v.NotAvailable?
    case _ => f.bitLength.Some? && !v.Text? && !v.RawBytes? && (v.Number? ==> f.resolution != 0.0)
  }

  lemma StagedExactly(f: FieldInfo, v: EncodeValue)
    ensures StageValue(f, v).Ok? <==> Takes(f, v)
  {
  }

  /** Bytes are staged as they are, with zeros up to the width, if there is one. */
  lemma BytesStaged(f: FieldInfo, b: seq<byte>)
    requires f.fieldType == Some(Binary) || f.fieldType == Some(DynamicFieldValue)
    requires Takes(f, RawBytes(b))
    ensures var s := StageValue(f, RawBytes(b));
            && s.Ok? && s.value.Bytes? && |s.value.bytes| >= |b| && s.value.bytes[..|b|] == b
            && (forall k :: |b| <= k < |s.value.bytes| ==> s.value.bytes[k] == 0)
            && |s.value.bytes| == if f.fieldType == Some(Binary) && f.bitLength.Some? then f.bitLength.value / 8 else |b|
  {
  }

  /** Texts are staged behind their length, and that of a self-delimiting one counts itself and the
      encoding; zeros fill up the width, if there is one. */
  lemma TextsStaged(f: FieldInfo, t: seq<byte>)
    requires f.fieldType.Some? && f.fieldType.value in {StringFix, StringLz, StringLau} && Takes(f, Text(t))
    ensures StageValue(f, Text(t)).Ok? && StageValue(f, Text(t)).value.Bytes?
    ensures var s, n, start := StageValue(f, Text(t)).value.bytes, |t|, TextStart(f);
            && |s| == (if f.fieldType != Some(StringLau) && f.bitLength.Some? then f.bitLength.value / 8 else start + n)
            && start + n <= |s| && s[start..start + n] == t
            && (f.fieldType == Some(StringLz) ==> s[0] == n)
            && (f.fieldType == Some(StringLau) ==> s[0] == n + 2 && s[1] == 1)
            && forall k :: start + n <= k < |s| ==> s[k] == 0
  {
  }

  /** How many bytes stand before a text. */
  function TextStart(f: FieldInfo): nat {
    if f.fieldType == Some(StringLau) then 2 else if f.fieldType == Some(StringLz) then 1 else 0
  }

  /** Nothing is staged as the empty text or as no bytes. */
  lemma NothingStaged(f: FieldInfo)
    requires !NumberType(f)
    ensures var none := if f.fieldType.value in {Binary, DynamicFieldValue} then RawBytes([]) else Text([]);
            StageValue(f, EncodeValue.NotAvailable) == StageValue(f, none)
  {
    if f.fieldType == Some(Binary) && f.bitLength.Some? {
      assert [] + Repeat(0, f.bitLength.value / 8) == Repeat(0, f.bitLength.value / 8);
    }
  }

  /** Why a value is not taken: numbers first need a width; a value of another kind is a mismatch; a
      fixed text needs a width; and what is left is too long, or has no resolution. */
  lemma StageErrorExactly(f: FieldInfo, v: EncodeValue)
    requires !Takes(f, v)
    ensures StageValue(f, v).Err?
    ensures var e := StageValue(f, v).error;
            if NumberType(f) then
              e == if f.bitLength.None? then NotFixedLength(f.name)
                   else if v.Text? || v.RawBytes? then TypeMismatch(f.name) else ValueOutOfRange(f.name)
            else if !v.NotAvailable? && !(if f.fieldType.value in {Binary, DynamicFieldValue} then v.RawBytes? else v.Text?) then
              e == TypeMismatch(f.name)
            else e == if f.fieldType == Some(StringFix) && f.bitLength.None? then NotFixedLength(f.name) else ValueOutOfRange(f.name)
  {
  }

  /** The type of a field is that of a number. */
  predicate NumberType(f: FieldInfo) {
    f.fieldType.Some? ==> f.fieldType.value !in {StringFix, StringLz, StringLau, Binary, DynamicFieldValue}
  }

  /** Integers are staged modulo two to the width; physical numbers as the nearest integer, which is
      first brought into the range of 64 bits; nothing as the value of an unset field. */
  lemma NumbersStaged(f: FieldInfo, w: nat, v: EncodeValue)
    requires NumberType(f) && f.bitLength == Some(w) && 1 <= w <= 64 && Takes(f, v)
    ensures var s := StageValue(f, v);
            && s.Ok? && s.value.Scalar?
            && match v
               case Int(n) => s.value.raw == n % Pow2(w)
               case PgnNumber(p) => s.value.raw == p % Pow2(w)
               case Number(x) =>
                 s.value.raw == Clamped(Round((x - f.unitOffset - f.offset as real) / f.resolution)) % Pow2(w)
               case _ => LowBits(s.value.raw, w) == LowBits(UnsetValue(f, w) % Pow2(w), w)
  {
    if v.NotAvailable? {
      DefaultSays(f, w, Pow2(w));
    }
  }

  /** The nearest of the 64-bit signed integers. */
  function Clamped(n: int): (r: int)
    ensures -0x8000_0000_0000_0000 <= r <= 0x7fff_ffff_ffff_ffff
    ensures -0x8000_0000_0000_0000 <= n <= 0x7fff_ffff_ffff_ffff ==> r == n
    ensures n < -0x8000_0000_0000_0000 ==> r == -0x8000_0000_0000_0000
    ensures n > 0x7fff_ffff_ffff_ffff ==> r == 0x7fff_ffff_ffff_ffff
  {
    Saturate(n)
  }

  /** Rounding is to the nearest integer, and halves go away from zero. */
  lemma RoundExactly(x: real)
    ensures -0.5 <= Round(x) as real - x <= 0.5
    ensures x >= 0.0 ==> Round(x) as real - x > -0.5
    ensures x < 0.0 ==> Round(x) as real - x < 0.5
  {
  }

  // ----- The first error -----

  /** A message packs if and only if every field does; if not, the first that does not says why. */
  lemma {:induction false} PacksExactly(fields: seq<FieldInfo>, staged: seq<Option<Staged>>, n: nat)
    requires n <= |fields| == |staged|
    ensures MessageBits(fields, staged, n).Ok? <==> forall i :: 0 <= i < n ==> FieldBits(fields[i], staged[i]).Ok?
    ensures forall i :: 0 <= i < n && FieldBits(fields[i], staged[i]).Err?
                        && (forall h :: 0 <= h < i ==> FieldBits(fields[h], staged[h]).Ok?) ==>
              MessageBits(fields, staged, n).Err? && MessageBits(fields, staged, n).error == FieldBits(fields[i], staged[i]).error
  {
    if n > 0 {
      var m := n - 1;
      PacksExactly(fields, staged, m);
      PacksStep(fields, staged, n, m);
    }
  }

  lemma PacksStep(fields: seq<FieldInfo>, staged: seq<Option<Staged>>, n: nat, m: nat)
    requires m < n <= |fields| == |staged| && m == n - 1
    ensures MessageBits(fields, staged, n).Ok? <==> MessageBits(fields, staged, m).Ok? && FieldBits(fields[m], staged[m]).Ok?
    ensures MessageBits(fields, staged, m).Err? ==> MessageBits(fields, staged, n) == MessageBits(fields, staged, m)
    ensures MessageBits(fields, staged, m).Ok? && FieldBits(fields[m], staged[m]).Err? ==>
              MessageBits(fields, staged, n) == FieldBits(fields[m], staged[m])
  {
  }
}
