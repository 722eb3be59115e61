/** Walking the fields of a PGN over a payload. */
module Decode {
  import opened Wire
  import opened BitStrings
  import opened Bits
  import opened Schema

  /** A decoded value. Text is its bytes, before invalid ones are replaced; the presentation of the types other than numbers and
      texts is not modelled. */
  datatype FieldValue =
    | Integer(n: int)
    | Number(x: real)
    | Text(text: seq<byte>)
    | Utf16(body: seq<byte>)
    | NotAvailable
    | OutOfRange(raw: nat)
    | ReservedValue(raw: nat)
    | Unsupported
    | Other

  datatype Decoded = Decoded(
    order: nat,
    value: FieldValue,
    bitOffset: nat,
    bitLength: nat,
    repeatSet: nat,
    repeatIndex: Option<nat>)

  // ----- Single fields -----

  /** The sentinel that a pattern hits, if any. */
  function Sentinel(f: FieldInfo, raw: nat): Option<FieldValue> {
    if f.unknownValue.Some? && f.unknownValue.value == raw then Some(NotAvailable)
    else if f.outOfRangeValue.Some? && f.outOfRangeValue.value == raw then Some(OutOfRange(raw))
    else if f.reservedValue.Some? && f.reservedValue.value == raw then Some(ReservedValue(raw))
    else None
  }

  /** A display offset forces unsigned extraction. */
  predicate EffectivelySigned(f: FieldInfo) { f.signed && f.offset == 0 }

  predicate Plain(f: FieldInfo) {
    f.resolution == 1.0 && !f.dimensioned && f.unitOffset == 0.0 && f.offset == 0
  }

  function NumberValue(f: FieldInfo, x: Extracted): FieldValue {
    var sentinel := Sentinel(f, x.raw);
    if sentinel.Some? then sentinel.value
    else if Plain(f) then Integer(x.value)
    else FieldValue.Number(x.value as real * f.resolution + f.offset as real + f.unitOffset)
  }

  function DecodeNumber(f: FieldInfo, data: seq<byte>, bitOffset: nat, bitLength: nat): FieldValue {
    match Extract(data, bitOffset, bitLength, EffectivelySigned(f), 0)
    case None => NotAvailable
    case Some(x) => NumberValue(f, x)
  }

  /** The bytes that pad a text at its end: NUL, space, '@' and 0xff. */
  predicate IsPadding(b: byte) { b == 0 || b == 32 || b == 64 || b == 255 }

  /** The bytes without their trailing padding. */
  function Trim(t: seq<byte>): (s: seq<byte>)
    ensures s <= t
    ensures s != [] ==> s[|s| - 1] !in {0x00, 0x20, 0x40, 0xff}
    ensures forall k :: |s| <= k < |t| ==> t[k] in {0x00, 0x20, 0x40, 0xff}
  {
    if t == [] || !IsPadding(t[|t| - 1]) then t else Trim(t[..|t| - 1])
  }

  /** How many bytes the padding character at the end of a text takes, if there is one: NUL,
      space and '@' take one, U+00FF two. The bytes are UTF-8. */
  function PaddingWidth(t: seq<byte>): (w: nat)
    ensures w <= |t|
  {
    if t != [] && (t[|t| - 1] == 0 || t[|t| - 1] == 32 || t[|t| - 1] == 64) then 1
    else if |t| >= 2 && t[|t| - 2] == 0xc3 && t[|t| - 1] == 0xbf then 2
    else 0
  }

  /** Nothing but padding characters. */
  predicate AllPadding(t: seq<byte>) {
    t == [] || (PaddingWidth(t) > 0 && AllPadding(t[..|t| - PaddingWidth(t)]))
  }

  lemma PaddingSuffix(t: seq<byte>, n: nat, w: nat)
    requires w == PaddingWidth(t) && 0 < w && n <= |t| - w && AllPadding(t[..|t| - w][n..])
    ensures AllPadding(t[n..])
  {
    var u := t[n..];
    assert u[|u| - 1] == t[|t| - 1] && (w == 2 ==> u[|u| - 2] == t[|t| - 2]);
    assert u[..|u| - w] == t[..|t| - w][n..];
  }

  /** The text without its trailing padding characters. */
  function TrimChars(t: seq<byte>): (s: seq<byte>)
    ensures s <= t && PaddingWidth(s) == 0
    ensures AllPadding(t[|s|..])
  {
    var w := PaddingWidth(t);
    if w == 0 then t
    else
      var s := TrimChars(t[..|t| - w]);
      assert AllPadding(t[|s|..]) by { PaddingSuffix(t, |s|, w); }
      s
  }

  function TextValue(t: seq<byte>): FieldValue {
    if t == [] then NotAvailable else Text(t)
  }

  /** What is shown of a text: it without its trailing padding characters. */
  function Shown(t: seq<byte>): FieldValue { TextValue(TrimChars(t)) }

  /** A text is shown as it is if and only if it does not end in NUL, space, '@' or U+00FF. */
  lemma ShownExactly(t: seq<byte>)
    ensures Shown(t) == Text(t) <==>
              t != [] && t[|t| - 1] !in {0x00, 0x20, 0x40} && !(|t| >= 2 && t[|t| - 2..] == [0xc3, 0xbf])
  {
    if |t| >= 2 {
      assert t[|t| - 2..] == [t[|t| - 2], t[|t| - 1]];
    }
  }

  /** U+00FF, the last letter of Latin-1, is taken for padding. */
  lemma LastLetterLost()
    ensures Shown([0xc3, 0xbf]) == NotAvailable
  {
    assert PaddingWidth([0xc3, 0xbf]) == 2;
    assert [0xc3, 0xbf][..0] == [];
    assert TrimChars([0xc3, 0xbf]) == TrimChars([0xc3, 0xbf][..0]);
  }

  /** Raw bytes and characters agree on texts without the byte 0xff, which UTF-8 never has. */
  lemma {:induction false} TrimsAgree(t: seq<byte>)
    requires 0xff !in t
    ensures Shown(Trim(t)) == Shown(t)
  {
    if t != [] && IsPadding(t[|t| - 1]) {
      TrimsAgree(t[..|t| - 1]);
    }
  }

  /** A self-delimiting text: its length in bytes, header included, then an encoding byte. */
  function DecodeLau(data: seq<byte>, bitOffset: nat): (FieldValue, nat) {
    if bitOffset % 8 != 0 then (Unsupported, 8)
    else
      var start := bitOffset / 8;
      if start + 2 > |data| then (NotAvailable, 16)
      else
        var total: nat := data[start];
        if total < 2 then (NotAvailable, 16)
        else (LauValue(data[start + 1], data[start + 2..Min(start + total, |data|)]), 8 * total)
  }

  function LauValue(encoding: byte, body: seq<byte>): FieldValue {
    if encoding == 0 then Utf16(body) else Shown(Trim(body))
  }

  /** A text of fixed width: up to its first NUL, without trailing padding. */
  function DecodeFix(data: seq<byte>, bitOffset: nat, bitLength: nat): FieldValue {
    if bitOffset % 8 != 0 || bitLength % 8 != 0 then Unsupported
    else
      var start, end := bitOffset / 8, bitOffset / 8 + bitLength / 8;
      if end > |data| then NotAvailable else TextValue(Trim(UntilNul(data[start..end])))
  }

  function UntilNul(t: seq<byte>): seq<byte> {
    if t == [] || t[0] == 0 then [] else [t[0]] + UntilNul(t[1..])
  }

  /** A text behind its length byte, cut at the end of the field or of the payload. */
  function DecodeLz(data: seq<byte>, bitOffset: nat, bitLength: nat): FieldValue {
    if bitOffset % 8 != 0 then Unsupported
    else
      var start := bitOffset / 8;
      if start >= |data| then NotAvailable
      else
        var end := if bitLength == 0 then |data| else Min(start + bitLength / 8, |data|);
        var room := if end > start + 1 then end - (start + 1) else 0;
        Shown(data[start + 1..start + 1 + Min(data[start], room)])
  }

  /** The bits left in the payload, in whole bytes. */
  function WholeBytesLeft(data: seq<byte>, bitOffset: nat): nat {
    if 8 * |data| > bitOffset then (8 * |data| - bitOffset) / 8 * 8 else 0
  }

  /** One field at `bitOffset`: its value and the bits it takes, if it can be decoded at all. */
  function DecodeOne(f: FieldInfo, data: seq<byte>, bitOffset: nat): Option<(FieldValue, nat)> {
    if f.fieldType == Some(StringLau) then Some(DecodeLau(data, bitOffset))
    else if f.fieldType == Some(Variable) || f.fieldType == Some(DynamicFieldValue) then None
    else if f.bitLength.Some? then
      var w := f.bitLength.value;
      if f.fieldType == Some(FieldType.Number) || f.fieldType == Some(Decimal) || f.fieldType == Some(FieldIndex) then
        Some((DecodeNumber(f, data, bitOffset, w), w))
      else if f.fieldType == Some(StringFix) then Some((DecodeFix(data, bitOffset, w), w))
      else if f.fieldType == Some(StringLz) then Some((DecodeLz(data, bitOffset, w), w))
      else Some((Other, w))
    else if f.fieldType == Some(StringLz) then
      Some((DecodeLz(data, bitOffset, WholeBytesLeft(data, bitOffset)), WholeBytesLeft(data, bitOffset)))
    else if f.fieldType == Some(Binary) then Some((Other, WholeBytesLeft(data, bitOffset)))
    else None
  }

  // ----- Repeating sets -----

  /** The count that an already decoded field gives: an integer modulo two to 32, the whole part of
      a physical number, at most all ones. */
  function CountFrom(out: seq<Decoded>, countField: nat): Option<nat> {
    if out == [] then None
    else if out[0].order == countField then
      match out[0].value
      case Integer(n) => if n >= 0 then Some(n % 0x1_0000_0000) else None
      case Number(x) => if x >= 0.0 then Some(Min(x.Floor, 0xffff_ffff)) else None
      case _ => None
    else CountFrom(out[1..], countField)
  }

  function RepeatCount(out: seq<Decoded>, countField: Option<nat>): Option<nat> {
    if countField.Some? then CountFrom(out, countField.value) else None
  }

  /** A count of zero still gives one iteration; no count gives as many as fit. */
  function MaxIterations(count: Option<nat>): nat {
    match count
    case Some(n) => if n == 0 then 1 else n
    case None => 0xffff_ffff
  }

  function FieldOffset(f: FieldInfo, iter: nat, sub: nat): nat {
    if iter == 0 && f.bitOffset.Some? then f.bitOffset.value else sub
  }

  function Label(count: Option<nat>, iter: nat, first: bool): Option<nat> {
    if count == Some(0) && !first then None else Some(iter)
  }

  /** One pass over the set from its field `j` on: the decoded fields and the cursor after them. */
  function Pass(group: seq<FieldInfo>, data: seq<byte>, number: nat, count: Option<nat>, iter: nat, j: nat, sub: nat, first: bool)
    : (r: (seq<Decoded>, nat))
    requires j <= |group|
    decreases |group| - j
  {
    if j == |group| then ([], sub)
    else
      var f := group[j];
      if f.conditional then Pass(group, data, number, count, iter, j + 1, sub, first)
      else
        var off := FieldOffset(f, iter, sub);
        match DecodeOne(f, data, off)
        case Some(d) =>
          var rest := Pass(group, data, number, count, iter, j + 1, off + d.1, false);
          ([Decoded(f.order, d.0, off, d.1, number, Label(count, iter, first))] + rest.0, rest.1)
        case None =>
          Pass(group, data, number, count, iter, j + 1, if f.bitLength.Some? then off + f.bitLength.value else sub, first)
  }

  /** The iterations from `iter` on. */
  function Rounds(group: seq<FieldInfo>, data: seq<byte>, number: nat, count: Option<nat>, iter: nat, cursor: nat): (seq<Decoded>, nat)
    decreases MaxIterations(count) - iter
  {
    if iter >= MaxIterations(count) || cursor >= 8 * |data| then ([], cursor)
    else
      var pass := Pass(group, data, number, count, iter, 0, cursor, true);
      if pass.0 == [] then ([], cursor)
      else
        var rest := Rounds(group, data, number, count, iter + 1, pass.1);
        (pass.0 + rest.0, rest.1)
  }

  function Repeated(group: seq<FieldInfo>, data: seq<byte>, number: nat, count: Option<nat>, base: nat): (seq<Decoded>, nat) {
    if group == [] then ([], base)
    else Rounds(group, data, number, count, 0, if group[0].bitOffset.Some? then group[0].bitOffset.value else base)
  }

  method DecodeRepeating(fields: seq<FieldInfo>, data: seq<byte>, out: seq<Decoded>, start: nat, rs: RepeatingSet, base: nat, number: nat)
    returns (out': seq<Decoded>, cursor: nat)
    requires start + rs.size <= |fields|
    ensures var r := Repeated(fields[start..start + rs.size], data, number, RepeatCount(out, rs.countField), base);
            out' == out + r.0 && cursor == r.1
  {
    var count := RepeatCount(out, rs.countField);
    var group := fields[start..start + rs.size];
    out' := out;
    if group == [] {
      return out, base;
    }
    cursor := if group[0].bitOffset.Some? then group[0].bitOffset.value else base;
    ghost var all := Rounds(group, data, number, count, 0, cursor);
    var iter := 0;
    while iter < MaxIterations(count)
      invariant iter <= MaxIterations(count)
      invariant var rest := Rounds(group, data, number, count, iter, cursor);
                out' + rest.0 == out + all.0 && rest.1 == all.1
    {
      if cursor >= 8 * |data| {
        break;
      }
      var produced, sub := OnePass(group, data, number, count, iter, cursor);
      if produced == [] {
        break;
      }
      out' := out' + produced;
      cursor := sub;
      iter := iter + 1;
    }
  }

  method OnePass(group: seq<FieldInfo>, data: seq<byte>, number: nat, count: Option<nat>, iter: nat, start: nat)
    returns (produced: seq<Decoded>, sub: nat)
    ensures var pass := Pass(group, data, number, count, iter, 0, start, true);
            produced == pass.0 && sub == pass.1
  {
    produced := [];
    sub := start;
    var first := true;
    ghost var all := Pass(group, data, number, count, iter, 0, start, true);
    for j := 0 to |group|
      invariant var rest := Pass(group, data, number, count, iter, j, sub, first);
                produced + rest.0 == all.0 && rest.1 == all.1
    {
      var f := group[j];
      if !f.conditional {
        var off := FieldOffset(f, iter, sub);
        var d := DecodeOne(f, data, off);
        if d.Some? {
          ghost var rest := Pass(group, data, number, count, iter, j + 1, off + d.value.1, false);
          var one := Decoded(f.order, d.value.0, off, d.value.1, number, Label(count, iter, first));
          Assoc(produced, [one], rest.0);
          produced := produced + [one];
          sub := off + d.value.1;
          first := false;
        } else if f.bitLength.Some? {
          sub := off + f.bitLength.value;
        }
      }
    }
    assert produced + [] == produced;
  }

  // ----- The walk over all fields -----

  /** Sets have at least one field and lie within the field list. */
  predicate SetOk(fields: seq<FieldInfo>, s: Option<RepeatingSet>) {
    s.Some? ==>
      (s.value.size >= 1
       && forall i :: 0 <= i < |fields| && fields[i].order == s.value.startField ==> i + s.value.size <= |fields|)
  }

  predicate WellFormed(info: PgnInfo) { SetOk(info.fields, info.set1) && SetOk(info.fields, info.set2) }

  predicate StartsSet(f: FieldInfo, s: Option<RepeatingSet>) { s.Some? && f.order == s.value.startField }

  datatype Progress = Progress(out: seq<Decoded>, entered1: bool, entered2: bool, cursor: nat)

  function SetStep(info: PgnInfo, data: seq<byte>, p: Progress, i: nat, s: RepeatingSet, number: nat): Progress
    requires i + s.size <= |info.fields| && i < |info.fields|
  {
    var f := info.fields[i];
    var at := if f.bitOffset.Some? then f.bitOffset.value else p.cursor;
    var r := Repeated(info.fields[i..i + s.size], data, number, RepeatCount(p.out, s.countField), p.cursor);
    Progress(p.out + r.0,
             p.entered1 || (number == 1 && at < 8 * |data|),
             p.entered2 || (number == 2 && at < 8 * |data|), r.1)
  }

  function FieldStep(f: FieldInfo, data: seq<byte>, p: Progress): Progress {
    if f.conditional then p
    else
      var at := if f.bitOffset.Some? then f.bitOffset.value else p.cursor;
      match DecodeOne(f, data, at)
      case None => p
      case Some(d) => p.(out := p.out + [Decoded(f.order, d.0, at, d.1, 0, None)], cursor := at + d.1)
  }

  function Walk(info: PgnInfo, data: seq<byte>, i: nat, p: Progress): Progress
    requires WellFormed(info) && i <= |info.fields|
    decreases |info.fields| - i
  {
    if i == |info.fields| then p
    else
      var f := info.fields[i];
      if StartsSet(f, info.set1) then Walk(info, data, i + info.set1.value.size, SetStep(info, data, p, i, info.set1.value, 1))
      else if StartsSet(f, info.set2) then Walk(info, data, i + info.set2.value.size, SetStep(info, data, p, i, info.set2.value, 2))
      else Walk(info, data, i + 1, FieldStep(f, data, p))
  }

  const NOTHING := Progress([], false, false, 0)

  /** The field walk. With sets of at least one field, it terminates on every payload. */
  method DecodeFields(info: PgnInfo, data: seq<byte>) returns (p: Progress)
    requires WellFormed(info)
    ensures p == Walk(info, data, 0, NOTHING)
  {
    p := NOTHING;
    var i := 0;
    while i < |info.fields|
      invariant i <= |info.fields|
      invariant Walk(info, data, i, p) == Walk(info, data, 0, NOTHING)
      decreases |info.fields| - i
    {
      var f := info.fields[i];
      if StartsSet(f, info.set1) {
        p := DecodeSet(info, data, p, i, info.set1.value, 1);
        i := i + info.set1.value.size;
      } else if StartsSet(f, info.set2) {
        p := DecodeSet(info, data, p, i, info.set2.value, 2);
        i := i + info.set2.value.size;
      } else {
        p := DecodeField(f, data, p);
        i := i + 1;
      }
    }
  }

  method DecodeSet(info: PgnInfo, data: seq<byte>, p: Progress, i: nat, s: RepeatingSet, number: nat) returns (p': Progress)
    requires i + s.size <= |info.fields| && i < |info.fields|
    ensures p' == SetStep(info, data, p, i, s, number)
  {
    var f := info.fields[i];
    var at := if f.bitOffset.Some? then f.bitOffset.value else p.cursor;
    var entered1, entered2 := p.entered1, p.entered2;
    if at < 8 * |data| {
      entered1, entered2 := entered1 || number == 1, entered2 || number == 2;
    }
    var out, cursor := DecodeRepeating(info.fields, data, p.out, i, s, p.cursor, number);
    return Progress(out, entered1, entered2, cursor);
  }

  method DecodeField(f: FieldInfo, data: seq<byte>, p: Progress) returns (p': Progress)
    ensures p' == FieldStep(f, data, p)
  {
    if f.conditional {
      return p;
    }
    var at := if f.bitOffset.Some? then f.bitOffset.value else p.cursor;
    var d := DecodeOne(f, data, at);
    if d.None? {
      return p;
    }
    return p.(out := p.out + [Decoded(f.order, d.value.0, at, d.value.1, 0, None)], cursor := at + d.value.1);
  }

  // ----- Layout of a repeating set -----

  /** An unconditional number of fixed, positive width. */
  predicate FixedNumber(f: FieldInfo) {
    && !f.conditional && f.fieldType == Some(FieldType.Number)
    && f.bitLength.Some? && f.bitLength.value >= 1
  }

  predicate FixedSet(group: seq<FieldInfo>) { group != [] && forall j :: 0 <= j < |group| ==> FixedNumber(group[j]) }

  /** The fields of the set lie one after the other from `base`, where they say so. */
  predicate Consecutive(group: seq<FieldInfo>, base: nat) {
    forall j :: 0 <= j < |group| && group[j].bitOffset.Some? ==> group[j].bitOffset.value == base + WidthSum(group, j)
  }

  /** Field `j` of an iteration that starts at `at`. */
  function Placed(group: seq<FieldInfo>, data: seq<byte>, number: nat, count: Option<nat>, iter: nat, at: nat, j: nat): Decoded
    requires j < |group| && FixedSet(group)
  {
    var f := group[j];
    Decoded(f.order, DecodeNumber(f, data, at + WidthSum(group, j), f.bitLength.value), at + WidthSum(group, j),
            f.bitLength.value, number, if count == Some(0) && j > 0 then None else Some(iter))
  }

  lemma {:induction false} PassStep(group: seq<FieldInfo>, data: seq<byte>, number: nat, count: Option<nat>, iter: nat, at: nat, j: nat, sub: nat, first: bool)
    requires FixedSet(group) && j < |group| && (iter == 0 ==> Consecutive(group, at))
    requires sub == at + WidthSum(group, j) && first == (j == 0)
    ensures var rest := Pass(group, data, number, count, iter, j + 1, at + WidthSum(group, j + 1), false);
            Pass(group, data, number, count, iter, j, sub, first)
            == ([Placed(group, data, number, count, iter, at, j)] + rest.0, rest.1)
  {
    var f := group[j];
    assert FixedNumber(f);
    assert FieldOffset(f, iter, sub) == sub;
  }

  lemma FirstOfRest<T>(all: seq<T>, j: nat)
    requires j < |all|
    ensures [all[j]] + all[j + 1..] == all[j..]
  {
  }

  /** The passes from field `j` on put the fields next to each other. */
  lemma {:induction false} PassLayout(group: seq<FieldInfo>, data: seq<byte>, number: nat, count: Option<nat>, iter: nat, at: nat, j: nat, sub: nat, first: bool, all: seq<Decoded>)
    requires FixedSet(group) && j <= |group| && (iter == 0 ==> Consecutive(group, at))
    requires sub == at + WidthSum(group, j) && first == (j == 0) && all == Placements(group, data, number, count, iter, at)
    ensures Pass(group, data, number, count, iter, j, sub, first) == (all[j..], at + WidthSum(group, |group|))
    decreases |group| - j
  {
    if j < |group| {
      PassStep(group, data, number, count, iter, at, j, sub, first);
      PassLayout(group, data, number, count, iter, at, j + 1, at + WidthSum(group, j + 1), false, all);
      FirstOfRest(all, j);
      assert all[j] == Placed(group, data, number, count, iter, at, j);
    } else {
      assert all[j..] == [];
    }
  }

  /** `n` times `w`, by addition. */
  function Times(n: nat, w: nat): nat {
    if n == 0 then 0 else w + Times(n - 1, w)
  }

  lemma {:induction false} TimesIsProduct(n: nat, w: nat)
    ensures Times(n, w) == n * w
  {
    if n > 0 {
      TimesIsProduct(n - 1, w);
    }
  }

  /** How many iterations of width `w` start before bit `end`, from bit `at` on. */
  function Fitting(at: nat, w: nat, end: nat): nat
    decreases end - at
  {
    if w == 0 || at >= end then 0 else 1 + Fitting(at + w, w, end)
  }

  /** It is the number of bits left, divided by the width and rounded up. */
  lemma {:induction false} FittingIsCeiling(at: nat, w: nat, end: nat)
    requires w > 0 && at < end
    ensures Fitting(at, w, end) == (end - at + w - 1) / w
    decreases end - at
  {
    var x := end - at + w - 1;
    if at + w < end {
      FittingIsCeiling(at + w, w, end);
      DivModUnique(x - w, w, (x - w) / w, (x - w) % w);
      DivModUnique(x, w, 1 + (x - w) / w, (x - w) % w);
    } else {
      DivModUnique(x, w, 1, end - at - 1);
    }
  }

  function Placements(group: seq<FieldInfo>, data: seq<byte>, number: nat, count: Option<nat>, iter: nat, at: nat): (ds: seq<Decoded>)
    requires FixedSet(group)
    ensures |ds| == |group|
  {
    seq(|group|, j requires 0 <= j < |group| => Placed(group, data, number, count, iter, at, j))
  }

  /** `n` iterations, one after the other. */
  function Layout(group: seq<FieldInfo>, data: seq<byte>, number: nat, count: Option<nat>, iter: nat, at: nat, n: nat): seq<Decoded>
    requires FixedSet(group)
    decreases n
  {
    if n == 0 then []
    else Placements(group, data, number, count, iter, at)
         + Layout(group, data, number, count, iter + 1, at + WidthSum(group, |group|), n - 1)
  }

  lemma {:induction false} WidthPositive(group: seq<FieldInfo>, n: nat)
    requires FixedSet(group) && n <= |group|
    ensures n > 0 ==> WidthSum(group, n) > 0
  {
    if n > 0 {
      assert FixedNumber(group[n - 1]);
    }
  }

  lemma {:induction false} PassPlacements(group: seq<FieldInfo>, data: seq<byte>, number: nat, count: Option<nat>, iter: nat, at: nat)
    requires FixedSet(group) && (iter == 0 ==> Consecutive(group, at))
    ensures Pass(group, data, number, count, iter, 0, at, true)
            == (Placements(group, data, number, count, iter, at), at + WidthSum(group, |group|))
  {
    PassLayout(group, data, number, count, iter, at, 0, at, true, Placements(group, data, number, count, iter, at));
  }

  /** How many iterations run. */
  function RunCount(count: Option<nat>, iter: nat, at: nat, w: nat, end: nat): nat {
    var left := if MaxIterations(count) > iter then MaxIterations(count) - iter else 0;
    Min(left, Fitting(at, w, end))
  }

  lemma RunCountStep(count: Option<nat>, iter: nat, at: nat, w: nat, end: nat)
    requires w > 0
    ensures RunCount(count, iter, at, w, end)
            == if iter < MaxIterations(count) && at < end then 1 + RunCount(count, iter + 1, at + w, w, end) else 0
  {
  }

  lemma {:induction false} RoundsStep(group: seq<FieldInfo>, data: seq<byte>, number: nat, count: Option<nat>, iter: nat, at: nat, w: nat)
    requires FixedSet(group) && w == WidthSum(group, |group|) && (iter == 0 ==> Consecutive(group, at))
    requires iter < MaxIterations(count) && at < 8 * |data|
    ensures var rest := Rounds(group, data, number, count, iter + 1, at + w);
            Rounds(group, data, number, count, iter, at)
            == (Placements(group, data, number, count, iter, at) + rest.0, rest.1)
  {
    PassPlacements(group, data, number, count, iter, at);
  }

  lemma {:induction false} RoundsLayout(group: seq<FieldInfo>, data: seq<byte>, number: nat, count: Option<nat>, iter: nat, at: nat, w: nat, n: nat)
    requires FixedSet(group) && w == WidthSum(group, |group|) && w > 0 && (iter == 0 ==> Consecutive(group, at))
    requires n == RunCount(count, iter, at, w, 8 * |data|)
    ensures Rounds(group, data, number, count, iter, at) == (Layout(group, data, number, count, iter, at, n), at + Times(n, w))
    decreases n
  {
    RunCountStep(count, iter, at, w, 8 * |data|);
    if n > 0 {
      RoundsStep(group, data, number, count, iter, at, w);
      RoundsLayout(group, data, number, count, iter + 1, at + w, w, n - 1);
    }
  }

  lemma {:induction false} LayoutLength(group: seq<FieldInfo>, data: seq<byte>, number: nat, count: Option<nat>, iter: nat, at: nat, n: nat)
    requires FixedSet(group)
    ensures |Layout(group, data, number, count, iter, at, n)| == Times(n, |group|)
    decreases n
  {
    if n > 0 {
      LayoutLength(group, data, number, count, iter + 1, at + WidthSum(group, |group|), n - 1);
    }
  }

  lemma {:induction false} TimesBelow(i: nat, n: nat, m: nat, j: nat)
    requires i < n && j < m
    ensures Times(i, m) + j < Times(n, m)
  {
    if i > 0 {
      TimesBelow(i - 1, n - 1, m, j);
    }
  }

  lemma {:induction false} LayoutAt(group: seq<FieldInfo>, data: seq<byte>, number: nat, count: Option<nat>, iter: nat, at: nat, n: nat, i: nat, j: nat, all: seq<Decoded>, w: nat)
    requires FixedSet(group) && i < n && j < |group| && w == WidthSum(group, |group|)
    requires all == Layout(group, data, number, count, iter, at, n)
    ensures Times(i, |group|) + j < |all|
    ensures all[Times(i, |group|) + j] == Placed(group, data, number, count, iter + i, at + Times(i, w), j)
    decreases n
  {
    TimesBelow(i, n, |group|, j);
    LayoutLength(group, data, number, count, iter, at, n);
    var head := Placements(group, data, number, count, iter, at);
    if i == 0 {
      assert all[j] == head[j];
    } else {
      var tail := Layout(group, data, number, count, iter + 1, at + w, n - 1);
      LayoutAt(group, data, number, count, iter + 1, at + w, n - 1, i - 1, j, tail, w);
      IndexRight(head, tail, Times(i - 1, |group|) + j);
    }
  }

  /** Field `j` of iteration `i` is the decoded field number `i` times the length of the set
      plus `j`, and starts `i` times the width of the set plus the widths before it after
      `base`. */
  predicate IsPlaced(all: seq<Decoded>, group: seq<FieldInfo>, data: seq<byte>, number: nat, count: Option<nat>, base: nat, i: nat, j: nat)
    requires FixedSet(group) && j < |group|
  {
    && i * |group| + j < |all|
    && all[i * |group| + j] == Placed(group, data, number, count, i, base + i * WidthSum(group, |group|), j)
  }

  lemma {:induction false} AllPlaced(all: seq<Decoded>, group: seq<FieldInfo>, data: seq<byte>, number: nat, count: Option<nat>, base: nat, n: nat)
    requires FixedSet(group) && all == Layout(group, data, number, count, 0, base, n)
    ensures |all| == n * |group|
    ensures forall i: nat, j: nat :: i < n && j < |group| ==> IsPlaced(all, group, data, number, count, base, i, j)
  {
    LayoutLength(group, data, number, count, 0, base, n);
    TimesIsProduct(n, |group|);
    forall i: nat, j: nat | i < n && j < |group|
      ensures IsPlaced(all, group, data, number, count, base, i, j)
    {
      LayoutAt(group, data, number, count, 0, base, n, i, j, all, WidthSum(group, |group|));
      TimesIsProduct(i, |group|);
      TimesIsProduct(i, WidthSum(group, |group|));
    }
  }

  /** How many iterations of `w` bits run, from `base` on: the bits left before `end`, divided by
      the width and rounded up; but no more than a count says, and a count of zero counts as one.
      Without a count it is as many as 32 bits can count. */
  function Iterations(count: Option<nat>, base: nat, w: nat, end: nat): nat
    requires w > 0
  {
    var fitting := if base < end then (end - base + w - 1) / w else 0;
    match count
    case Some(n) => Min(if n == 0 then 1 else n, fitting)
    case None => Min(0xffff_ffff, fitting)
  }

  /** `n` iterations, each field of each in its place, and the cursor after them. */
  ghost predicate LaidOut(r: (seq<Decoded>, nat), group: seq<FieldInfo>, data: seq<byte>, number: nat, count: Option<nat>, base: nat, n: nat)
    requires FixedSet(group)
  {
    && r.1 == base + n * WidthSum(group, |group|)
    && |r.0| == n * |group|
    && forall i: nat, j: nat :: i < n && j < |group| ==> IsPlaced(r.0, group, data, number, count, base, i, j)
  }

  lemma {:induction false} LayoutLaidOut(r: (seq<Decoded>, nat), group: seq<FieldInfo>, data: seq<byte>, number: nat, count: Option<nat>, base: nat, n: nat)
    requires FixedSet(group)
    requires r == (Layout(group, data, number, count, 0, base, n), base + Times(n, WidthSum(group, |group|)))
    ensures LaidOut(r, group, data, number, count, base, n)
  {
    TimesIsProduct(n, WidthSum(group, |group|));
    AllPlaced(r.0, group, data, number, count, base, n);
  }

  lemma RunCountIsIterations(count: Option<nat>, base: nat, w: nat, end: nat)
    requires w > 0
    ensures RunCount(count, 0, base, w, end) == Iterations(count, base, w, end)
  {
    if base < end {
      FittingIsCeiling(base, w, end);
    }
  }

  /** A set of fixed-width numbers, `w` bits in all: as many iterations run as the count (at
      least one) allows and start within the payload; every field of every iteration has its
      place; and the walk goes on right after the last iteration. */
  lemma {:induction false} RepeatingSetLayout(group: seq<FieldInfo>, data: seq<byte>, number: nat, count: Option<nat>, base: nat, w: nat)
    requires FixedSet(group) && Consecutive(group, base) && w == WidthSum(group, |group|)
    requires group[0].bitOffset.Some? ==> group[0].bitOffset.value == base
    ensures w > 0
    ensures LaidOut(Repeated(group, data, number, count, base), group, data, number, count, base,
                    Iterations(count, base, w, 8 * |data|))
  {
    WidthPositive(group, |group|);
    var n := Iterations(count, base, w, 8 * |data|);
    RunCountIsIterations(count, base, w, 8 * |data|);
    RoundsLayout(group, data, number, count, 0, base, w, n);
    LayoutLaidOut(Repeated(group, data, number, count, base), group, data, number, count, base, n);
  }
}
