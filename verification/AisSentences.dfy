/** The sentences that carry an AIS message, and what a receiver recovers from them. */
module AisSentences {
  import opened Wire
  import opened BitStrings
  import opened MsbStrings
  import opened Text
  import opened AisArmour
  import opened AisReceiver
  import Ais

  // ----- Fragments -----

  const FRAGMENT_BITS := 360

  /** The number of fragments. */
  function Fragments(n: nat): nat { (n + 359) / 360 }

  datatype Sentence = Sentence(
    talker: string,
    fragments: nat,
    number: nat,
    id: Option<nat>,
    channel: char,
    payload: string,
    padding: nat)

  /** The bits of the fragment that starts at `at`. */
  function FragmentAt(b: Bits, at: nat): (f: Bits)
    requires at <= |b|
    ensures |f| <= FRAGMENT_BITS
  {
    b[at..Min(at + FRAGMENT_BITS, |b|)]
  }

  /** The sentences for the bits from `at` on; the first of them is number `number`. */
  function SentencesFrom(b: Bits, at: nat, number: nat, total: nat, talker: string, channel: char, id: Option<nat>): (ss: seq<Sentence>)
    requires at <= |b|
    ensures |ss| == Fragments(|b| - at)
    decreases |b| - at
  {
    if at == |b| then []
    else
      var f := FragmentAt(b, at);
      [Sentence(talker, total, number, id, channel, Armour(f), Padding(|f|))]
      + SentencesFrom(b, at + |f|, number + 1, total, talker, channel, id)
  }

  /** The sequence id of a message of several fragments; a single fragment has none. */
  function NextId(n: nat, counter: byte): Option<nat>
    requires counter < 255
  {
    if Fragments(n) > 1 then Some((counter + 1) % 10) else None
  }

  function Sentences(b: Bits, talker: string, channel: char, counter: byte): seq<Sentence>
    requires counter < 255
  {
    SentencesFrom(b, 0, 1, Fragments(|b|), talker, channel, NextId(|b|, counter))
  }

  /** What the payloads of the sentences carry, padding included. */
  function Carried(ss: seq<Sentence>): Bits {
    if ss == [] then [] else Dearmour(ss[0].payload) + Carried(ss[1..])
  }

  /** Payloads have at most 60 characters, and only the last sentence is padded. */
  predicate WellFragmented(ss: seq<Sentence>) {
    forall i :: 0 <= i < |ss| ==> |ss[i].payload| <= 60 && (i < |ss| - 1 ==> ss[i].padding == 0)
  }

  function LastPadding(ss: seq<Sentence>): nat { if ss == [] then 0 else ss[|ss| - 1].padding }

  /** The sentences are numbered from `n` on. */
  predicate Numbered(ss: seq<Sentence>, n: nat) { forall i :: 0 <= i < |ss| ==> ss[i].number == n + i }

  lemma FragmentsCons(s: Sentence, ss: seq<Sentence>, n: nat)
    requires WellFragmented(ss) && |s.payload| <= 60 && (ss != [] ==> s.padding == 0)
    requires Numbered(ss, n + 1) && s.number == n
    ensures WellFragmented([s] + ss) && Numbered([s] + ss, n)
    ensures LastPadding([s] + ss) == if ss == [] then s.padding else LastPadding(ss)
  {
    var all := [s] + ss;
    forall i | 0 <= i < |all|
      ensures |all[i].payload| <= 60 && (i < |all| - 1 ==> all[i].padding == 0) && all[i].number == n + i
    {
      if i > 0 {
        assert all[i] == ss[i - 1];
      }
    }
  }

  lemma {:induction false} PaddingOfGroups(n: nat, k: nat)
    ensures Padding(n + 6 * k) == Padding(n)
  {
    if k > 0 {
      PaddingOfGroups(n, k - 1);
    }
  }

  lemma PaddingOfRest(n: nat)
    requires n > FRAGMENT_BITS
    ensures Padding(FRAGMENT_BITS) == 0 && Padding(n - FRAGMENT_BITS) == Padding(n)
  {
    PaddingOfGroups(0, 60);
    PaddingOfGroups(n - FRAGMENT_BITS, 60);
  }

  lemma RestPadding(b: Bits, at: nat, n: nat)
    requires at < |b| && n == |FragmentAt(b, at)|
    ensures at + n < |b| ==> Padding(n) == 0 && Padding(|b| - (at + n)) == Padding(|b| - at)
    ensures at + n == |b| ==> Padding(n) == Padding(|b| - at) && Padding(|b| - (at + n)) == 0
  {
    if at + n < |b| {
      PaddingOfRest(|b| - at);
    }
  }

  /** The sentences `ss` for the bits from `at` on, the first of them number `number`, are in order. */
  predicate InOrder(ss: seq<Sentence>, number: nat, left: nat) {
    WellFragmented(ss) && Numbered(ss, number) && LastPadding(ss) == Padding(left)
  }

  lemma InOrderCons(b: Bits, at: nat, s: Sentence, rest: seq<Sentence>, n: nat)
    requires at < |b| && n == |FragmentAt(b, at)| && |s.payload| <= 60 && s.padding == Padding(n)
    requires InOrder(rest, s.number + 1, |b| - (at + n)) && (rest == [] <==> at + n == |b|)
    ensures InOrder([s] + rest, s.number, |b| - at)
  {
    RestPadding(b, at, n);
    FragmentsCons(s, rest, s.number);
  }

  lemma {:induction false} FragmentsInOrder(b: Bits, at: nat, number: nat, total: nat, talker: string, channel: char, id: Option<nat>)
    requires at <= |b|
    ensures InOrder(SentencesFrom(b, at, number, total, talker, channel, id), number, |b| - at)
    decreases |b| - at
  {
    if at < |b| {
      var f := FragmentAt(b, at);
      FragmentsInOrder(b, at + |f|, number + 1, total, talker, channel, id);
      InOrderCons(b, at, Sentence(talker, total, number, id, channel, Armour(f), Padding(|f|)),
                  SentencesFrom(b, at + |f|, number + 1, total, talker, channel, id), |f|);
    }
  }

  lemma CarriedCons(s: Sentence, ss: seq<Sentence>)
    ensures Carried([s] + ss) == Dearmour(s.payload) + Carried(ss)
  {
    assert ([s] + ss)[1..] == ss;
  }

  /** Padding is in the middle only if nothing follows. */
  lemma JoinPadded(f: Bits, rest: Bits, inner: nat, last: nat, p: nat)
    requires if rest == [] then inner == p && last == 0 else inner == 0 && last == p
    ensures (f + Zeros(inner)) + (rest + Zeros(last)) == (f + rest) + Zeros(p)
  {
    if rest == [] {
      assert rest + Zeros(last) == [];
      assert f + rest == f;
    } else {
      assert f + Zeros(inner) == f;
      Assoc(f, rest, Zeros(p));
    }
  }

  lemma CarriedStep(f: Bits, tail: Bits, s: Sentence, rest: seq<Sentence>, inner: nat, last: nat, p: nat)
    requires Dearmour(s.payload) == f + Zeros(inner) && Carried(rest) == tail + Zeros(last)
    requires if tail == [] then inner == p && last == 0 else inner == 0 && last == p
    ensures Carried([s] + rest) == (f + tail) + Zeros(p)
  {
    CarriedCons(s, rest);
    JoinPadded(f, tail, inner, last, p);
  }

  lemma FragmentAndRest(b: Bits, at: nat, f: Bits)
    requires at < |b| && f == FragmentAt(b, at)
    ensures b[at..] == f + b[at + |f|..]
  {
  }

  lemma {:induction false} FragmentsCarry(b: Bits, at: nat, number: nat, total: nat, talker: string, channel: char, id: Option<nat>)
    requires at <= |b|
    ensures Carried(SentencesFrom(b, at, number, total, talker, channel, id)) == b[at..] + Zeros(Padding(|b| - at))
    decreases |b| - at
  {
    if at == |b| {
      assert Zeros(0) == [] && b[at..] == [];
    } else {
      var f := FragmentAt(b, at);
      var next := at + |f|;
      FragmentsCarry(b, next, number + 1, total, talker, channel, id);
      ArmourBack(f);
      RestPadding(b, at, |f|);
      FragmentAndRest(b, at, f);
      CarriedStep(f, b[next..], Sentence(talker, total, number, id, channel, Armour(f), Padding(|f|)),
                  SentencesFrom(b, next, number + 1, total, talker, channel, id),
                  Padding(|f|), Padding(|b| - next), Padding(|b| - at));
    }
  }

  /** What a receiver recovers: everything carried, without the padding of the last sentence. */
  function Recovered(ss: seq<Sentence>): Bits
    requires LastPadding(ss) <= |Carried(ss)|
  {
    Carried(ss)[..|Carried(ss)| - LastPadding(ss)]
  }

  lemma RecoversContents(b: Bits, talker: string, channel: char, counter: byte)
    requires counter < 255
    ensures var ss := Sentences(b, talker, channel, counter);
            && |ss| == Fragments(|b|) && WellFragmented(ss)
            && LastPadding(ss) <= |Carried(ss)| && Recovered(ss) == b
  {
    var id := NextId(|b|, counter);
    FragmentsInOrder(b, 0, 1, Fragments(|b|), talker, channel, id);
    FragmentsCarry(b, 0, 1, Fragments(|b|), talker, channel, id);
    assert b[0..] == b;
  }

  // ----- Fields -----

  /** A field of a message: a value and its width. */
  datatype Field = Field(value: Ais.i64, len: nat)

  /** The bits that adding the fields in turn produces. */
  function Packed(fs: seq<Field>): Bits {
    if fs == [] then [] else Packed(fs[..|fs| - 1]) + High(fs[|fs| - 1].value % Pow2(fs[|fs| - 1].len), fs[|fs| - 1].len)
  }

  /** The numbers in fields of the same widths. */
  function ReadAll(b: Bits, fs: seq<Field>): seq<nat>
    requires |b| == |Packed(fs)|
    decreases |fs|
  {
    if fs == [] then []
    else
      var before := |Packed(fs[..|fs| - 1])|;
      ReadAll(b[..before], fs[..|fs| - 1]) + [FromHigh(b[before..])]
  }

  function Reduced(fs: seq<Field>): seq<nat> {
    if fs == [] then [] else Reduced(fs[..|fs| - 1]) + [fs[|fs| - 1].value % Pow2(fs[|fs| - 1].len)]
  }

  lemma {:induction false} ReadsBack(fs: seq<Field>)
    ensures ReadAll(Packed(fs), fs) == Reduced(fs)
  {
    if fs != [] {
      var front, last := fs[..|fs| - 1], fs[|fs| - 1];
      ReadsBack(front);
      var v := last.value % Pow2(last.len);
      assert Packed(fs)[..|Packed(front)|] == Packed(front);
      assert Packed(fs)[|Packed(front)|..] == High(v, last.len);
      FromHighOf(v, last.len);
      ModTwice(last.value, Pow2(last.len));
    }
  }

  /** Any fields, added in turn and sent in sentences, are recovered from the payloads, each
      reduced to its width, in order; no payload is longer than 60 characters and only the last
      is padded. */
  lemma {:induction false} AisRoundTrip(fs: seq<Field>, talker: string, channel: char, counter: byte)
    requires counter < 255
    ensures var ss := Sentences(Packed(fs), talker, channel, counter);
            && |ss| == Fragments(|Packed(fs)|) && WellFragmented(ss)
            && LastPadding(ss) <= |Carried(ss)| && |Recovered(ss)| == |Packed(fs)|
            && ReadAll(Recovered(ss), fs) == Reduced(fs)
  {
    RecoversContents(Packed(fs), talker, channel, counter);
    ReadsBack(fs);
  }

  // ----- Text -----

  function IdText(id: Option<nat>): string {
    match id
    case None => ""
    case Some(d) => Digits(d)
  }

  function FieldsOf(s: Sentence): (xs: seq<string>)
    ensures |xs| == 7
  {
    ["AI" + s.talker, Digits(s.fragments), Digits(s.number), IdText(s.id), [s.channel], s.payload, Digits(s.padding)]
  }

  function Body(s: Sentence): string { Join(FieldsOf(s), ',') }

  function Line(body: string): string { "!" + body + "*" + Hex(Checksum(body)) + "\r\n" }

  function Lines(ss: seq<Sentence>): string {
    if ss == [] then "" else Line(Body(ss[0])) + Lines(ss[1..])
  }

  // ----- Emission -----

  lemma BitOfByte(bytes: seq<byte>, j: nat, r: nat)
    requires j < |bytes| && r < 8
    ensures MsbBits(bytes)[8 * j + r] <==> Shr(bytes[j], 7 - r) % 2 == 1
  {
    MsbAt(bytes, j);
    HighAt(bytes[j], 8, r);
    var all := MsbBits(bytes);
    assert all[8 * j..8 * j + 8][r] == all[8 * j + r];
  }

  lemma ReadStep(bytes: seq<byte>, offset: nat, i: nat, k: nat)
    requires k == offset + i < 8 * |bytes|
    ensures FromHigh(MsbBits(bytes)[offset..offset + i + 1])
            == 2 * FromHigh(MsbBits(bytes)[offset..offset + i]) + Shr(bytes[k / 8], 7 - k % 8) % 2
  {
    BitOfByte(bytes, k / 8, k % 8);
    LastBit(MsbBits(bytes), offset, i);
  }

  lemma LastBit(all: Bits, offset: nat, i: nat)
    requires offset + i < |all|
    ensures FromHigh(all[offset..offset + i + 1])
            == 2 * FromHigh(all[offset..offset + i]) + if all[offset + i] then 1 else 0
  {
    var s := all[offset..offset + i + 1];
    assert s[..|s| - 1] == all[offset..offset + i] && s[|s| - 1] == all[offset + i];
  }

  method ReadBits(bytes: array<byte>, offset: nat, len: nat) returns (r: nat)
    requires offset + len <= 8 * bytes.Length && len <= 8
    ensures r == FromHigh(MsbBits(bytes[..])[offset..offset + len])
  {
    r := 0;
    for i := 0 to len
      invariant r == FromHigh(MsbBits(bytes[..])[offset..offset + i])
    {
      var b := bytes[(offset + i) / 8];
      var bit := Shr(b, 7 - (offset + i) % 8) % 2;
      ReadStep(bytes[..], offset, i, offset + i);
      r := 2 * r + bit;
    }
  }

  lemma Nested<T>(all: seq<T>, pos: nat, start: nat, n: nat, first: nat, len: nat)
    requires start + n <= pos <= |all| && first + len <= n
    ensures all[..pos][start..start + n][first..first + len] == all[start + first..start + first + len]
  {
    assert all[..pos][start..start + n] == all[start..start + n];
    SliceOfSlice(all, start, n, first, len);
  }

  lemma {:induction false} ZerosTail(b: Bits, n: nat)
    ensures FromHigh(b + Zeros(n)) == Pow2(n) * FromHigh(b)
  {
    if n == 0 {
      assert b + [] == b;
    } else {
      ZerosTail(b, n - 1);
      var s := b + Zeros(n);
      assert s[..|s| - 1] == b + Zeros(n - 1) && !s[|s| - 1];
      DoubleProduct(Pow2(n - 1), FromHigh(b));
    }
  }

  lemma ArmourAt(f: Bits, consumed: nat)
    requires consumed + 6 <= |f|
    ensures Armour(f[consumed..]) == [SixBitAscii(GroupOf(f[consumed..consumed + 6]))] + Armour(f[consumed + 6..])
  {
    var rest := f[consumed..];
    assert rest[..6] == f[consumed..consumed + 6] && rest[6..] == f[consumed + 6..];
  }

  lemma ArmourLast(f: Bits)
    requires 0 < |f| < 6
    ensures Pow2(6 - |f|) * FromHigh(f) < 64
    ensures Armour(f) == [SixBitAscii(Pow2(6 - |f|) * FromHigh(f))]
  {
    ZerosTail(f, 6 - |f|);
    assert GroupOf(f + Zeros(6 - |f|)) == Pow2(6 - |f|) * FromHigh(f);
  }

  /** `payload` is the armoured form of the first `consumed` bits, which are whole groups. */
  ghost predicate Armoured(f: Bits, consumed: nat, payload: string) {
    && consumed <= |f|
    && payload + Armour(f[consumed..]) == Armour(f) && Padding(|f| - consumed) == Padding(|f|)
  }

  lemma ArmourStart(f: Bits)
    ensures Armoured(f, 0, "")
  {
    assert f[0..] == f;
  }

  lemma ArmourGroup(f: Bits, consumed: nat, val: nat, payload: string)
    requires consumed + 6 <= |f| && Armoured(f, consumed, payload) && val == FromHigh(f[consumed..consumed + 6])
    ensures val < 64 && Armoured(f, consumed + 6, payload + [SixBitAscii(val)])
  {
    ArmourAt(f, consumed);
    assert val == GroupOf(f[consumed..consumed + 6]);
    Assoc(payload, [SixBitAscii(val)], Armour(f[consumed + 6..]));
  }

  lemma ArmourRest(f: Bits, consumed: nat, remaining: nat, val: nat, payload: string)
    requires 0 < remaining < 6 && consumed + remaining == |f|
    requires val == FromHigh(f[consumed..consumed + remaining]) && Armoured(f, consumed, payload)
    ensures Pow2(6 - remaining) * val < 64 && payload + [SixBitAscii(Pow2(6 - remaining) * val)] == Armour(f)
    ensures Padding(|f|) == 6 - remaining
  {
    var rest := f[consumed..];
    assert f[consumed..consumed + remaining] == rest;
    ArmourLast(rest);
  }

  lemma ArmourWhole(f: Bits, payload: string)
    requires Armoured(f, |f|, payload)
    ensures payload == Armour(f) && Padding(|f|) == 0
  {
    assert f[|f|..] == [];
    assert payload + "" == payload;
  }

  /** The bits of a fragment, from the buffer. */
  ghost predicate IsFragment(f: Bits, bv: Ais.BitVector, start: nat)
    reads bv, bv.bytes
  {
    bv.Valid() && start + |f| <= bv.pos && f == bv.Contents()[start..start + |f|]
  }

  method ReadGroup(bv: Ais.BitVector, start: nat, consumed: nat, len: nat, ghost f: Bits) returns (val: nat)
    requires IsFragment(f, bv, start) && consumed + len <= |f| && len <= 8
    ensures val == FromHigh(f[consumed..consumed + len])
  {
    val := ReadBits(bv.bytes, start + consumed, len);
    Nested(MsbBits(bv.bytes[..]), bv.pos, start, |f|, consumed, len);
  }

  /** The last group, filled up with zero bits. */
  method LastGroup(bv: Ais.BitVector, start: nat, consumed: nat, remaining: nat, ghost f: Bits, payload: string)
    returns (payload': string)
    requires IsFragment(f, bv, start) && consumed + remaining == |f| && 0 < remaining < 6
    requires Armoured(f, consumed, payload)
    ensures payload' == Armour(f) && Padding(|f|) == 6 - remaining
  {
    var val := ReadGroup(bv, start, consumed, remaining, f);
    ArmourRest(f, consumed, remaining, val, payload);
    payload' := payload + [SixBitAscii(Pow2(6 - remaining) * val)];
  }

  /** The characters of one fragment, and the padding of its last one. */
  method ArmourFragment(bv: Ais.BitVector, bitOffset: nat, fragBits: nat, ghost f: Bits) returns (payload: string, padding: nat)
    requires IsFragment(f, bv, bitOffset) && fragBits == |f|
    ensures payload == Armour(f) && padding == Padding(|f|)
  {
    payload := "";
    padding := 0;
    var consumed := 0;
    ArmourStart(f);
    while consumed + 6 <= fragBits
      invariant 0 <= consumed <= fragBits && Armoured(f, consumed, payload)
    {
      var val := ReadGroup(bv, bitOffset, consumed, 6, f);
      ArmourGroup(f, consumed, val, payload);
      payload := payload + [SixBitAscii(val)];
      consumed := consumed + 6;
    }
    if consumed < fragBits {
      payload := LastGroup(bv, bitOffset, consumed, fragBits - consumed, f, payload);
      padding := 6 - (fragBits - consumed);
    } else {
      ArmourWhole(f, payload);
    }
  }

  /** The text of the sentences from the one like `s` on, whose fragment starts at `at`. */
  function LinesFrom(b: Bits, at: nat, s: Sentence): string
    requires at <= |b|
  {
    Lines(SentencesFrom(b, at, s.number, s.fragments, s.talker, s.channel, s.id))
  }

  lemma NextSentence(b: Bits, at: nat, n: nat, s: Sentence, out: string, total: string)
    requires at < |b| && n == Min(|b| - at, 360) && out + LinesFrom(b, at, s) == total
    requires s.payload == Armour(b[at..at + n]) && s.padding == Padding(n)
    ensures (out + Line(Body(s))) + LinesFrom(b, at + n, s.(number := s.number + 1)) == total
    ensures Fragments(|b| - (at + n)) == Fragments(|b| - at) - 1
  {
    assert FragmentAt(b, at) == b[at..at + n];
    var rest := SentencesFrom(b, at + n, s.number + 1, s.fragments, s.talker, s.channel, s.id);
    LinesCons(s, rest);
    Assoc(out, Line(Body(s)), Lines(rest));
  }

  /** A sentence is found by its place, not by what it carries. */
  lemma LinesOf(b: Bits, at: nat, s: Sentence, payload: string, padding: nat)
    requires at <= |b|
    ensures LinesFrom(b, at, s.(payload := payload, padding := padding)) == LinesFrom(b, at, s)
  {
  }

  lemma NoLinesLeft(b: Bits, at: nat, s: Sentence, out: string)
    requires at <= |b| && Fragments(|b| - at) == 0
    ensures out + LinesFrom(b, at, s) == out
  {
    assert at == |b|;
  }

  lemma LinesCons(s: Sentence, ss: seq<Sentence>)
    ensures Lines([s] + ss) == Line(Body(s)) + Lines(ss)
  {
    assert ([s] + ss)[1..] == ss;
  }

  /** Appends one sentence, with its checksum. */
  method AppendAivdm(out: string, body: string) returns (out': string)
    ensures out' == out + Line(body)
  {
    var chk := 0;
    for i := 0 to |body|
      invariant chk == Checksum(body[..i])
    {
      chk := XorBytes(chk, Code(body[i]));
      assert body[..i + 1][..i] == body[..i];
    }
    assert body[..|body|] == body;
    out' := out + ("!" + body + "*" + Hex(chk) + "\r\n");
  }

  /** Appends the sentences for the bits of `bv` to `out`. */
  method EmitSentences(out: string, bv: Ais.BitVector, talker: string, channel: char, seqCounter: byte)
    returns (out': string, seqCounter': byte, emitted: nat)
    requires bv.Valid() && seqCounter < 255
    ensures out' == out + Lines(Sentences(bv.Contents(), talker, channel, seqCounter))
    ensures out <= out'
    ensures Clean(talker) && Clean([channel]) ==>
              Received(out'[|out|..], talker, channel, if emitted > 1 then Some(seqCounter' as nat) else None, bv.Contents())
    ensures emitted == (bv.pos + 359) / 360
    ensures seqCounter' == if emitted > 1 then (seqCounter + 1) % 10 else seqCounter
  {
    out', seqCounter', emitted := out, seqCounter, 0;
    ghost var text := Lines(Sentences(bv.Contents(), talker, channel, seqCounter));
    assert (out + text)[|out|..] == text;
    if Clean(talker) && Clean([channel]) {
      TextReceived(bv.Contents(), talker, channel, seqCounter);
    }
    if bv.pos == 0 {
      return;
    }
    var fragments := (bv.pos + 359) / 360;
    var id := None;
    if fragments > 1 {
      seqCounter' := (seqCounter + 1) % 10;
      id := Some(seqCounter' as nat);
    }
    out' := EmitFragments(out, bv, Sentence(talker, fragments, 1, id, channel, "", 0));
    emitted := fragments;
  }

  /** The loop over the fragments, whose sentences are like `s`. */
  method EmitFragments(out: string, bv: Ais.BitVector, s: Sentence) returns (out': string)
    requires bv.Valid() && s.fragments == Fragments(bv.pos) && s.number == 1
    ensures out' == out + LinesFrom(bv.Contents(), 0, s)
  {
    out' := out;
    ghost var b := bv.Contents();
    ghost var total := out + LinesFrom(b, 0, s);
    var bitOffset := 0;
    var frag := 1;
    while frag <= s.fragments
      invariant 0 <= bitOffset <= bv.pos && 1 <= frag
      invariant Fragments(bv.pos - bitOffset) == s.fragments + 1 - frag
      invariant out' + LinesFrom(b, bitOffset, s.(number := frag)) == total
    {
      var fragBits := Min(bv.pos - bitOffset, 360);
      var payload, padding := ArmourFragment(bv, bitOffset, fragBits, b[bitOffset..bitOffset + fragBits]);
      var sentence := s.(number := frag, payload := payload, padding := padding);
      LinesOf(b, bitOffset, s.(number := frag), payload, padding);
      NextSentence(b, bitOffset, fragBits, sentence, out', total);
      LinesOf(b, bitOffset + fragBits, s.(number := frag + 1), payload, padding);
      out' := AppendAivdm(out', Body(sentence));
      bitOffset := bitOffset + fragBits;
      frag := frag + 1;
    }
    NoLinesLeft(b, bitOffset, s.(number := frag), out');
  }

  // ----- Sentences are determined by their text -----

  /** Neither the separator of fields nor the end of a line. */
  predicate Clean(t: string) { Without(t, ',') && Without(t, '\n') }

  predicate Separable(s: Sentence) {
    && Clean(s.talker) && Clean([s.channel]) && Clean(s.payload)
    && (s.id.Some? ==> s.id.value < 10)
  }

  lemma {:induction false} ArmourClean(b: Bits)
    ensures Clean(Armour(b))
  {
    if |b| >= 6 {
      ArmourClean(b[6..]);
    }
  }

  predicate AllSeparable(ss: seq<Sentence>) { forall i :: 0 <= i < |ss| ==> Separable(ss[i]) }

  /** Every sentence of a message can be told from its text. */
  lemma {:induction false} SentencesSeparable(b: Bits, at: nat, number: nat, total: nat, talker: string, channel: char, id: Option<nat>)
    requires at <= |b| && Clean(talker) && Clean([channel]) && (id.Some? ==> id.value < 10)
    ensures AllSeparable(SentencesFrom(b, at, number, total, talker, channel, id))
    decreases |b| - at
  {
    if at < |b| {
      var f := FragmentAt(b, at);
      ArmourClean(f);
      SentencesSeparable(b, at + |f|, number + 1, total, talker, channel, id);
    }
  }

  lemma IdTextInjective(a: Option<nat>, b: Option<nat>)
    requires IdText(a) == IdText(b)
    ensures a == b
  {
    if a.Some? && b.Some? {
      DigitsInjective(a.value, b.value);
    }
  }

  /** A sentence can be told from its text: number of fragments, fragment number, sequence id,
      channel, payload and padding. */
  lemma BodyInjective(s: Sentence, t: Sentence)
    requires Separable(s) && Separable(t) && Body(s) == Body(t)
    ensures s == t
  {
    var xs, ys := FieldsOf(s), FieldsOf(t);
    FieldsWithoutComma(s);
    FieldsWithoutComma(t);
    JoinInjective(xs, ys, ',');
    assert xs[0] == ys[0] && xs[1] == ys[1] && xs[2] == ys[2] && xs[3] == ys[3];
    assert xs[4] == ys[4] && xs[5] == ys[5] && xs[6] == ys[6];
    assert ("AI" + s.talker)[2..] == s.talker && ("AI" + t.talker)[2..] == t.talker;
    DigitsInjective(s.fragments, t.fragments);
    DigitsInjective(s.number, t.number);
    DigitsInjective(s.padding, t.padding);
    IdTextInjective(s.id, t.id);
    assert [s.channel][0] == [t.channel][0];
  }

  lemma FieldsWithoutComma(s: Sentence)
    requires Separable(s)
    ensures AllWithout(FieldsOf(s), ',')
  {
  }

  // ----- And so are messages -----

  /** A sentence up to the end of its line. */
  function Head(body: string): string { "!" + body + "*" + Hex(Checksum(body)) + "\r" }

  lemma EndOfLine(x: string)
    ensures x + "\r\n" == (x + "\r") + ['\n']
  {
  }

  lemma Inside(body: string, hex: string)
    ensures |"!" + body + "*" + hex + "\r"| == |body| + |hex| + 3
    ensures ("!" + body + "*" + hex + "\r")[1..|body| + 1] == body
  {
  }

  lemma HeadInjective(a: string, b: string)
    requires Head(a) == Head(b)
    ensures a == b
  {
    Inside(a, Hex(Checksum(a)));
    Inside(b, Hex(Checksum(b)));
    assert |a| == |b|;
  }

  lemma WithoutAround(body: string, hex: string, c: char)
    requires Without(body, c) && Without(hex, c) && c !in {'!', '*', '\r'}
    ensures Without("!" + body + "*" + hex + "\r", c)
  {
  }

  lemma HexIsText(x: byte)
    ensures Without(Hex(x), '\n')
  {
  }

  lemma HeadIsLine(body: string)
    requires Without(body, '\n')
    ensures Without(Head(body), '\n')
  {
    HexIsText(Checksum(body));
    WithoutAround(body, Hex(Checksum(body)), '\n');
  }

  lemma LinesHead(ss: seq<Sentence>)
    requires ss != []
    ensures Lines(ss) == Head(Body(ss[0])) + (['\n'] + Lines(ss[1..]))
  {
    var body := Body(ss[0]);
    EndOfLine("!" + body + "*" + Hex(Checksum(body)));
    Assoc(Head(body), ['\n'], Lines(ss[1..]));
  }

  lemma SomeLines(ss: seq<Sentence>)
    ensures Lines(ss) == "" <==> ss == []
  {
  }

  lemma {:induction false} JoinWithout(xs: seq<string>, sep: char, c: char)
    requires AllWithout(xs, c) && sep != c
    ensures Without(Join(xs, sep), c)
  {
    if |xs| > 1 {
      JoinWithout(xs[1..], sep, c);
    }
  }

  lemma BodyIsLine(s: Sentence)
    requires Separable(s)
    ensures Without(Body(s), '\n')
  {
    FieldsWithoutNewline(s);
    JoinWithout(FieldsOf(s), ',', '\n');
  }

  lemma FieldsWithoutNewline(s: Sentence)
    requires Separable(s)
    ensures AllWithout(FieldsOf(s), '\n')
  {
  }

  /** The text of a message determines its sentences: how many they are, and each of them. */
  lemma {:induction false} LinesInjective(ss: seq<Sentence>, ts: seq<Sentence>)
    requires AllSeparable(ss) && AllSeparable(ts) && Lines(ss) == Lines(ts)
    ensures ss == ts
  {
    if ss == [] {
      SomeLines(ts);
    } else if ts == [] {
      SomeLines(ss);
    } else {
      FirstLine(ss, ts, ss[0], ts[0]);
      LinesInjective(ss[1..], ts[1..]);
      SameSequence(ss, ts);
    }
  }

  lemma SameSequence(ss: seq<Sentence>, ts: seq<Sentence>)
    requires ss != [] && ts != [] && ss[0] == ts[0] && ss[1..] == ts[1..]
    ensures ss == ts
  {
    assert ss == [ss[0]] + ss[1..] && ts == [ts[0]] + ts[1..];
  }

  lemma FirstLine(ss: seq<Sentence>, ts: seq<Sentence>, s: Sentence, t: Sentence)
    requires ss != [] && ts != [] && s == ss[0] && t == ts[0] && Separable(s) && Separable(t) && Lines(ss) == Lines(ts)
    ensures s == t && Lines(ss[1..]) == Lines(ts[1..])
  {
    var a, b := Body(s), Body(t);
    BodyIsLine(s);
    BodyIsLine(t);
    HeadIsLine(a);
    HeadIsLine(b);
    LinesHead(ss);
    LinesHead(ts);
    SplitAt('\n', Head(a), Lines(ss[1..]), Head(b), Lines(ts[1..]));
    HeadInjective(a, b);
    BodyInjective(s, t);
  }

  // ----- What a receiver of the text finds -----

  lemma {:induction false} JoinBehind(xs: seq<string>, sep: char, post: string, last: nat)
    requires last < |xs| && last == |xs| - 1
    ensures Join(xs, sep) + post == Join(xs[last := xs[last] + post], sep)
  {
    if last > 0 {
      JoinBehind(xs[1..], sep, post, last - 1);
      assert xs[last := xs[last] + post][1..] == xs[1..][last - 1 := xs[1..][last - 1] + post];
      Assoc(xs[0], [sep] + Join(xs[1..], sep), post);
      Assoc([sep], Join(xs[1..], sep), post);
    }
  }

  lemma JoinBefore(xs: seq<string>, sep: char, pre: string)
    requires |xs| > 1
    ensures pre + Join(xs, sep) == Join(xs[0 := pre + xs[0]], sep)
  {
    assert xs[0 := pre + xs[0]][1..] == xs[1..];
    Assoc(pre, xs[0], [sep] + Join(xs[1..], sep));
  }

  /** The fields of a line: the mark in front of the first, checksum and line end behind the last. */
  function Marked(xs: seq<string>, post: string): seq<string>
    requires |xs| == 7
  {
    xs[0 := "!" + xs[0]][6 := xs[6] + post]
  }

  lemma LineEnd(x: string, hex: string)
    ensures x + "*" + hex + "\r" == x + ("*" + hex + "\r")
  {
  }

  lemma HeadFields(s: Sentence)
    requires Separable(s)
    ensures Split(Head(Body(s)), ',') == Marked(FieldsOf(s), "*" + Hex(Checksum(Body(s))) + "\r")
  {
    var xs, hex := FieldsOf(s), Hex(Checksum(Body(s)));
    var post := "*" + hex + "\r";
    LineEnd("!" + Body(s), hex);
    JoinBefore(xs, ',', "!");
    JoinBehind(xs[0 := "!" + xs[0]], ',', post, 6);
    FieldsWithoutComma(s);
    MarkedWithoutComma(xs, hex, Checksum(Body(s)));
    SplitJoin(Marked(xs, post), ',');
  }

  lemma MarkedWithoutComma(xs: seq<string>, hex: string, x: byte)
    requires |xs| == 7 && AllWithout(xs, ',') && hex == Hex(x)
    ensures AllWithout(Marked(xs, "*" + hex + "\r"), ',')
  {
    HexReads(x);
    var post := "*" + hex + "\r";
    assert Without(post, ',');
    assert Without("!" + xs[0], ',') && Without(xs[6] + post, ',');
  }

  lemma OneDigit(d: nat)
    requires d < 10
    ensures |Digits(d)| == 1
  {
  }

  lemma FieldTexts(s: Sentence, post: string)
    ensures var m := Marked(FieldsOf(s), post);
            && m[0] == "!AI" + s.talker && m[1] == Digits(s.fragments) && m[2] == Digits(s.number)
            && m[3] == IdText(s.id) && m[4] == [s.channel] && m[5] == s.payload && m[6] == Digits(s.padding) + post
  {
    Assoc("!", "AI", s.talker);
    assert "!" + "AI" == "!AI";
  }

  lemma TailText(digit: string, hex: string, tail: string)
    requires |digit| == 1 && |hex| == 2 && tail == digit + ("*" + hex + "\r")
    ensures |tail| == 5 && tail[..1] == digit && tail[1] == '*' && tail[2..4] == hex && tail[4] == '\r'
  {
  }

  lemma HeadBody(body: string, hex: string, line: string)
    requires |hex| == 2 && line == "!" + body + "*" + hex + "\r"
    ensures |line| == |body| + 5 && line[1..|line| - 4] == body
  {
    Inside(body, hex);
  }

  /** The line of a sentence says what the sentence is. */
  lemma HeadReceived(s: Sentence)
    requires Separable(s) && s.padding < 6 && |s.payload| <= 60
    ensures SentenceOk(Head(Body(s)), s.talker, s.fragments, s.number, s.id, s.channel, s.padding)
    ensures PayloadOf(Head(Body(s))) == s.payload
  {
    var hex := Hex(Checksum(Body(s)));
    var post := "*" + hex + "\r";
    HeadFields(s);
    FieldTexts(s, post);
    DigitsRead(s.fragments);
    DigitsRead(s.number);
    DigitsRead(s.padding);
    OneDigit(s.padding);
    if s.id.Some? {
      DigitsRead(s.id.value);
    }
    TailText(Digits(s.padding), hex, Digits(s.padding) + post);
    HeadBody(Body(s), hex, Head(Body(s)));
    ChecksumChecks(Body(s));
  }

  function Heads(ss: seq<Sentence>): (hs: seq<string>)
    ensures |hs| == |ss| && forall k :: 0 <= k < |ss| ==> hs[k] == Head(Body(ss[k]))
  {
    if ss == [] then [] else [Head(Body(ss[0]))] + Heads(ss[1..])
  }

  lemma {:induction false} LinesSplit(ss: seq<Sentence>)
    requires AllSeparable(ss)
    ensures Split(Lines(ss), '\n') == Heads(ss) + [""]
  {
    if ss != [] {
      LinesSplit(ss[1..]);
      LinesHead(ss);
      BodyIsLine(ss[0]);
      HeadIsLine(Body(ss[0]));
      SplitFirst(Head(Body(ss[0])), Lines(ss[1..]), '\n');
      Assoc([Head(Body(ss[0]))], Heads(ss[1..]), [""]);
    }
  }

  predicate Legible(s: Sentence) { Separable(s) && s.padding < 6 && |s.payload| <= 60 }

  lemma {:induction false} HeadsCarry(ss: seq<Sentence>)
    requires forall k :: 0 <= k < |ss| ==> Legible(ss[k])
    ensures BitsOf(Heads(ss)) == Carried(ss)
  {
    if ss != [] {
      HeadReceived(ss[0]);
      HeadsCarry(ss[1..]);
      assert Heads(ss)[1..] == Heads(ss[1..]);
    }
  }

  /** All sentences of a message agree on what they share. */
  lemma {:induction false} SharedFields(b: Bits, at: nat, number: nat, total: nat, talker: string, channel: char, id: Option<nat>, k: nat)
    requires at <= |b| && k < |SentencesFrom(b, at, number, total, talker, channel, id)|
    ensures var s := SentencesFrom(b, at, number, total, talker, channel, id)[k];
            s.talker == talker && s.fragments == total && s.channel == channel && s.id == id && s.padding < 6
    decreases k
  {
    if k > 0 {
      SharedFields(b, at + |FragmentAt(b, at)|, number + 1, total, talker, channel, id, k - 1);
    }
  }

  lemma SentenceReceived(ss: seq<Sentence>, k: nat, talker: string, channel: char, id: Option<nat>)
    requires k < |ss| && WellFragmented(ss) && Numbered(ss, 1) && Legible(ss[k])
    requires ss[k].talker == talker && ss[k].fragments == |ss| && ss[k].channel == channel && ss[k].id == id
    ensures SentenceOk(Heads(ss)[k], talker, |ss|, k + 1, id, channel, if k == |ss| - 1 then LastPadding(ss) else 0)
  {
    HeadReceived(ss[k]);
  }

  lemma MessageReceived(ss: seq<Sentence>, talker: string, channel: char, id: Option<nat>, b: Bits)
    requires AllSeparable(ss) && WellFragmented(ss) && Numbered(ss, 1)
    requires forall k :: 0 <= k < |ss| ==>
               ss[k].talker == talker && ss[k].fragments == |ss| && ss[k].channel == channel && ss[k].id == id && ss[k].padding < 6
    requires LastPadding(ss) <= |Carried(ss)| && Recovered(ss) == b && |ss| == Fragments(|b|)
    ensures Received(Lines(ss), talker, channel, id, b)
  {
    forall k | 0 <= k < |ss|
      ensures Legible(ss[k])
      ensures SentenceOk(Heads(ss)[k], talker, |ss|, k + 1, id, channel, if k == |ss| - 1 then LastPadding(ss) else 0)
    {
      SentenceReceived(ss, k, talker, channel, id);
    }
    HeadsCarry(ss);
    LinesSplit(ss);
    assert MessageOk(Heads(ss), talker, channel, id, b, LastPadding(ss));
    assert (Heads(ss) + [""])[..|ss|] == Heads(ss);
  }

  /** The text of a message, to a receiver that knows nothing else: its sentences in order, each with
      the number of sentences, its own number, the sequence id, the channel, the payload and the
      padding in that order and a checksum that fits; and the payloads carry the message. */
  lemma TextReceived(b: Bits, talker: string, channel: char, counter: byte)
    requires counter < 255 && Clean(talker) && Clean([channel])
    ensures Received(Lines(Sentences(b, talker, channel, counter)), talker, channel,
                     if |b| > 360 then Some((counter as nat + 1) % 10) else None, b)
  {
    var ss, id := Sentences(b, talker, channel, counter), NextId(|b|, counter);
    RecoversContents(b, talker, channel, counter);
    FragmentsInOrder(b, 0, 1, Fragments(|b|), talker, channel, id);
    SentencesSeparable(b, 0, 1, Fragments(|b|), talker, channel, id);
    forall k | 0 <= k < |ss|
      ensures ss[k].talker == talker && ss[k].fragments == |ss| && ss[k].channel == channel && ss[k].id == id && ss[k].padding < 6
    {
      SharedFields(b, 0, 1, Fragments(|b|), talker, channel, id, k);
    }
    MessageReceived(ss, talker, channel, id, b);
  }
}
