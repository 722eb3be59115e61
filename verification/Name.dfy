/** The 64-bit ISO 11783-5 NAME: packed by its builder, and packed again from the decoded
    fields of an address claim. */
module Name {
  import opened Wire
  import opened BitStrings
  import opened Bits

  // ----- Fields side by side -----

  /** A field of `w` bits that holds `v`. */
  datatype Part = Part(w: nat, v: nat)

  predicate Fits(p: Part) { p.v < Pow2(p.w) }
  predicate AllFit(ps: seq<Part>) { forall k :: 0 <= k < |ps| ==> Fits(ps[k]) }

  function Packed(ps: seq<Part>): BitStrings.Bits {
    if ps == [] then [] else LowBits(ps[0].v, ps[0].w) + Packed(ps[1..])
  }

  /** Where field `k` starts. */
  function Start(ps: seq<Part>, k: nat): nat
    requires k <= |ps|
  {
    if k == 0 then 0 else ps[0].w + Start(ps[1..], k - 1)
  }

  /** `v` shifted left by `at` bits. */
  function At(v: nat, at: nat): nat { v * Pow2(at) }

  /** The fields, each shifted to its place from bit `at` on, and combined. Fields that fit
      their widths do not overlap, so the bitwise or of the original is a sum. */
  function Shifted(ps: seq<Part>, at: nat): nat {
    if ps == [] then 0 else At(ps[0].v, at) + Shifted(ps[1..], at + ps[0].w)
  }

  lemma {:induction false} ShiftedIsPacked(ps: seq<Part>, at: nat)
    requires AllFit(ps)
    ensures Shifted(ps, at) == Pow2(at) * FromBits(Packed(ps))
  {
    if ps != [] {
      var p, rest := ps[0], ps[1..];
      ShiftedIsPacked(rest, at + p.w);
      assert Fits(p);
      FromConcat(LowBits(p.v, p.w), Packed(rest));
      FromLowExact(p.v, p.w);
      PowAdd(at, p.w);
      Distribute(Pow2(at), p.v, Pow2(p.w), FromBits(Packed(rest)));
    }
  }

  lemma Distribute(a: nat, v: nat, b: nat, x: nat)
    ensures a * (v + b * x) == v * a + (a * b) * x
  {
    assert a * (b * x) == (a * b) * x;
  }

  /** The fields behind the first one, moved by its width. */
  lemma RestSlice(head: BitStrings.Bits, tail: BitStrings.Bits, all: BitStrings.Bits, at: nat, own: BitStrings.Bits)
    requires all == head + tail && at + |own| <= |tail| && tail[at..at + |own|] == own
    ensures |head| + at + |own| <= |all| && all[|head| + at..|head| + at + |own|] == own
  {
    RightSlice(head, tail, at, |own|);
  }

  lemma {:induction false} PackedSlice(ps: seq<Part>, k: nat, start: nat, own: BitStrings.Bits, all: BitStrings.Bits)
    requires k < |ps| && start == Start(ps, k) && own == LowBits(ps[k].v, ps[k].w) && all == Packed(ps)
    ensures start + |own| <= |all| && all[start..start + |own|] == own
  {
    var head, tail := LowBits(ps[0].v, ps[0].w), Packed(ps[1..]);
    if k == 0 {
      assert all[..|head|] == head;
    } else {
      PackedSlice(ps[1..], k - 1, Start(ps[1..], k - 1), own, tail);
      RestSlice(head, tail, all, Start(ps[1..], k - 1), own);
    }
  }

  lemma RightSlice(a: BitStrings.Bits, b: BitStrings.Bits, at: nat, n: nat)
    requires at + n <= |b|
    ensures (a + b)[|a| + at..|a| + at + n] == b[at..at + n]
  {
  }

  lemma {:induction false} StartTotal(ps: seq<Part>)
    ensures |Packed(ps)| == Start(ps, |ps|)
  {
    if ps != [] {
      StartTotal(ps[1..]);
    }
  }

  predicate SameWidths(ps: seq<Part>, qs: seq<Part>) {
    |ps| == |qs| && forall k :: 0 <= k < |ps| ==> ps[k].w == qs[k].w
  }

  lemma {:induction false} SameStarts(ps: seq<Part>, qs: seq<Part>, k: nat)
    requires k <= |ps| && SameWidths(ps, qs)
    ensures Start(ps, k) == Start(qs, k)
  {
    if k > 0 {
      SameStarts(ps[1..], qs[1..], k - 1);
    }
  }

  lemma PackedValue(ps: seq<Part>)
    requires AllFit(ps)
    ensures FromBits(Packed(ps)) == Shifted(ps, 0) && |Packed(ps)| == Start(ps, |ps|)
    ensures LowBits(Shifted(ps, 0), Start(ps, |ps|)) == Packed(ps)
  {
    ShiftedIsPacked(ps, 0);
    StartTotal(ps);
    LowFrom(Packed(ps));
  }

  lemma SamePacked(ps: seq<Part>, qs: seq<Part>)
    requires AllFit(ps) && AllFit(qs) && SameWidths(ps, qs) && Shifted(ps, 0) == Shifted(qs, 0)
    ensures Packed(ps) == Packed(qs)
  {
    PackedValue(ps);
    PackedValue(qs);
    SameStarts(ps, qs, |ps|);
  }

  lemma SamePart(ps: seq<Part>, qs: seq<Part>, k: nat)
    requires AllFit(ps) && AllFit(qs) && SameWidths(ps, qs) && Packed(ps) == Packed(qs) && k < |ps|
    ensures ps[k] == qs[k]
  {
    SameStarts(ps, qs, k);
    PackedSlice(ps, k, Start(ps, k), LowBits(ps[k].v, ps[k].w), Packed(ps));
    PackedSlice(qs, k, Start(qs, k), LowBits(qs[k].v, qs[k].w), Packed(qs));
    assert Fits(ps[k]) && Fits(qs[k]);
    LowInjective(ps[k].v, qs[k].v, ps[k].w);
  }

  /** Two rows of fields of the same widths that combine to the same number are the same. */
  lemma ShiftedInjective(ps: seq<Part>, qs: seq<Part>)
    requires AllFit(ps) && AllFit(qs) && SameWidths(ps, qs) && Shifted(ps, 0) == Shifted(qs, 0)
    ensures ps == qs
  {
    SamePacked(ps, qs);
    forall k | 0 <= k < |ps|
      ensures ps[k] == qs[k]
    {
      SamePart(ps, qs, k);
    }
  }

  // ----- Numbers as little-endian bytes -----

  lemma {:induction false} BytesValue(data: seq<byte>)
    ensures FromBits(BytesBits(data)) == FromLeBytes(data)
  {
    if data != [] {
      BytesValue(data[1..]);
      FromConcat(LowBits(data[0], BYTE), BytesBits(data[1..]));
      Pow2Eight();
      FromLowExact(data[0], 8);
    }
  }

  // ----- The NAME -----

  datatype Name = Name(
    uniqueNumber: u32,
    manufacturerCode: nat,
    deviceInstance: byte,
    deviceFunction: byte,
    deviceClass: byte,
    systemInstance: byte,
    industryGroup: byte,
    arbitraryAddressCapable: bool)

  /** The widths of the fields of a NAME, from the low end; field 5 is the spare bit. */
  function Widths(): (ws: seq<nat>)
    ensures |ws| == 10
  {
    [21, 11, 3, 5, 8, 1, 7, 4, 3, 1]
  }

  const SPARE := 5
  const NAME_BYTES: nat := 8

  /** The fields of a NAME, masked to their widths. */
  function Masked(n: Name): (vs: seq<nat>)
    ensures |vs| == 10
  {
    [n.uniqueNumber % 0x20_0000, n.manufacturerCode % 0x800, n.deviceInstance % 8, n.deviceInstance / 8,
     n.deviceFunction, 0, n.deviceClass % 128, n.systemInstance % 16, n.industryGroup % 8,
     if n.arbitraryAddressCapable then 1 else 0]
  }

  /** The values as fields of the widths of a NAME. */
  function Parts(vs: seq<nat>): (ps: seq<Part>)
    requires |vs| == 10
    ensures |ps| == 10 && forall k :: 0 <= k < 10 ==> ps[k].w == Widths()[k] && ps[k].v == vs[k]
  {
    [Part(21, vs[0]), Part(11, vs[1]), Part(3, vs[2]), Part(5, vs[3]), Part(8, vs[4]),
     Part(1, vs[5]), Part(7, vs[6]), Part(4, vs[7]), Part(3, vs[8]), Part(1, vs[9])]
  }

  /** Where the fields of a NAME start. */
  function Starts(): (s: seq<nat>)
    ensures |s| == 10
  {
    [0, 21, 32, 35, 40, 48, 49, 56, 60, 63]
  }

  /** Where the first `k` fields end. */
  function End(k: nat): nat
    requires k <= 10
  {
    if k == 10 then 64 else Starts()[k]
  }

  lemma Ends(k: nat)
    requires k < 10
    ensures End(k) == Starts()[k] && End(k + 1) == Starts()[k] + Widths()[k]
  {
  }

  /** The first `k` values in place. */
  function PlacedUpTo(vs: seq<nat>, k: nat): nat
    requires k <= 10 == |vs|
  {
    if k == 0 then 0 else PlacedUpTo(vs, k - 1) + At(vs[k - 1], Starts()[k - 1])
  }

  /** The values, each shifted to the start of its field. */
  function Placed(vs: seq<nat>): nat
    requires |vs| == 10
  {
    PlacedUpTo(vs, 10)
  }

  /** The packed NAME. */
  function ToU64(n: Name): nat { Placed(Masked(n)) }

  lemma ShiftedHead(p: Part, rest: seq<Part>, at: nat)
    ensures Shifted([p] + rest, at) == At(p.v, at) + Shifted(rest, at + p.w)
  {
    assert ([p] + rest)[1..] == rest;
  }

  lemma Peel(ps: seq<Part>, k: nat, at: nat)
    requires k < |ps|
    ensures Shifted(ps[k..], at) == At(ps[k].v, at) + Shifted(ps[k + 1..], at + ps[k].w)
  {
    assert ps[k..] == [ps[k]] + ps[k + 1..];
    ShiftedHead(ps[k], ps[k + 1..], at);
  }

  /** Field `j`, which ends at `next`. */
  lemma PlaceOne(vs: seq<nat>, j: nat, at: nat, next: nat, p: Part)
    requires |vs| == 10 && j < 10 && at == End(j) && next == End(j + 1) && p == Parts(vs)[j]
    ensures PlacedUpTo(vs, j + 1) == PlacedUpTo(vs, j) + At(p.v, at) && next == at + p.w
  {
    Ends(j);
  }

  lemma {:induction false} PlacedSplit(vs: seq<nat>, ps: seq<Part>, k: nat, end: nat)
    requires |vs| == 10 && ps == Parts(vs) && k <= 10 && end == End(k)
    ensures PlacedUpTo(vs, k) + Shifted(ps[k..], end) == Shifted(ps, 0)
  {
    if k == 0 {
      assert ps[0..] == ps;
    } else {
      var j := k - 1;
      var at := End(j);
      PlacedSplit(vs, ps, j, at);
      PlaceOne(vs, j, at, end, ps[j]);
      Peel(ps, j, at);
    }
  }

  lemma PlacedIsShifted(vs: seq<nat>)
    requires |vs| == 10
    ensures Shifted(Parts(vs), 0) == Placed(vs)
  {
    PlacedSplit(vs, Parts(vs), 10, 64);
  }

  predicate FitAll(vs: seq<nat>)
    requires |vs| == 10
  {
    forall k :: 0 <= k < 10 ==> vs[k] < Pow2(Widths()[k])
  }

  lemma Powers()
    ensures Pow2(1) == 2 && Pow2(3) == 8 && Pow2(4) == 16 && Pow2(5) == 32 && Pow2(7) == 128
    ensures Pow2(8) == 256 && Pow2(11) == 0x800 && Pow2(21) == 0x20_0000
  {
    assert Pow2(2) == 4;
    PowAdd(3, 8);
    PowAdd(5, 5);
    PowAdd(10, 11);
  }

  lemma MaskedFit(n: Name)
    ensures FitAll(Masked(n))
  {
    Powers();
  }

  /** Values that fit their fields are determined by the packed number, and it has 64 bits. */
  lemma PlacedInjective(vs: seq<nat>, us: seq<nat>)
    requires |vs| == |us| == 10 && FitAll(vs) && FitAll(us)
    ensures Placed(vs) == Placed(us) <==> vs == us
  {
    if Placed(vs) == Placed(us) {
      PlacedIsShifted(vs);
      PlacedIsShifted(us);
      var ps, qs := Parts(vs), Parts(us);
      assert AllFit(ps) && AllFit(qs);
      ShiftedInjective(ps, qs);
      assert forall k :: 0 <= k < 10 ==> vs[k] == ps[k].v && us[k] == qs[k].v;
    }
  }

  /** The fields of two NAMEs agree, as far as they have room. */
  predicate SameFields(m: Name, n: Name) {
    && m.uniqueNumber % 0x20_0000 == n.uniqueNumber % 0x20_0000
    && m.manufacturerCode % 0x800 == n.manufacturerCode % 0x800
    && m.deviceInstance == n.deviceInstance && m.deviceFunction == n.deviceFunction
    && m.deviceClass % 128 == n.deviceClass % 128 && m.systemInstance % 16 == n.systemInstance % 16
    && m.industryGroup % 8 == n.industryGroup % 8
    && m.arbitraryAddressCapable == n.arbitraryAddressCapable
  }

  lemma SameMasked(m: Name, n: Name)
    ensures Masked(m) == Masked(n) <==> SameFields(m, n)
  {
    var a, b := Masked(m), Masked(n);
    assert a == b <==> forall k :: 0 <= k < 10 ==> a[k] == b[k];
    assert a[0] == m.uniqueNumber % 0x20_0000 && b[0] == n.uniqueNumber % 0x20_0000;
    assert a[1] == m.manufacturerCode % 0x800 && b[1] == n.manufacturerCode % 0x800;
    assert a[2] == m.deviceInstance % 8 && b[2] == n.deviceInstance % 8;
    assert a[3] == m.deviceInstance / 8 && b[3] == n.deviceInstance / 8;
    assert a[4] == m.deviceFunction && b[4] == n.deviceFunction;
    assert a[6] == m.deviceClass % 128 && b[6] == n.deviceClass % 128;
    assert a[7] == m.systemInstance % 16 && b[7] == n.systemInstance % 16;
    assert a[8] == m.industryGroup % 8 && b[8] == n.industryGroup % 8;
    assert (a[9] == b[9]) == (m.arbitraryAddressCapable == n.arbitraryAddressCapable);
  }

  /** Two NAMEs pack alike exactly when their fields agree as far as they have room. */
  lemma ToU64Injective(m: Name, n: Name)
    ensures ToU64(m) == ToU64(n) <==> SameFields(m, n)
  {
    MaskedFit(m);
    MaskedFit(n);
    PlacedInjective(Masked(m), Masked(n));
    SameMasked(m, n);
  }

  // ----- Where each field is -----

  lemma StartPowers()
    ensures Pow2(0) == 1 && Pow2(21) == 0x20_0000 && Pow2(32) == 0x1_0000_0000 && Pow2(35) == 0x8_0000_0000
    ensures Pow2(40) == 0x100_0000_0000 && Pow2(48) == 0x1_0000_0000_0000 && Pow2(49) == 0x2_0000_0000_0000
    ensures Pow2(56) == 0x100_0000_0000_0000 && Pow2(60) == 0x1000_0000_0000_0000 && Pow2(63) == 0x8000_0000_0000_0000
  {
    Powers();
    assert Pow2(3) == 8 && Pow2(4) == 16;
    PowAdd(21, 11);
    PowAdd(32, 3);
    PowAdd(32, 8);
    PowAdd(40, 8);
    PowAdd(48, 8);
    PowAdd(56, 4);
    PowAdd(60, 3);
    var n := 48;
    assert Pow2(n + 1) == 2 * Pow2(n);
  }

  /** What a field counts for: two to the bit that it starts at. */
  function Counts(): (cs: seq<nat>)
    ensures |cs| == 10
  {
    [1, 0x20_0000, 0x1_0000_0000, 0x8_0000_0000, 0x100_0000_0000, 0x1_0000_0000_0000, 0x2_0000_0000_0000,
     0x100_0000_0000_0000, 0x1000_0000_0000_0000, 0x8000_0000_0000_0000]
  }

  lemma CountIsPower(k: nat, at: nat)
    requires k < 10 && at == Starts()[k]
    ensures Counts()[k] == Pow2(at)
  {
    StartPowers();
  }

  function Counted(vs: seq<nat>, k: nat): nat
    requires k <= 10 == |vs|
  {
    if k == 0 then 0 else Counted(vs, k - 1) + vs[k - 1] * Counts()[k - 1]
  }

  lemma {:induction false} PlacedCounted(vs: seq<nat>, k: nat)
    requires k <= 10 == |vs|
    ensures PlacedUpTo(vs, k) == Counted(vs, k)
  {
    if k > 0 {
      PlacedCounted(vs, k - 1);
      CountIsPower(k - 1, Starts()[k - 1]);
    }
  }

  lemma CountedExactly(vs: seq<nat>)
    requires |vs| == 10
    ensures Counted(vs, 10)
            == vs[0] + vs[1] * 0x20_0000 + vs[2] * 0x1_0000_0000 + vs[3] * 0x8_0000_0000 + vs[4] * 0x100_0000_0000
               + vs[5] * 0x1_0000_0000_0000 + vs[6] * 0x2_0000_0000_0000 + vs[7] * 0x100_0000_0000_0000
               + vs[8] * 0x1000_0000_0000_0000 + vs[9] * 0x8000_0000_0000_0000
  {
    assert Counted(vs, 1) == vs[0];
    assert Counted(vs, 2) == vs[0] + vs[1] * 0x20_0000;
    assert Counted(vs, 4) == Counted(vs, 2) + vs[2] * 0x1_0000_0000 + vs[3] * 0x8_0000_0000;
    assert Counted(vs, 6) == Counted(vs, 4) + vs[4] * 0x100_0000_0000 + vs[5] * 0x1_0000_0000_0000;
    assert Counted(vs, 8) == Counted(vs, 6) + vs[6] * 0x2_0000_0000_0000 + vs[7] * 0x100_0000_0000_0000;
  }

  /** The layout of a NAME: unique number from bit 0, manufacturer from 21, device instance from
      32, function from 40, class from 49, system instance from 56, industry group from 60, and
      the arbitrary-address bit on top. */
  lemma ToU64Exactly(n: Name)
    ensures ToU64(n)
            == n.uniqueNumber % 0x20_0000 + n.manufacturerCode % 0x800 * 0x20_0000 + n.deviceInstance as int * 0x1_0000_0000
               + n.deviceFunction as int * 0x100_0000_0000 + n.deviceClass as int % 128 * 0x2_0000_0000_0000
               + n.systemInstance as int % 16 * 0x100_0000_0000_0000 + n.industryGroup as int % 8 * 0x1000_0000_0000_0000
               + if n.arbitraryAddressCapable then 0x8000_0000_0000_0000 else 0
  {
    var vs := Masked(n);
    PlacedCounted(vs, 10);
    CountedExactly(vs);
    assert vs[2] * 0x1_0000_0000 + vs[3] * 0x8_0000_0000 == n.deviceInstance as int * 0x1_0000_0000;
  }

  // ----- The NAME of a decoded claim -----

  /** The patterns that the schema reserves: unknown, out of range and reserved. */
  function Sentinels(k: nat): set<nat> {
    match k
    case 0 => {2097149, 2097150, 2097151}
    case 1 => {2045, 2046, 2047}
    case 4 => {253, 254, 255}
    case 6 => {126, 127}
    case 7 => {14, 15}
    case 8 => {7}
    case _ => {}
  }

  /** The fields that are looked up in a table of names; the others are numbers. */
  predicate IsLookup(k: nat) { k in {1, 4, 6, 8, 9} }

  /** The pattern `raw` of field `k` stands for no value: it is a sentinel, and no table names
      it. `named` holds the fields whose pattern a table names. */
  predicate Lost(k: nat, raw: nat, named: set<nat>) {
    raw in Sentinels(k) && !(IsLookup(k) && k in named)
  }

  /** The number that field `k` of a claim decodes to, if to any. */
  function DecodedField(data: seq<byte>, k: nat, named: set<nat>): Option<nat>
    requires k < 10
  {
    match Extract(data, Starts()[k], Widths()[k], false, 0)
    case None => None
    case Some(x) => if Lost(k, x.raw, named) then None else Some(x.raw)
  }

  function IsoField(data: seq<byte>, k: nat, named: set<nat>): nat
    requires k < 10
  {
    match DecodedField(data, k, named)
    case None => 0
    case Some(v) => v % Pow2(Widths()[k])
  }

  function IsoFields(data: seq<byte>, named: set<nat>): (vs: seq<nat>)
    ensures |vs| == 10
  {
    [IsoField(data, 0, named), IsoField(data, 1, named), IsoField(data, 2, named), IsoField(data, 3, named),
     IsoField(data, 4, named), 0, IsoField(data, 6, named), IsoField(data, 7, named), IsoField(data, 8, named),
     IsoField(data, 9, named)]
  }

  /** The NAME of an address claim, packed again from its decoded fields; the spare bit is
      taken as 0. */
  function IsoName(data: seq<byte>, named: set<nat>): nat { Placed(IsoFields(data, named)) }

  /** The patterns of the ten fields of an eight-byte payload. */
  function Patterns(data: seq<byte>): (vs: seq<nat>)
    requires |data| >= 8
    ensures |vs| == 10
    ensures forall k :: 0 <= k < 10 ==> vs[k] == Pattern(data, k)
  {
    [Pattern(data, 0), Pattern(data, 1), Pattern(data, 2), Pattern(data, 3), Pattern(data, 4),
     Pattern(data, 5), Pattern(data, 6), Pattern(data, 7), Pattern(data, 8), Pattern(data, 9)]
  }

  function Pattern(data: seq<byte>, k: nat): nat
    requires |data| >= 8 && k < 10
  {
    FromBits(BytesBits(data)[Starts()[k]..Starts()[k] + Widths()[k]])
  }

  lemma PatternsFit(data: seq<byte>)
    requires |data| >= 8
    ensures FitAll(Patterns(data))
  {
    forall k | 0 <= k < 10
      ensures Patterns(data)[k] < Pow2(Widths()[k])
    {
      FromBound(BytesBits(data)[Starts()[k]..Starts()[k] + Widths()[k]]);
    }
  }

  /** Adding field `k` to the fields before it. */
  lemma Grow(all: BitStrings.Bits, start: nat, w: nat)
    requires start + w <= |all|
    ensures FromBits(all[0..start + w]) == FromBits(all[0..start]) + At(FromBits(all[start..start + w]), start)
  {
    FromAdjacent(all, 0, start, w);
    AtProduct(FromBits(all[start..start + w]), start);
  }

  lemma AtProduct(v: nat, at: nat)
    ensures At(v, at) == Pow2(at) * v
  {
  }

  /** Pattern `j` among the bits `all`. */
  lemma PatternOne(data: seq<byte>, vs: seq<nat>, all: BitStrings.Bits, j: nat, at: nat, next: nat)
    requires |data| >= 8 && vs == Patterns(data) && all == BytesBits(data) && j < 10 && at == End(j) && next == End(j + 1)
    ensures at <= next <= |all| && vs[j] == FromBits(all[at..next])
    ensures PlacedUpTo(vs, j + 1) == PlacedUpTo(vs, j) + At(vs[j], at)
  {
    Ends(j);
    assert vs[j] == Pattern(data, j);
  }

  lemma {:induction false} PatternsUpTo(data: seq<byte>, vs: seq<nat>, all: BitStrings.Bits, k: nat, end: nat)
    requires |data| >= 8 && vs == Patterns(data) && all == BytesBits(data) && k <= 10 && end == End(k)
    ensures end <= |all| && FromBits(all[0..end]) == PlacedUpTo(vs, k)
  {
    if k > 0 {
      var j := k - 1;
      var at := End(j);
      PatternsUpTo(data, vs, all, j, at);
      PatternOne(data, vs, all, j, at, end);
      Grow(all, at, end - at);
    }
  }

  /** The first eight bytes, as a number, are the patterns of their fields in place. */
  lemma PatternsPlaced(data: seq<byte>)
    requires |data| >= 8
    ensures Placed(Patterns(data)) == FromLeBytes(data[..8])
  {
    PatternsUpTo(data, Patterns(data), BytesBits(data), 10, 64);
    FirstBytes(data);
    BytesValue(data[..8]);
  }

  lemma FirstBytes(data: seq<byte>)
    requires |data| >= 8
    ensures BytesBits(data)[0..64] == BytesBits(data[..8])
  {
    BytesConcat(data[..8], data[8..]);
    assert data == data[..8] + data[8..];
  }

  lemma IsoFieldIs(data: seq<byte>, k: nat, named: set<nat>)
    requires |data| >= 8 && k < 10
    ensures IsoField(data, k, named) == if Lost(k, Pattern(data, k), named) then 0 else Pattern(data, k)
  {
    ExtractRaw(data, Starts()[k], Widths()[k], false, 0);
    DivModUnique(Pattern(data, k), Pow2(Widths()[k]), 0, Pattern(data, k));
  }

  /** Field `k` survives: the spare bit is clear, any other field is not lost. */
  predicate KeptAt(data: seq<byte>, k: nat, named: set<nat>)
    requires |data| >= 8 && k < 10
  {
    if k == SPARE then Pattern(data, k) == 0 else !Lost(k, Pattern(data, k), named)
  }

  /** Every field survives. */
  predicate Presentable(data: seq<byte>, named: set<nat>)
    requires |data| >= 8
  {
    forall k :: 0 <= k < 10 ==> KeptAt(data, k, named)
  }

  lemma IsoFieldKept(data: seq<byte>, k: nat, named: set<nat>)
    requires |data| >= 8 && k < 10
    ensures IsoFields(data, named)[k] < Pow2(Widths()[k])
    ensures IsoFields(data, named)[k] == Pattern(data, k) <==> KeptAt(data, k, named)
  {
    PatternsFit(data);
    assert Pattern(data, k) == Patterns(data)[k];
    if k != SPARE {
      IsoFieldAt(data, k, named);
      IsoFieldIs(data, k, named);
      if Lost(k, Pattern(data, k), named) {
        LostIsPositive(k, Pattern(data, k), named);
      }
    }
  }

  lemma IsoFieldAt(data: seq<byte>, k: nat, named: set<nat>)
    requires k < 10 && k != SPARE
    ensures IsoFields(data, named)[k] == IsoField(data, k, named)
  {
  }

  lemma IsoFieldsKept(data: seq<byte>, named: set<nat>)
    requires |data| >= 8
    ensures FitAll(IsoFields(data, named))
    ensures IsoFields(data, named) == Patterns(data) <==> Presentable(data, named)
  {
    var vs := IsoFields(data, named);
    forall k | 0 <= k < 10
      ensures vs[k] < Pow2(Widths()[k])
      ensures vs[k] == Pattern(data, k) <==> KeptAt(data, k, named)
    {
      IsoFieldKept(data, k, named);
    }
    AllKept(vs, data, named);
  }

  lemma AllKept(vs: seq<nat>, data: seq<byte>, named: set<nat>)
    requires |data| >= 8 && |vs| == 10
    requires forall k :: 0 <= k < 10 ==> (vs[k] == Pattern(data, k) <==> KeptAt(data, k, named))
    ensures vs == Patterns(data) <==> Presentable(data, named)
  {
    var ps := Patterns(data);
    assert vs == ps <==> forall k :: 0 <= k < 10 ==> vs[k] == ps[k];
    assert ps[SPARE] == Pattern(data, SPARE);
  }

  lemma LostIsPositive(k: nat, raw: nat, named: set<nat>)
    requires Lost(k, raw, named)
    ensures raw > 0
  {
  }

  /** The NAME packed from the decoded fields of a claim is the little-endian number in its
      payload exactly when its spare bit is clear and no field holds a sentinel without a name. */
  lemma {:induction false} IsoNameExactly(data: seq<byte>, named: set<nat>)
    requires |data| >= 8
    ensures IsoName(data, named) == FromLeBytes(data[..8]) <==> Presentable(data, named)
  {
    PatternsFit(data);
    IsoFieldsKept(data, named);
    PatternsPlaced(data);
    PlacedInjective(IsoFields(data, named), Patterns(data));
  }

  // ----- The NAME that a builder packs, on the wire and back -----

  lemma ToU64Bound(n: Name)
    ensures ToU64(n) < 0x1_0000_0000_0000_0000
  {
    MaskedFit(n);
    var ps := Parts(Masked(n));
    PlacedIsShifted(Masked(n));
    assert AllFit(ps);
    PackedValue(ps);
    FromBound(Packed(ps));
    StartIsEnd(ps, |ps|);
    Pow64();
  }

  lemma {:induction false} StartNext(ps: seq<Part>, k: nat)
    requires k < |ps|
    ensures Start(ps, k + 1) == Start(ps, k) + ps[k].w
  {
    if k > 0 {
      StartNext(ps[1..], k - 1);
    }
  }

  lemma {:induction false} StartIsEnd(ps: seq<Part>, k: nat)
    requires |ps| == 10 && (forall j :: 0 <= j < 10 ==> ps[j].w == Widths()[j]) && k <= 10
    ensures Start(ps, k) == End(k)
  {
    if k > 0 {
      var j := k - 1;
      StartIsEnd(ps, j);
      StartNext(ps, j);
      Ends(j);
    }
  }

  /** The ten patterns in the bytes of a packed NAME are its masked fields. */
  lemma PatternsOfName(n: Name)
    ensures Patterns(LeBytes(ToU64(n), 8)) == Masked(n)
  {
    var data := LeBytes(ToU64(n), 8);
    ToU64Bound(n);
    NameBytesInverse(ToU64(n));
    PatternsPlaced(data);
    assert data[..8] == data;
    PatternsFit(data);
    MaskedFit(n);
    PlacedInjective(Patterns(data), Masked(n));
  }

  /** None of the ten values is a sentinel without a name. */
  predicate NoneLost(vs: seq<nat>, named: set<nat>)
    requires |vs| == 10
  {
    forall k :: 0 <= k < 10 ==> !Lost(k, vs[k], named)
  }

  lemma PresentableMeansNoneLost(data: seq<byte>, vs: seq<nat>, named: set<nat>)
    requires |data| >= 8 && |vs| == 10 && Patterns(data) == vs && vs[SPARE] == 0
    ensures Presentable(data, named) <==> NoneLost(vs, named)
  {
    assert Pattern(data, SPARE) == vs[SPARE];
    forall k | 0 <= k < 10
      ensures KeptAt(data, k, named) <==> !Lost(k, vs[k], named)
    {
      assert Pattern(data, k) == vs[k];
    }
  }

  /** A receiver of the packed NAME computes the same NAME. */
  predicate Agrees(name: u64, named: set<nat>) { IsoName(LeBytes(name, NAME_BYTES), named) == name }

  lemma AgreementOf(name: u64, vs: seq<nat>, named: set<nat>)
    requires |vs| == 10 && vs[SPARE] == 0 && Patterns(LeBytes(name, NAME_BYTES)) == vs
    ensures Agrees(name, named) <==> NoneLost(vs, named)
  {
    var data := LeBytes(name, NAME_BYTES);
    NameBytesInverse(name);
    IsoNameExactly(data, named);
    assert data[..8] == data;
    PresentableMeansNoneLost(data, vs, named);
  }

  /** The NAME of a claim is the one that its sender packed exactly when none of the masked
      fields is a sentinel without a name. */
  lemma NameAgreement(n: Name, named: set<nat>)
    ensures ToU64(n) < 0x1_0000_0000_0000_0000
    ensures Agrees(ToU64(n), named) <==> NoneLost(Masked(n), named)
  {
    ToU64Bound(n);
    PatternsOfName(n);
    AgreementOf(ToU64(n), Masked(n), named);
  }

  /** System instance 15 is such a pattern: the receiver takes it for 0. */
  lemma SystemInstanceLost(n: Name, named: set<nat>)
    requires n.systemInstance == 15
    ensures ToU64(n) < 0x1_0000_0000_0000_0000 && !Agrees(ToU64(n), named)
  {
    NameAgreement(n, named);
    InstanceFifteen(n, Masked(n), named);
  }

  lemma InstanceFifteen(n: Name, vs: seq<nat>, named: set<nat>)
    requires n.systemInstance == 15 && vs == Masked(n)
    ensures !NoneLost(vs, named)
  {
    assert vs[7] == 15 % 16;
    InstanceIsLost(vs, named);
  }

  lemma InstanceIsLost(vs: seq<nat>, named: set<nat>)
    requires |vs| == 10 && vs[7] == 15
    ensures !NoneLost(vs, named)
  {
    LostInstance(vs[7], named);
  }

  lemma LostInstance(raw: nat, named: set<nat>)
    requires raw == 15
    ensures Lost(7, raw, named)
  {
  }
}
