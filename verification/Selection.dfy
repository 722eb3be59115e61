/** The generated dispatch over all PGN numbers, the catch-all table, and the variant that a
    frame is decoded with. */
module Selection {
  import opened Wire
  import opened Schema
  import opened Dispatch

  // ----- The generated program -----

  datatype Target = Direct(idx: nat) | Call(code: Code)

  /** One arm for each PGN number, and the catch-all entries with their PGN numbers. */
  datatype Program = Program(arms: map<nat, Target>, fallbacks: seq<(nat, nat)>)

  function VariantAt(pgns: seq<PgnInfo>, i: nat): Variant
    requires i < |pgns|
  {
    Variant(i, pgns[i].fallback, pgns[i].fields)
  }

  /** The variants of `pgn` among the first `n` entries, in declaration order. */
  function VariantsOf(pgns: seq<PgnInfo>, n: nat, pgn: nat): seq<Variant>
    requires n <= |pgns|
  {
    if n == 0 then []
    else VariantsOf(pgns, n - 1, pgn) + if pgns[n - 1].pgn == pgn then [VariantAt(pgns, n - 1)] else []
  }

  function FallbacksOf(pgns: seq<PgnInfo>, n: nat): seq<(nat, nat)>
    requires n <= |pgns|
  {
    if n == 0 then []
    else FallbacksOf(pgns, n - 1) + if pgns[n - 1].fallback then [(pgns[n - 1].pgn, n - 1)] else []
  }

  /** More than one variant, or one with match fields, needs code. */
  predicate NeedsDispatch(vs: seq<Variant>)
    requires vs != []
  {
    |vs| > 1 || Specific(vs[0])
  }

  function TargetOf(vs: seq<Variant>): Target
    requires vs != []
  {
    if NeedsDispatch(vs) then Call(Emit(vs)) else Direct(vs[0].idx)
  }

  /** `program` is what the generator makes of `pgns`. */
  predicate Generated(program: Program, pgns: seq<PgnInfo>) {
    && program.fallbacks == FallbacksOf(pgns, |pgns|)
    && (forall pgn :: pgn in program.arms ==>
          VariantsOf(pgns, |pgns|, pgn) != [] && program.arms[pgn] == TargetOf(VariantsOf(pgns, |pgns|, pgn)))
    && forall i :: 0 <= i < |pgns| ==> pgns[i].pgn in program.arms
  }

  lemma {:induction false} VariantsOfNone(pgns: seq<PgnInfo>, n: nat, pgn: nat)
    requires n <= |pgns|
    ensures VariantsOf(pgns, n, pgn) == [] <==> forall i :: 0 <= i < n ==> pgns[i].pgn != pgn
  {
    if n > 0 {
      VariantsOfNone(pgns, n - 1, pgn);
    }
  }

  method Generate(pgns: seq<PgnInfo>) returns (program: Program)
    ensures Generated(program, pgns)
  {
    var index := Index(pgns);
    var arms: map<nat, Target> := map[];
    var left := index.Keys;
    while left != {}
      invariant left <= index.Keys && arms.Keys == index.Keys - left
      invariant forall pgn :: pgn in arms ==> arms[pgn] == TargetOf(index[pgn])
      decreases |left|
    {
      var pgn :| pgn in left;
      var vs := index[pgn];
      if NeedsDispatch(vs) {
        var code := EmitPerPgnDispatch(vs);
        arms := arms[pgn := Call(code)];
      } else {
        arms := arms[pgn := Direct(vs[0].idx)];
      }
      left := left - {pgn};
    }
    var fallbacks := CollectFallbacks(pgns);
    program := Program(arms, fallbacks);
    AllIndexed(index, pgns);
  }

  lemma AllIndexed(index: map<nat, seq<Variant>>, pgns: seq<PgnInfo>)
    requires Indexes(index, pgns, |pgns|)
    ensures forall i :: 0 <= i < |pgns| ==> pgns[i].pgn in index
  {
    forall i | 0 <= i < |pgns|
      ensures pgns[i].pgn in index
    {
      VariantsOfNone(pgns, |pgns|, pgns[i].pgn);
    }
  }

  ghost predicate Indexes(index: map<nat, seq<Variant>>, pgns: seq<PgnInfo>, n: nat)
    requires n <= |pgns|
  {
    && (forall pgn: nat :: pgn in index <==> VariantsOf(pgns, n, pgn) != [])
    && (forall pgn: nat :: pgn in index ==> index[pgn] == VariantsOf(pgns, n, pgn))
  }

  lemma IndexStep(index: map<nat, seq<Variant>>, pgns: seq<PgnInfo>, n: nat, sofar: seq<Variant>)
    requires n < |pgns| && Indexes(index, pgns, n)
    requires sofar == if pgns[n].pgn in index then index[pgns[n].pgn] else []
    ensures Indexes(index[pgns[n].pgn := sofar + [VariantAt(pgns, n)]], pgns, n + 1)
  {
    var key := pgns[n].pgn;
    assert sofar == VariantsOf(pgns, n, key);
    forall pgn: nat | pgn != key
      ensures VariantsOf(pgns, n + 1, pgn) == VariantsOf(pgns, n, pgn)
    {
    }
  }

  method Index(pgns: seq<PgnInfo>) returns (index: map<nat, seq<Variant>>)
    ensures Indexes(index, pgns, |pgns|)
  {
    index := map[];
    for i := 0 to |pgns|
      invariant Indexes(index, pgns, i)
    {
      var key := pgns[i].pgn;
      var sofar := if key in index then index[key] else [];
      IndexStep(index, pgns, i, sofar);
      index := index[key := sofar + [VariantAt(pgns, i)]];
    }
  }

  method CollectFallbacks(pgns: seq<PgnInfo>) returns (fallbacks: seq<(nat, nat)>)
    ensures fallbacks == FallbacksOf(pgns, |pgns|)
  {
    fallbacks := [];
    for i := 0 to |pgns|
      invariant fallbacks == FallbacksOf(pgns, i)
    {
      if pgns[i].fallback {
        fallbacks := fallbacks + [(pgns[i].pgn, i)];
      }
    }
  }

  // ----- Running it -----

  predicate TargetCompiles(t: Target) { t.Call? ==> Compiles(t.code) }

  function RunDispatch(program: Program, pgn: nat, payload: seq<byte>): Option<nat>
    requires pgn in program.arms ==> TargetCompiles(program.arms[pgn])
  {
    if pgn !in program.arms then None
    else
      match program.arms[pgn]
      case Direct(idx) => Some(idx)
      case Call(code) => Eval(code, payload)
  }

  /** How many leading entries have a PGN number of at most `pgn`: the partition point of a
      table in ascending order. */
  function PartitionPoint(table: seq<(nat, nat)>, pgn: nat): (n: nat)
    ensures n <= |table|
    ensures n < |table| ==> table[n].0 > pgn
  {
    if table == [] || table[0].0 > pgn then 0 else 1 + PartitionPoint(table[1..], pgn)
  }

  function FindCatchall(table: seq<(nat, nat)>, pgn: nat): Option<nat> {
    var i := PartitionPoint(table, pgn);
    if i == 0 then None else Some(table[i - 1].1)
  }

  function PickVariant(program: Program, pgn: nat, payload: seq<byte>): Option<nat>
    requires pgn in program.arms ==> TargetCompiles(program.arms[pgn])
  {
    OrElse(RunDispatch(program, pgn, payload), FindCatchall(program.fallbacks, pgn))
  }

  // ----- What it picks -----

  lemma {:induction false} SingleVariant(vs: seq<Variant>, payload: seq<byte>)
    requires |vs| == 1 && !Specific(vs[0])
    ensures Choose(vs, payload) == Some(vs[0].idx)
  {
    assert First(vs, 0, Matching(payload)) == None;
    assert First(vs, 1, Matching(payload)) == None;
    assert forall b :: First(vs, 0, Unmatched(b)) == None;
    assert forall b :: First(vs, 1, Unmatched(b)) == if vs[0].fallback == b then Some(vs[0].idx) else None;
  }

  /** For every database, PGN number and payload, the generated program compiles and runs to
      the choice of the linear scan over the variants of that PGN number. */
  lemma {:induction false} DispatchIsScan(program: Program, pgns: seq<PgnInfo>, pgn: nat, payload: seq<byte>)
    requires Generated(program, pgns)
    ensures pgn in program.arms ==> TargetCompiles(program.arms[pgn])
    ensures RunDispatch(program, pgn, payload) == Choose(VariantsOf(pgns, |pgns|, pgn), payload)
  {
    var vs := VariantsOf(pgns, |pgns|, pgn);
    VariantsOfNone(pgns, |pgns|, pgn);
    if pgn in program.arms {
      if NeedsDispatch(vs) {
        DispatchPreservesMeaning(vs, payload);
      } else {
        SingleVariant(vs, payload);
      }
    } else {
      assert vs == [];
    }
  }

  /** The declared catch-alls are in ascending order of their PGN numbers. */
  ghost predicate Sorted(pgns: seq<PgnInfo>) {
    forall i, j :: 0 <= i < j < |pgns| && pgns[i].fallback && pgns[j].fallback ==> pgns[i].pgn <= pgns[j].pgn
  }

  /** Entry `i` is the catch-all for `pgn`: no later one, and none with a larger number, is at
      or below `pgn`. */
  ghost predicate IsCatchall(pgns: seq<PgnInfo>, n: nat, pgn: nat, i: nat)
    requires n <= |pgns|
  {
    && i < n && pgns[i].fallback && pgns[i].pgn <= pgn
    && forall j :: 0 <= j < n && pgns[j].fallback && pgns[j].pgn <= pgn ==> j <= i && pgns[j].pgn <= pgns[i].pgn
  }

  ghost predicate NoCatchall(pgns: seq<PgnInfo>, n: nat, pgn: nat)
    requires n <= |pgns|
  {
    forall j :: 0 <= j < n && pgns[j].fallback ==> pgns[j].pgn > pgn
  }

  ghost predicate CatchallIs(pgns: seq<PgnInfo>, n: nat, pgn: nat, r: Option<nat>)
    requires n <= |pgns|
  {
    match r
    case None => NoCatchall(pgns, n, pgn)
    case Some(i) => IsCatchall(pgns, n, pgn, i)
  }

  lemma {:induction false} PartitionSnoc(table: seq<(nat, nat)>, e: (nat, nat), pgn: nat)
    ensures PartitionPoint(table + [e], pgn)
            == if PartitionPoint(table, pgn) == |table| && e.0 <= pgn then |table| + 1 else PartitionPoint(table, pgn)
  {
    if table != [] {
      assert (table + [e])[1..] == table[1..] + [e];
      PartitionSnoc(table[1..], e, pgn);
    } else {
      assert table + [e] == [e];
      assert [e][1..] == [];
    }
  }

  lemma {:induction false} FallbacksBelow(pgns: seq<PgnInfo>, n: nat, k: nat)
    requires n <= |pgns| && k < |FallbacksOf(pgns, n)|
    ensures var e := FallbacksOf(pgns, n)[k]; e.1 < n && pgns[e.1].fallback && pgns[e.1].pgn == e.0
  {
    if k >= |FallbacksOf(pgns, n - 1)| {
    } else {
      FallbacksBelow(pgns, n - 1, k);
    }
  }

  lemma FindSnoc(table: seq<(nat, nat)>, e: (nat, nat), pgn: nat)
    ensures FindCatchall(table + [e], pgn)
            == if PartitionPoint(table, pgn) == |table| && e.0 <= pgn then Some(e.1) else FindCatchall(table, pgn)
  {
    PartitionSnoc(table, e, pgn);
    var i, all := PartitionPoint(table, pgn), table + [e];
    assert all[|table|] == e;
    assert i > 0 ==> all[i - 1] == table[i - 1];
  }

  lemma KeepCatchall(pgns: seq<PgnInfo>, n: nat, pgn: nat, r: Option<nat>)
    requires n < |pgns| && !(pgns[n].fallback && pgns[n].pgn <= pgn)
    requires CatchallIs(pgns, n, pgn, r)
    ensures CatchallIs(pgns, n + 1, pgn, r)
  {
  }

  lemma NewCatchall(pgns: seq<PgnInfo>, n: nat, pgn: nat)
    requires n < |pgns| && pgns[n].fallback && pgns[n].pgn <= pgn && Sorted(pgns)
    ensures IsCatchall(pgns, n + 1, pgn, n)
    ensures PartitionPoint(FallbacksOf(pgns, n), pgn) == |FallbacksOf(pgns, n)|
  {
    var table := FallbacksOf(pgns, n);
    var i := PartitionPoint(table, pgn);
    if i < |table| {
      FallbacksBelow(pgns, n, i);
    }
  }

  lemma NextCatchall(pgns: seq<PgnInfo>, n: nat, pgn: nat, table: seq<(nat, nat)>, r: Option<nat>)
    requires n < |pgns| && Sorted(pgns) && table == FallbacksOf(pgns, n)
    requires r == FindCatchall(table, pgn) && CatchallIs(pgns, n, pgn, r)
    ensures CatchallIs(pgns, n + 1, pgn, FindCatchall(FallbacksOf(pgns, n + 1), pgn))
  {
    FindSnoc(table, (pgns[n].pgn, n), pgn);
    assert FallbacksOf(pgns, n + 1) == if pgns[n].fallback then table + [(pgns[n].pgn, n)] else table;
    if pgns[n].fallback && pgns[n].pgn <= pgn {
      NewCatchall(pgns, n, pgn);
    } else {
      KeepCatchall(pgns, n, pgn, r);
    }
  }

  /** The catch-all is the last declared, and largest, at or below the PGN number. */
  lemma {:induction false} CatchallIsLargest(pgns: seq<PgnInfo>, n: nat, pgn: nat)
    requires n <= |pgns| && Sorted(pgns)
    ensures CatchallIs(pgns, n, pgn, FindCatchall(FallbacksOf(pgns, n), pgn))
  {
    if n > 0 {
      CatchallIsLargest(pgns, n - 1, pgn);
      NextCatchall(pgns, n - 1, pgn, FallbacksOf(pgns, n - 1), FindCatchall(FallbacksOf(pgns, n - 1), pgn));
    }
  }

  /** The variant that a frame is decoded with: the choice among the variants of its PGN number,
      or, when there are none or none of them fits, the largest catch-all at or below it. */
  lemma {:induction false} PickVariantExactly(program: Program, pgns: seq<PgnInfo>, pgn: nat, payload: seq<byte>)
    requires Generated(program, pgns) && Sorted(pgns)
    ensures pgn in program.arms ==> TargetCompiles(program.arms[pgn])
    ensures var choice := Choose(VariantsOf(pgns, |pgns|, pgn), payload);
            var picked := PickVariant(program, pgn, payload);
            if choice.Some? then picked == choice else CatchallIs(pgns, |pgns|, pgn, picked)
  {
    DispatchIsScan(program, pgns, pgn, payload);
    CatchallIsLargest(pgns, |pgns|, pgn);
  }

  // ----- The rule of the documentation -----

  function IsFallback(): Variant -> bool { (v: Variant) => v.fallback }

  /** The rule that the doc comment states: a variant whose match fields hold, else a catch-all
      of the PGN number itself, else one without match fields; the catch-alls of other numbers
      only if the number has no variants. */
  function Documented(pgns: seq<PgnInfo>, pgn: nat, payload: seq<byte>): Option<nat> {
    var vs := VariantsOf(pgns, |pgns|, pgn);
    if vs == [] then FindCatchall(FallbacksOf(pgns, |pgns|), pgn)
    else OrElse(First(vs, |vs|, Matching(payload)), OrElse(First(vs, |vs|, IsFallback()), First(vs, |vs|, Unmatched(false))))
  }

  ghost predicate Has(vs: seq<Variant>, p: Variant -> bool) { exists i :: 0 <= i < |vs| && p(vs[i]) }

  /** There are both a plain variant and a catch-all. */
  ghost predicate PlainAndCatchall(vs: seq<Variant>) { Has(vs, Unmatched(false)) && Has(vs, IsFallback()) }

  /** The PGN number is known, has neither, and a catch-all lies at or below it. */
  ghost predicate CatchallForKnown(pgns: seq<PgnInfo>, pgn: nat, vs: seq<Variant>) {
    && vs != [] && !Has(vs, Unmatched(false)) && !Has(vs, IsFallback())
    && exists i :: 0 <= i < |pgns| && pgns[i].fallback && pgns[i].pgn <= pgn
  }

  /** There is no plain variant, the first catch-all has match fields, and there is another. */
  ghost predicate CatchallPassedOver(vs: seq<Variant>) {
    && !Has(vs, Unmatched(false))
    && exists i, j :: 0 <= i < j < |vs| && vs[i].fallback && Specific(vs[i]) && vs[j].fallback
         && forall h :: 0 <= h < i ==> !vs[h].fallback
  }

  /** The variants of a number are the entries of that number, in the order of their declaration, with
      their flags and fields. */
  lemma {:induction false} VariantIsEntry(pgns: seq<PgnInfo>, n: nat, pgn: nat, k: nat)
    requires n <= |pgns| && k < |VariantsOf(pgns, n, pgn)|
    ensures var v := VariantsOf(pgns, n, pgn)[k];
            v.idx < n && pgns[v.idx].pgn == pgn && v.fallback == pgns[v.idx].fallback && v.fields == pgns[v.idx].fields
    ensures forall j :: 0 <= j < k ==> VariantsOf(pgns, n, pgn)[j].idx < VariantsOf(pgns, n, pgn)[k].idx
  {
    if k < |VariantsOf(pgns, n - 1, pgn)| {
      VariantIsEntry(pgns, n - 1, pgn, k);
    } else {
      forall j | 0 <= j < k
        ensures VariantsOf(pgns, n, pgn)[j].idx < n - 1
      {
        VariantIsEntry(pgns, n - 1, pgn, j);
      }
    }
  }

  lemma {:induction false} EntryIsVariant(pgns: seq<PgnInfo>, n: nat, pgn: nat, x: nat) returns (k: nat)
    requires x < n <= |pgns| && pgns[x].pgn == pgn
    ensures k < |VariantsOf(pgns, n, pgn)| && VariantsOf(pgns, n, pgn)[k].idx == x
  {
    if x == n - 1 {
      k := |VariantsOf(pgns, n - 1, pgn)|;
    } else {
      k := EntryIsVariant(pgns, n - 1, pgn, x);
    }
  }

  lemma FirstHas(vs: seq<Variant>, p: Variant -> bool)
    ensures First(vs, |vs|, p).Some? <==> Has(vs, p)
  {
    FirstExactly(vs, |vs|, p);
  }

  /** Where the first variant with `p` is. */
  lemma FirstAt(vs: seq<Variant>, p: Variant -> bool) returns (i: nat)
    requires Has(vs, p)
    ensures i < |vs| && p(vs[i]) && First(vs, |vs|, p) == Some(vs[i].idx) && forall h :: 0 <= h < i ==> !p(vs[h])
  {
    FirstExactly(vs, |vs|, p);
    FirstHas(vs, p);
    var x := First(vs, |vs|, p).value;
    i :| 0 <= i < |vs| && p(vs[i]) && vs[i].idx == x && forall j :: 0 <= j < i ==> !p(vs[j]);
  }

  /** Variants that differ are different entries. */
  lemma EntriesDiffer(pgns: seq<PgnInfo>, pgn: nat, vs: seq<Variant>, i: nat, j: nat)
    requires vs == VariantsOf(pgns, |pgns|, pgn) && i < |vs| && j < |vs| && vs[i] != vs[j]
    ensures vs[i].idx != vs[j].idx
  {
    VariantIsEntry(pgns, |pgns|, pgn, i);
    VariantIsEntry(pgns, |pgns|, pgn, j);
  }

  /** The first plain variant and the first catch-all are different entries. */
  lemma FirstsDiffer(pgns: seq<PgnInfo>, pgn: nat, vs: seq<Variant>)
    requires vs == VariantsOf(pgns, |pgns|, pgn) && PlainAndCatchall(vs)
    ensures First(vs, |vs|, Unmatched(false)) != First(vs, |vs|, IsFallback())
  {
    var i := FirstAt(vs, Unmatched(false));
    var j := FirstAt(vs, IsFallback());
    EntriesDiffer(pgns, pgn, vs, i, j);
  }

  /** What the code finds for a number with catch-alls and no plain variant: it is the first
      catch-all, unless that is passed over. */
  lemma OwnCatchall(pgns: seq<PgnInfo>, pgn: nat, vs: seq<Variant>, c: Option<nat>, i: nat)
    requires vs == VariantsOf(pgns, |pgns|, pgn) && !Has(vs, Unmatched(false)) && CatchallIs(pgns, |pgns|, pgn, c)
    requires i < |vs| && vs[i].fallback && forall h :: 0 <= h < i ==> !vs[h].fallback
    ensures OrElse(First(vs, |vs|, Unmatched(true)), c) == Some(vs[i].idx) <==> !CatchallPassedOver(vs)
  {
    VariantIsEntry(pgns, |pgns|, pgn, i);
    FirstHas(vs, Unmatched(true));
    if Has(vs, Unmatched(true)) {
      var u := FirstAt(vs, Unmatched(true));
      if Specific(vs[i]) {
        EntriesDiffer(pgns, pgn, vs, i, u);
        assert i < u;
      } else {
        assert Unmatched(true)(vs[i]);
        assert u == i;
      }
    } else {
      assert !Unmatched(true)(vs[i]);
      LastCatchall(pgns, pgn, vs, c, i);
    }
  }

  /** The catch-all of the range is then the last one of the number itself. */
  lemma LastCatchall(pgns: seq<PgnInfo>, pgn: nat, vs: seq<Variant>, c: Option<nat>, i: nat)
    requires vs == VariantsOf(pgns, |pgns|, pgn) && CatchallIs(pgns, |pgns|, pgn, c)
    requires i < |vs| && vs[i].fallback
    ensures c == Some(vs[i].idx) <==> forall j :: i < j < |vs| ==> !vs[j].fallback
  {
    VariantIsEntry(pgns, |pgns|, pgn, i);
    var x := c.value;
    var k := EntryIsVariant(pgns, |pgns|, pgn, x);
    VariantIsEntry(pgns, |pgns|, pgn, k);
    if j :| i < j < |vs| && vs[j].fallback {
      VariantIsEntry(pgns, |pgns|, pgn, j);
    }
  }

  /** The code follows the documented rule if and only if a match decides, or none of three
      situations arises. */
  lemma {:induction false} DocumentedExactly(program: Program, pgns: seq<PgnInfo>, pgn: nat, payload: seq<byte>, vs: seq<Variant>)
    requires Generated(program, pgns) && Sorted(pgns) && vs == VariantsOf(pgns, |pgns|, pgn)
    ensures pgn in program.arms ==> TargetCompiles(program.arms[pgn])
    ensures PickVariant(program, pgn, payload) == Documented(pgns, pgn, payload)
            <==> Has(vs, Matching(payload))
                 || (!PlainAndCatchall(vs) && !CatchallForKnown(pgns, pgn, vs) && !CatchallPassedOver(vs))
  {
    DispatchIsScan(program, pgns, pgn, payload);
    FirstHas(vs, Matching(payload));
    if !Has(vs, Matching(payload)) {
      CatchallIsLargest(pgns, |pgns|, pgn);
      Undecided(pgns, pgn, payload, vs, FindCatchall(FallbacksOf(pgns, |pgns|), pgn));
    }
  }

  lemma Undecided(pgns: seq<PgnInfo>, pgn: nat, payload: seq<byte>, vs: seq<Variant>, c: Option<nat>)
    requires vs == VariantsOf(pgns, |pgns|, pgn) && !Has(vs, Matching(payload))
    requires c == FindCatchall(FallbacksOf(pgns, |pgns|), pgn) && CatchallIs(pgns, |pgns|, pgn, c)
    ensures OrElse(Choose(vs, payload), c) == Documented(pgns, pgn, payload)
            <==> !PlainAndCatchall(vs) && !CatchallForKnown(pgns, pgn, vs) && !CatchallPassedOver(vs)
  {
    FirstHas(vs, Matching(payload));
    FirstHas(vs, Unmatched(false));
    FirstHas(vs, IsFallback());
    FirstHas(vs, Unmatched(true));
    if Has(vs, Unmatched(false)) {
      if Has(vs, IsFallback()) {
        FirstsDiffer(pgns, pgn, vs);
      }
    } else if Has(vs, IsFallback()) {
      var i := FirstAt(vs, IsFallback());
      OwnCatchall(pgns, pgn, vs, c, i);
    } else {
      assert !Has(vs, Unmatched(true));
    }
  }
}
