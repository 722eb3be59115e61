/** The generator of per-PGN dispatch code, the code that it emits, and what that code does. */
module Dispatch {
  import opened Wire
  import opened Bits
  import opened Schema
  import opened Text

  // ----- Variants and the choice among them -----

  datatype Variant = Variant(idx: nat, fallback: bool, fields: seq<FieldInfo>)

  /** A field as it is extracted: offset, length, signedness and value offset. */
  datatype Range = Range(off: nat, len: nat, signed: bool, k: int)

  predicate Usable(f: FieldInfo) { f.bitOffset.Some? && f.bitLength.Some? }

  function RangeOf(f: FieldInfo): Range
    requires Usable(f)
  {
    Range(f.bitOffset.value, f.bitLength.value, f.signed, f.offset)
  }

  /** What the extraction of `r` yields. */
  function ValueAt(payload: seq<byte>, r: Range): Option<int> {
    match Extract(payload, r.off, r.len, r.signed, r.k)
    case None => None
    case Some(x) => Some(x.value)
  }

  /** The payload has the value that match field `f` asks for. */
  predicate Meets(f: FieldInfo, payload: seq<byte>)
    requires f.matchValue.Some?
  {
    Usable(f) && ValueAt(payload, RangeOf(f)) == f.matchValue
  }

  /** A match field is met exactly if it has an offset and a length, and the value there is the one
      asked for. */
  lemma MeetsExactly(f: FieldInfo, payload: seq<byte>)
    requires f.matchValue.Some?
    ensures Meets(f, payload) <==>
              && f.bitOffset.Some? && f.bitLength.Some?
              && var x := Extract(payload, f.bitOffset.value, f.bitLength.value, f.signed, f.offset);
                 x.Some? && x.value.value == f.matchValue.value
  {
  }

  /** A variant that is told apart by match fields. */
  predicate Specific(v: Variant) { exists i :: 0 <= i < |v.fields| && v.fields[i].matchValue.Some? }

  predicate AllMet(v: Variant, payload: seq<byte>) {
    forall i :: 0 <= i < |v.fields| && v.fields[i].matchValue.Some? ==> Meets(v.fields[i], payload)
  }

  /** The first of the first `n` variants that satisfies `p`. */
  function First(vs: seq<Variant>, n: nat, p: Variant -> bool): Option<nat>
    requires n <= |vs|
  {
    if n == 0 then None
    else
      var before := First(vs, n - 1, p);
      if before.Some? then before else if p(vs[n - 1]) then Some(vs[n - 1].idx) else None
  }

  /** `r` is the index of the first of the first `n` variants that satisfies `p`, if any does. */
  predicate IsFirst(vs: seq<Variant>, n: nat, p: Variant -> bool, r: Option<nat>)
    requires n <= |vs|
  {
    match r
    case None => forall i :: 0 <= i < n ==> !p(vs[i])
    case Some(x) => exists i :: 0 <= i < n && p(vs[i]) && vs[i].idx == x && forall j :: 0 <= j < i ==> !p(vs[j])
  }

  lemma {:induction false} FirstExactly(vs: seq<Variant>, n: nat, p: Variant -> bool)
    requires n <= |vs|
    ensures IsFirst(vs, n, p, First(vs, n, p))
  {
    if n > 0 {
      FirstExactly(vs, n - 1, p);
    }
  }

  function OrElse(a: Option<nat>, b: Option<nat>): Option<nat> { if a.Some? then a else b }

  function Matching(payload: seq<byte>): Variant -> bool { v => Specific(v) && AllMet(v, payload) }
  function Unmatched(fallback: bool): Variant -> bool { v => !Specific(v) && v.fallback == fallback }

  /** The linear scan: the first variant in declaration order all of whose match fields hold,
      else the first without match fields that is no catch-all, else the first catch-all. */
  function Choose(vs: seq<Variant>, payload: seq<byte>): Option<nat> {
    OrElse(First(vs, |vs|, Matching(payload)), OrElse(First(vs, |vs|, Unmatched(false)), First(vs, |vs|, Unmatched(true))))
  }

  // ----- Emitted code -----

  datatype Let = Let(name: string, range: Range)
  datatype Term = Never | Equals(name: string, value: int)
  datatype Arm = Arm(cond: seq<Term>, idx: nat)

  /** Bindings of extracted values to names, arms that return a variant, and the final result. */
  datatype Code = Code(lets: seq<Let>, arms: seq<Arm>, tail: Option<nat>)

  type Env = map<string, Option<int>>

  function Bound(lets: seq<Let>): set<string> { set i | 0 <= i < |lets| :: lets[i].name }

  /** The code compiles: every name in a condition is bound. */
  predicate Compiles(code: Code) { forall i :: 0 <= i < |code.arms| ==> Closed(code.arms[i].cond, Bound(code.lets)) }

  predicate Closed(cond: seq<Term>, names: set<string>) {
    forall i :: 0 <= i < |cond| && cond[i].Equals? ==> cond[i].name in names
  }

  /** The bindings in turn; a later one shadows an earlier one of the same name. */
  function RunLets(lets: seq<Let>, payload: seq<byte>, env: Env): (e: Env)
    ensures e.Keys == env.Keys + Bound(lets)
  {
    if lets == [] then env
    else
      assert Bound(lets) == {lets[0].name} + Bound(lets[1..]) by { BoundSplit(lets); }
      RunLets(lets[1..], payload, env[lets[0].name := ValueAt(payload, lets[0].range)])
  }

  lemma BoundSplit(lets: seq<Let>)
    requires lets != []
    ensures Bound(lets) == {lets[0].name} + Bound(lets[1..])
  {
    assert forall i :: 1 <= i < |lets| ==> lets[i] == lets[1..][i - 1];
    forall name | name in Bound(lets[1..])
      ensures name in Bound(lets)
    {
      var i :| 0 <= i < |lets[1..]| && lets[1..][i].name == name;
      assert lets[i + 1].name == name;
    }
    assert lets[0].name in Bound(lets);
  }

  predicate TermHolds(t: Term, env: Env) { t.Equals? && t.name in env && env[t.name] == Some(t.value) }

  predicate CondHolds(cond: seq<Term>, env: Env) { forall i :: 0 <= i < |cond| ==> TermHolds(cond[i], env) }

  /** The first `n` arms in turn: the first whose condition holds returns. */
  function RunArms(arms: seq<Arm>, n: nat, env: Env): Option<nat>
    requires n <= |arms|
  {
    if n == 0 then None
    else
      var before := RunArms(arms, n - 1, env);
      if before.Some? then before
      else if CondHolds(arms[n - 1].cond, env) then Some(arms[n - 1].idx)
      else None
  }

  function Eval(code: Code, payload: seq<byte>): Option<nat>
    requires Compiles(code)
  {
    OrElse(RunArms(code.arms, |code.arms|, RunLets(code.lets, payload, map[])), code.tail)
  }

  // ----- Names -----

  function SignedDecimal(k: int): string { if k < 0 then "n" + Digits(-k) else Digits(k) }

  function NameParts(r: Range): (xs: seq<string>)
    ensures |xs| == 5
  {
    ["m", Digits(r.off), Digits(r.len), if r.signed then "s" else "u", SignedDecimal(r.k)]
  }

  function VarName(r: Range): string { Join(NameParts(r), '_') }

  lemma SignedDecimalInjective(j: int, k: int)
    requires SignedDecimal(j) == SignedDecimal(k)
    ensures j == k
  {
    assert j < 0 ==> SignedDecimal(j)[0] == 'n';
    assert k < 0 ==> SignedDecimal(k)[0] == 'n';
    if j < 0 && k < 0 {
      assert SignedDecimal(j)[1..] == Digits(-j) && SignedDecimal(k)[1..] == Digits(-k);
      DigitsInjective(-j, -k);
    } else if j >= 0 && k >= 0 {
      DigitsInjective(j, k);
    }
  }

  lemma PartsWithoutBar(r: Range)
    ensures AllWithout(NameParts(r), '_')
  {
  }

  /** Distinct ranges have distinct names. */
  lemma VarNameInjective(q: Range, r: Range)
    requires VarName(q) == VarName(r)
    ensures q == r
  {
    var xs, ys := NameParts(q), NameParts(r);
    PartsWithoutBar(q);
    PartsWithoutBar(r);
    JoinInjective(xs, ys, '_');
    assert xs[1] == ys[1] && xs[2] == ys[2] && xs[3] == ys[3] && xs[4] == ys[4];
    DigitsInjective(q.off, r.off);
    DigitsInjective(q.len, r.len);
    SignedDecimalInjective(q.k, r.k);
    assert xs[3][0] == ys[3][0];
  }

  // ----- The sorted set of ranges -----

  predicate Less(a: Range, b: Range) {
    if a.off != b.off then a.off < b.off
    else if a.len != b.len then a.len < b.len
    else if a.signed != b.signed then b.signed
    else a.k < b.k
  }

  ghost predicate Ascending(rs: seq<Range>) { forall i, j :: 0 <= i < j < |rs| ==> Less(rs[i], rs[j]) }

  function Insert(rs: seq<Range>, r: Range): (out: seq<Range>)
    ensures forall q :: q in out <==> q in rs || q == r
  {
    if rs == [] then [r]
    else if rs[0] == r then rs
    else if Less(r, rs[0]) then [r] + rs
    else [rs[0]] + Insert(rs[1..], r)
  }

  lemma LessTransitive(a: Range, b: Range, c: Range)
    requires Less(a, b) && Less(b, c)
    ensures Less(a, c)
  {
  }

  ghost predicate AllAbove(rs: seq<Range>, r: Range) { forall q :: q in rs ==> Less(r, q) }

  lemma AscendingCons(r: Range, rs: seq<Range>)
    requires Ascending(rs) && AllAbove(rs, r)
    ensures Ascending([r] + rs)
  {
    var all := [r] + rs;
    forall i, j | 0 <= i < j < |all|
      ensures Less(all[i], all[j])
    {
      assert all[j] == rs[j - 1] && rs[j - 1] in rs;
      if i > 0 {
        assert all[i] == rs[i - 1];
      }
    }
  }

  lemma AscendingUncons(rs: seq<Range>)
    requires rs != [] && Ascending(rs)
    ensures Ascending(rs[1..]) && AllAbove(rs[1..], rs[0])
  {
    var rest := rs[1..];
    forall q | q in rest
      ensures Less(rs[0], q)
    {
      var i :| 0 <= i < |rest| && rest[i] == q;
      assert rs[i + 1] == q;
    }
    forall i, j | 0 <= i < j < |rest|
      ensures Less(rest[i], rest[j])
    {
      assert rest[i] == rs[i + 1] && rest[j] == rs[j + 1];
    }
  }

  lemma {:induction false} InsertAscending(rs: seq<Range>, r: Range)
    requires Ascending(rs)
    ensures Ascending(Insert(rs, r))
  {
    if rs == [] || rs[0] == r {
    } else {
      var head, rest := rs[0], rs[1..];
      AscendingUncons(rs);
      if Less(r, head) {
        forall q | q in rs
          ensures Less(r, q)
        {
          if q != head {
            LessTransitive(r, head, q);
          }
        }
        AscendingCons(r, rs);
      } else {
        InsertAscending(rest, r);
        AscendingCons(head, Insert(rest, r));
      }
    }
  }

  // ----- The generator -----

  function AddField(rs: seq<Range>, f: FieldInfo): seq<Range> {
    if f.matchValue.Some? && Usable(f) then Insert(rs, RangeOf(f)) else rs
  }

  /** The ranges of the first `n` fields, on top of `rs`. */
  function FieldRanges(rs: seq<Range>, fields: seq<FieldInfo>, n: nat): seq<Range>
    requires n <= |fields|
  {
    if n == 0 then rs else AddField(FieldRanges(rs, fields, n - 1), fields[n - 1])
  }

  function Ranges(vs: seq<Variant>, n: nat): seq<Range>
    requires n <= |vs|
  {
    if n == 0 then [] else FieldRanges(Ranges(vs, n - 1), vs[n - 1].fields, |vs[n - 1].fields|)
  }

  function TermOf(f: FieldInfo): Term
    requires f.matchValue.Some?
  {
    if Usable(f) then Equals(VarName(RangeOf(f)), f.matchValue.value) else Never
  }

  /** The condition over the match fields among the first `n`. */
  function Cond(fields: seq<FieldInfo>, n: nat): seq<Term>
    requires n <= |fields|
  {
    if n == 0 then []
    else Cond(fields, n - 1) + if fields[n - 1].matchValue.Some? then [TermOf(fields[n - 1])] else []
  }

  function ArmOf(v: Variant): seq<Arm> {
    var cond := Cond(v.fields, |v.fields|);
    if cond == [] then [] else [Arm(cond, v.idx)]
  }

  function Arms(vs: seq<Variant>, n: nat): seq<Arm>
    requires n <= |vs|
  {
    if n == 0 then [] else Arms(vs, n - 1) + ArmOf(vs[n - 1])
  }

  function Lets(rs: seq<Range>, n: nat): (lets: seq<Let>)
    requires n <= |rs|
    ensures |lets| == n && forall i :: 0 <= i < n ==> lets[i] == Let(VarName(rs[i]), rs[i])
  {
    if n == 0 then []
    else
      var before, r := Lets(rs, n - 1), rs[n - 1];
      before + [Let(VarName(r), r)]
  }

  function Emit(vs: seq<Variant>): Code {
    var rs := Ranges(vs, |vs|);
    Code(Lets(rs, |rs|), Arms(vs, |vs|), OrElse(First(vs, |vs|, Unmatched(false)), First(vs, |vs|, Unmatched(true))))
  }

  lemma {:induction false} CondNonempty(fields: seq<FieldInfo>, n: nat)
    requires n <= |fields|
    ensures Cond(fields, n) != [] <==> exists i :: 0 <= i < n && fields[i].matchValue.Some?
  {
    if n > 0 {
      CondNonempty(fields, n - 1);
      if fields[n - 1].matchValue.Some? {
        assert Cond(fields, n) != [];
      }
    }
  }

  method EmitPerPgnDispatch(vs: seq<Variant>) returns (code: Code)
    ensures code == Emit(vs)
  {
    var ranges := CollectRanges(vs);
    var lets: seq<Let> := [];
    for i := 0 to |ranges|
      invariant lets == Lets(ranges, i)
    {
      lets := lets + [Let(VarName(ranges[i]), ranges[i])];
    }
    var arms, tail := EmitArms(vs);
    return Code(lets, arms, tail);
  }

  /** One round of the loop over the variants. */
  lemma NextVariant(vs: seq<Variant>, i: nat, cond: seq<Term>)
    requires i < |vs| && cond == Cond(vs[i].fields, |vs[i].fields|)
    ensures Arms(vs, i + 1) == Arms(vs, i) + if cond == [] then [] else [Arm(cond, vs[i].idx)]
    ensures forall b :: First(vs, i + 1, Unmatched(b))
                        == OrElse(First(vs, i, Unmatched(b)), if cond == [] && vs[i].fallback == b then Some(vs[i].idx) else None)
  {
    CondNonempty(vs[i].fields, |vs[i].fields|);
    forall b
      ensures Unmatched(b)(vs[i]) <==> cond == [] && vs[i].fallback == b
    {
    }
  }

  method EmitArms(vs: seq<Variant>) returns (arms: seq<Arm>, tail: Option<nat>)
    ensures arms == Arms(vs, |vs|)
    ensures tail == OrElse(First(vs, |vs|, Unmatched(false)), First(vs, |vs|, Unmatched(true)))
  {
    arms := [];
    var specificNoMatch, catchallNoMatch := None, None;
    for i := 0 to |vs|
      invariant arms == Arms(vs, i)
      invariant specificNoMatch == First(vs, i, Unmatched(false))
      invariant catchallNoMatch == First(vs, i, Unmatched(true))
    {
      var cond := Condition(vs[i].fields);
      NextVariant(vs, i, cond);
      if cond == [] {
        if vs[i].fallback {
          if catchallNoMatch.None? {
            catchallNoMatch := Some(vs[i].idx);
          }
        } else if specificNoMatch.None? {
          specificNoMatch := Some(vs[i].idx);
        }
      } else {
        arms := arms + [Arm(cond, vs[i].idx)];
      }
    }
    return arms, OrElse(specificNoMatch, catchallNoMatch);
  }

  method CollectRanges(vs: seq<Variant>) returns (ranges: seq<Range>)
    ensures ranges == Ranges(vs, |vs|)
  {
    ranges := [];
    for i := 0 to |vs|
      invariant ranges == Ranges(vs, i)
    {
      var fields := vs[i].fields;
      for j := 0 to |fields|
        invariant ranges == FieldRanges(Ranges(vs, i), fields, j)
      {
        if fields[j].matchValue.Some? && Usable(fields[j]) {
          ranges := Insert(ranges, RangeOf(fields[j]));
        }
      }
    }
  }

  method Condition(fields: seq<FieldInfo>) returns (cond: seq<Term>)
    ensures cond == Cond(fields, |fields|)
  {
    cond := [];
    for i := 0 to |fields|
      invariant cond == Cond(fields, i)
    {
      if fields[i].matchValue.Some? {
        cond := cond + [TermOf(fields[i])];
      }
    }
  }

  // ----- What the ranges are -----

  /** Field `f` of one of the variants has the range `r` and takes part in a match. */
  predicate Uses(f: FieldInfo, r: Range) { f.matchValue.Some? && Usable(f) && RangeOf(f) == r }

  predicate FieldsUse(fields: seq<FieldInfo>, n: nat, r: Range)
    requires n <= |fields|
  {
    exists j :: 0 <= j < n && Uses(fields[j], r)
  }

  lemma {:induction false} FieldRangesHold(rs: seq<Range>, fields: seq<FieldInfo>, n: nat)
    requires n <= |fields| && Ascending(rs)
    ensures Ascending(FieldRanges(rs, fields, n))
    ensures forall r :: r in FieldRanges(rs, fields, n) <==> r in rs || FieldsUse(fields, n, r)
  {
    if n > 0 {
      FieldRangesHold(rs, fields, n - 1);
      var f, before := fields[n - 1], FieldRanges(rs, fields, n - 1);
      if f.matchValue.Some? && Usable(f) {
        InsertAscending(before, RangeOf(f));
      }
      forall r
        ensures FieldsUse(fields, n, r) <==> FieldsUse(fields, n - 1, r) || Uses(f, r)
      {
        if FieldsUse(fields, n - 1, r) {
          var j :| 0 <= j < n - 1 && Uses(fields[j], r);
          assert Uses(fields[j], r);
        }
      }
    }
  }

  predicate VariantsUse(vs: seq<Variant>, n: nat, r: Range)
    requires n <= |vs|
  {
    exists i :: 0 <= i < n && FieldsUse(vs[i].fields, |vs[i].fields|, r)
  }

  /** The bindings are the ranges of the match fields, each exactly once. */
  lemma {:induction false} RangesExact(vs: seq<Variant>, n: nat)
    requires n <= |vs|
    ensures Ascending(Ranges(vs, n))
    ensures forall r :: r in Ranges(vs, n) <==> VariantsUse(vs, n, r)
  {
    if n > 0 {
      RangesExact(vs, n - 1);
      var fields := vs[n - 1].fields;
      FieldRangesHold(Ranges(vs, n - 1), fields, |fields|);
      forall r
        ensures VariantsUse(vs, n, r) <==> VariantsUse(vs, n - 1, r) || FieldsUse(fields, |fields|, r)
      {
        if VariantsUse(vs, n - 1, r) {
          var i :| 0 <= i < n - 1 && FieldsUse(vs[i].fields, |vs[i].fields|, r);
          assert FieldsUse(vs[i].fields, |vs[i].fields|, r);
        }
      }
    }
  }

  // ----- The emitted code does what the scan does -----

  ghost predicate Named(lets: seq<Let>) { forall i :: 0 <= i < |lets| ==> lets[i].name == VarName(lets[i].range) }

  predicate IsBound(env: Env, r: Range, payload: seq<byte>) {
    VarName(r) in env && env[VarName(r)] == ValueAt(payload, r)
  }

  predicate Lists(lets: seq<Let>, r: Range) { exists i :: 0 <= i < |lets| && lets[i].range == r }

  lemma BindOne(env: Env, l: Let, r: Range, payload: seq<byte>)
    requires l.name == VarName(l.range) && (IsBound(env, r, payload) || l.range == r)
    ensures IsBound(env[l.name := ValueAt(payload, l.range)], r, payload)
  {
    if l.name == VarName(r) {
      VarNameInjective(l.range, r);
    }
  }

  lemma ListsRest(lets: seq<Let>, r: Range)
    requires lets != [] && Lists(lets, r) && lets[0].range != r
    ensures Lists(lets[1..], r)
  {
    var i :| 0 <= i < |lets| && lets[i].range == r;
    assert lets[1..][i - 1].range == r;
  }

  lemma {:induction false} LetsBind(lets: seq<Let>, payload: seq<byte>, env: Env, r: Range)
    requires Named(lets) && (IsBound(env, r, payload) || Lists(lets, r))
    ensures IsBound(RunLets(lets, payload, env), r, payload)
  {
    if lets != [] {
      var first := lets[0];
      if IsBound(env, r, payload) || first.range == r {
        BindOne(env, first, r, payload);
      } else {
        ListsRest(lets, r);
      }
      assert Named(lets[1..]);
      LetsBind(lets[1..], payload, env[first.name := ValueAt(payload, first.range)], r);
    }
  }

  /** Every one of the ranges is bound, under its name, to its value. */
  predicate Holds(env: Env, rs: seq<Range>, payload: seq<byte>) {
    rs == [] || (IsBound(env, rs[0], payload) && Holds(env, rs[1..], payload))
  }

  lemma {:induction false} HoldsFor(env: Env, rs: seq<Range>, payload: seq<byte>, r: Range)
    requires Holds(env, rs, payload) && r in rs
    ensures IsBound(env, r, payload)
  {
    if rs[0] != r {
      HoldsFor(env, rs[1..], payload, r);
    }
  }

  lemma {:induction false} HoldsAll(env: Env, rs: seq<Range>, payload: seq<byte>)
    requires forall r :: r in rs ==> IsBound(env, r, payload)
    ensures Holds(env, rs, payload)
  {
    if rs != [] {
      HoldsAll(env, rs[1..], payload);
    }
  }

  lemma LetsHold(vs: seq<Variant>, payload: seq<byte>)
    ensures Holds(RunLets(Emit(vs).lets, payload, map[]), Ranges(vs, |vs|), payload)
  {
    var rs := Ranges(vs, |vs|);
    var lets := Lets(rs, |rs|);
    forall r | r in rs
      ensures IsBound(RunLets(lets, payload, map[]), r, payload)
    {
      var i :| 0 <= i < |rs| && rs[i] == r;
      assert lets[i].range == r;
      LetsBind(lets, payload, map[], r);
    }
    HoldsAll(RunLets(lets, payload, map[]), rs, payload);
  }

  predicate FieldBound(env: Env, f: FieldInfo, payload: seq<byte>) {
    f.matchValue.Some? && Usable(f) ==> IsBound(env, RangeOf(f), payload)
  }

  lemma {:induction false} CondMeans(fields: seq<FieldInfo>, n: nat, env: Env, payload: seq<byte>)
    requires n <= |fields| && forall j :: 0 <= j < n ==> FieldBound(env, fields[j], payload)
    ensures Closed(Cond(fields, n), env.Keys)
    ensures CondHolds(Cond(fields, n), env)
            <==> forall j :: 0 <= j < n && fields[j].matchValue.Some? ==> Meets(fields[j], payload)
  {
    if n > 0 {
      CondMeans(fields, n - 1, env, payload);
      var f := fields[n - 1];
      assert FieldBound(env, f, payload);
      if f.matchValue.Some? {
        var t := TermOf(f);
        assert Cond(fields, n) == Cond(fields, n - 1) + [t];
        assert TermHolds(t, env) <==> Meets(f, payload);
        CondSnoc(Cond(fields, n - 1), t, env);
      } else {
        assert Cond(fields, n) == Cond(fields, n - 1);
      }
    }
  }

  lemma CondSnoc(cond: seq<Term>, t: Term, env: Env)
    ensures CondHolds(cond + [t], env) == (CondHolds(cond, env) && TermHolds(t, env))
    ensures Closed(cond, env.Keys) && (t.Equals? ==> t.name in env) ==> Closed(cond + [t], env.Keys)
  {
    var all := cond + [t];
    assert all[|cond|] == t;
    assert forall i :: 0 <= i < |cond| ==> all[i] == cond[i];
  }

  lemma {:induction false} RunArmsPrefix(arms: seq<Arm>, more: seq<Arm>, n: nat, env: Env)
    requires n <= |arms|
    ensures RunArms(arms + more, n, env) == RunArms(arms, n, env)
  {
    if n > 0 {
      RunArmsPrefix(arms, more, n - 1, env);
      assert (arms + more)[n - 1] == arms[n - 1];
    }
  }

  lemma VariantMeans(vs: seq<Variant>, k: nat, env: Env, payload: seq<byte>)
    requires k < |vs| && Holds(env, Ranges(vs, |vs|), payload)
    ensures var cond := Cond(vs[k].fields, |vs[k].fields|);
            && Closed(cond, env.Keys)
            && (cond != []) == Specific(vs[k])
            && CondHolds(cond, env) == AllMet(vs[k], payload)
  {
    var fields := vs[k].fields;
    RangesExact(vs, |vs|);
    forall j | 0 <= j < |fields|
      ensures FieldBound(env, fields[j], payload)
    {
      if fields[j].matchValue.Some? && Usable(fields[j]) {
        assert Uses(fields[j], RangeOf(fields[j]));
        assert FieldsUse(fields, |fields|, RangeOf(fields[j]));
        assert VariantsUse(vs, |vs|, RangeOf(fields[j]));
        HoldsFor(env, Ranges(vs, |vs|), payload, RangeOf(fields[j]));
      }
    }
    CondNonempty(fields, |fields|);
    CondMeans(fields, |fields|, env, payload);
  }

  /** The arm of `v` is taken exactly if `p` holds of it. */
  predicate Taken(v: Variant, env: Env, p: Variant -> bool) {
    p(v) == (Cond(v.fields, |v.fields|) != [] && CondHolds(Cond(v.fields, |v.fields|), env))
  }

  lemma NextArm(v: Variant, arms: seq<Arm>, env: Env, p: Variant -> bool)
    requires Taken(v, env, p)
    ensures RunArms(arms + ArmOf(v), |arms + ArmOf(v)|, env)
            == OrElse(RunArms(arms, |arms|, env), if p(v) then Some(v.idx) else None)
  {
    RunArmsPrefix(arms, ArmOf(v), |arms|, env);
    if ArmOf(v) == [] {
      assert arms + ArmOf(v) == arms;
    } else {
      assert (arms + ArmOf(v))[|arms|] == ArmOf(v)[0];
    }
  }

  predicate AllTaken(vs: seq<Variant>, n: nat, env: Env, p: Variant -> bool)
    requires n <= |vs|
  {
    n == 0 || (AllTaken(vs, n - 1, env, p) && Taken(vs[n - 1], env, p))
  }

  lemma {:induction false} TakenUpTo(vs: seq<Variant>, n: nat, env: Env, p: Variant -> bool)
    requires n <= |vs| && forall k :: 0 <= k < |vs| ==> Taken(vs[k], env, p)
    ensures AllTaken(vs, n, env, p)
  {
    if n > 0 {
      TakenUpTo(vs, n - 1, env, p);
    }
  }

  lemma {:induction false} ArmsMean(vs: seq<Variant>, n: nat, env: Env, p: Variant -> bool, arms: seq<Arm>)
    requires n <= |vs| && AllTaken(vs, n, env, p) && arms == Arms(vs, n)
    ensures RunArms(arms, |arms|, env) == First(vs, n, p)
  {
    if n > 0 {
      var before := Arms(vs, n - 1);
      ArmsMean(vs, n - 1, env, p, before);
      NextArm(vs[n - 1], before, env, p);
    }
  }

  predicate ArmsClosed(arms: seq<Arm>, names: set<string>) {
    forall i :: 0 <= i < |arms| ==> Closed(arms[i].cond, names)
  }

  predicate VariantClosed(v: Variant, names: set<string>) { Closed(Cond(v.fields, |v.fields|), names) }

  lemma {:induction false} ArmsAreClosed(vs: seq<Variant>, n: nat, names: set<string>)
    requires n <= |vs| && forall k :: 0 <= k < |vs| ==> VariantClosed(vs[k], names)
    ensures ArmsClosed(Arms(vs, n), names)
  {
    if n > 0 {
      ArmsAreClosed(vs, n - 1, names);
      assert VariantClosed(vs[n - 1], names);
    }
  }

  /** For every list of variants and every payload, the emitted code compiles and chooses what
      the linear scan chooses. */
  lemma {:induction false} DispatchPreservesMeaning(vs: seq<Variant>, payload: seq<byte>)
    ensures Compiles(Emit(vs)) && Eval(Emit(vs), payload) == Choose(vs, payload)
  {
    var code := Emit(vs);
    var env := RunLets(code.lets, payload, map[]);
    LetsHold(vs, payload);
    forall k | 0 <= k < |vs|
      ensures Taken(vs[k], env, Matching(payload)) && VariantClosed(vs[k], env.Keys)
    {
      VariantMeans(vs, k, env, payload);
    }
    TakenUpTo(vs, |vs|, env, Matching(payload));
    ArmsMean(vs, |vs|, env, Matching(payload), code.arms);
    ArmsAreClosed(vs, |vs|, env.Keys);
    assert env.Keys == Bound(code.lets);
  }

  /** Each extraction that any variant asks for is done, and done once. */
  lemma BindingsExact(vs: seq<Variant>)
    ensures var lets := Emit(vs).lets;
            && (forall i, j :: 0 <= i < j < |lets| ==> lets[i].name != lets[j].name)
            && forall r :: Lists(lets, r) <==> VariantsUse(vs, |vs|, r)
  {
    var rs := Ranges(vs, |vs|);
    var lets := Lets(rs, |rs|);
    RangesExact(vs, |vs|);
    forall i, j | 0 <= i < j < |lets|
      ensures lets[i].name != lets[j].name
    {
      assert Less(rs[i], rs[j]);
      if lets[i].name == lets[j].name {
        VarNameInjective(rs[i], rs[j]);
      }
    }
    forall r
      ensures Lists(lets, r) <==> r in rs
    {
      if r in rs {
        var i :| 0 <= i < |rs| && rs[i] == r;
        assert lets[i].range == r;
      }
    }
  }
}
