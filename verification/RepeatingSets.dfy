/** A repeating set in the midst of a message: how often it is decoded, and where everything is. */
module RepeatingSets {
  import opened Wire
  import opened Schema
  import opened Decode

  // ----- The count -----

  /** Field `k` is the first decoded one of the given order. */
  predicate FirstOfOrder(out: seq<Decoded>, order: nat, k: nat) {
    k < |out| && out[k].order == order && forall h :: 0 <= h < k ==> out[h].order != order
  }

  /** What a value counts: nothing, unless it is a number that is not negative. Counts have 32 bits:
      integers are cut to them, physical numbers stop at their end. */
  predicate Counts(v: FieldValue, count: Option<nat>) {
    match v
    case Integer(n) => if n < 0 then count == None else count == Some(n % 0x1_0000_0000)
    case Number(x) =>
      if x < 0.0 then count == None
      else count.Some? && if x >= 4294967295.0 then count.value == 0xffff_ffff
                          else count.value as real <= x < count.value as real + 1.0
    case _ => count == None
  }

  /** The count of a set is what the first decoded field of the order of its count field counts, and
      there is none if there is no such field. */
  predicate CountOf(out: seq<Decoded>, countField: Option<nat>, count: Option<nat>) {
    if countField.Some? && exists k :: 0 <= k < |out| && out[k].order == countField.value then
      exists k :: 0 <= k < |out| && FirstOfOrder(out, countField.value, k) && Counts(out[k].value, count)
    else count == None
  }

  lemma {:induction false} CountFromExactly(out: seq<Decoded>, order: nat)
    ensures (forall k :: 0 <= k < |out| ==> out[k].order != order) ==> CountFrom(out, order) == None
    ensures forall k: nat :: FirstOfOrder(out, order, k) ==> Counts(out[k].value, CountFrom(out, order))
  {
    if out != [] {
      CountFromExactly(out[1..], order);
      forall k: nat | FirstOfOrder(out, order, k)
        ensures Counts(out[k].value, CountFrom(out, order))
      {
        if k > 0 {
          assert FirstOfOrder(out[1..], order, k - 1) by {
            assert forall h :: 0 <= h < k - 1 ==> out[1..][h] == out[h + 1];
          }
        }
      }
    }
  }

  lemma {:induction false} SomeFirst(out: seq<Decoded>, order: nat, k: nat) returns (first: nat)
    requires k < |out| && out[k].order == order
    ensures FirstOfOrder(out, order, first)
    decreases k
  {
    if h :| 0 <= h < k && out[h].order == order {
      first := SomeFirst(out, order, h);
    } else {
      first := k;
    }
  }

  lemma RepeatCountExactly(out: seq<Decoded>, countField: Option<nat>)
    ensures CountOf(out, countField, RepeatCount(out, countField))
  {
    if countField.Some? {
      CountFromExactly(out, countField.value);
      if k :| 0 <= k < |out| && out[k].order == countField.value {
        var first := SomeFirst(out, countField.value, k);
      }
    }
  }

  // ----- The fields before the set, and after -----

  /** The fields before `i` have been decoded one after the other. */
  function Before(info: PgnInfo, data: seq<byte>, i: nat): Progress
    requires i <= |info.fields|
  {
    if i == 0 then NOTHING else FieldStep(info.fields[i - 1], data, Before(info, data, i - 1))
  }

  /** The only set, be it the first or the second of the schema, starts at field `i`. */
  predicate OnlySetAt(info: PgnInfo, rs: RepeatingSet, i: nat, number: nat) {
    && ((number == 1 && info.set1 == Some(rs) && info.set2.None?) || (number == 2 && info.set1.None? && info.set2 == Some(rs)))
    && i + rs.size <= |info.fields| && rs.size >= 1
    && info.fields[i].order == rs.startField
    && forall h :: 0 <= h < |info.fields| && h != i ==> info.fields[h].order != rs.startField
  }

  lemma SetIsOk(info: PgnInfo, rs: RepeatingSet, i: nat, number: nat)
    requires OnlySetAt(info, rs, i, number)
    ensures WellFormed(info)
  {
  }

  lemma {:induction false} WalkBefore(info: PgnInfo, data: seq<byte>, rs: RepeatingSet, i: nat, number: nat, h: nat)
    requires OnlySetAt(info, rs, i, number) && h <= i && WellFormed(info)
    ensures Walk(info, data, 0, NOTHING) == Walk(info, data, h, Before(info, data, h))
  {
    if h > 0 {
      WalkBefore(info, data, rs, i, number, h - 1);
      PlainStep(info, data, h - 1, Before(info, data, h - 1));
    }
  }

  lemma PlainStep(info: PgnInfo, data: seq<byte>, h: nat, p: Progress)
    requires WellFormed(info) && h < |info.fields|
    requires !StartsSet(info.fields[h], info.set1) && !StartsSet(info.fields[h], info.set2)
    ensures Walk(info, data, h, p) == Walk(info, data, h + 1, FieldStep(info.fields[h], data, p))
  {
  }

  /** The fields from `i` on, when no set starts there: each is decoded where it says, or where the
      one before has ended, and added to what there is. */
  lemma {:induction false} WalkExtends(info: PgnInfo, data: seq<byte>, i: nat, p: Progress)
    requires WellFormed(info) && i <= |info.fields|
    requires forall h :: i <= h < |info.fields| ==> !StartsSet(info.fields[h], info.set1) && !StartsSet(info.fields[h], info.set2)
    ensures p.out <= Walk(info, data, i, p).out
    ensures Walk(info, data, i, p).entered1 == p.entered1 && Walk(info, data, i, p).entered2 == p.entered2
    decreases |info.fields| - i
  {
    if i < |info.fields| {
      PlainStep(info, data, i, p);
      WalkExtends(info, data, i + 1, FieldStep(info.fields[i], data, p));
    }
  }

  // ----- The whole message -----

  /** Where the set starts: where its first field says, or where the fields before it end. */
  function SetStart(info: PgnInfo, data: seq<byte>, i: nat): nat
    requires i < |info.fields|
  {
    if info.fields[i].bitOffset.Some? then info.fields[i].bitOffset.value else Before(info, data, i).cursor
  }

  function GroupOf(info: PgnInfo, rs: RepeatingSet, i: nat): seq<FieldInfo>
    requires i + rs.size <= |info.fields|
  {
    info.fields[i..i + rs.size]
  }

  lemma SetFieldStep(info: PgnInfo, data: seq<byte>, rs: RepeatingSet, i: nat, number: nat, p: Progress)
    requires OnlySetAt(info, rs, i, number) && WellFormed(info)
    ensures Walk(info, data, i, p) == Walk(info, data, i + rs.size, SetStep(info, data, p, i, rs, number))
  {
  }

  /** The walk once the set has been decoded. */
  lemma WalkSet(info: PgnInfo, data: seq<byte>, rs: RepeatingSet, i: nat, number: nat, p: Progress, next: Progress, r: Progress)
    requires OnlySetAt(info, rs, i, number) && WellFormed(info) && p == Before(info, data, i)
    requires next == SetStep(info, data, p, i, rs, number) && r == Walk(info, data, 0, NOTHING)
    ensures r == Walk(info, data, i + rs.size, next)
    ensures next.out <= r.out && r.entered1 == next.entered1 && r.entered2 == next.entered2
  {
    WalkBefore(info, data, rs, i, number, i);
    SetFieldStep(info, data, rs, i, number, p);
    WalkExtends(info, data, i + rs.size, next);
  }

  lemma {:induction false} NotEnteredBefore(info: PgnInfo, data: seq<byte>, i: nat)
    requires i <= |info.fields|
    ensures !Before(info, data, i).entered1 && !Before(info, data, i).entered2
  {
    if i > 0 {
      NotEnteredBefore(info, data, i - 1);
    }
  }

  /** Field `j` of iteration `k` is among the decoded fields: behind those of the fields before the
      set, the iterations and the fields of an iteration one after the other. */
  predicate IterationDecoded(out: seq<Decoded>, before: nat, number: nat, group: seq<FieldInfo>, data: seq<byte>, count: Option<nat>, start: nat, k: nat, j: nat)
    requires FixedSet(group) && j < |group|
  {
    var f := group[j];
    var at := start + k * WidthSum(group, |group|) + WidthSum(group, j);
    && before + (k * |group| + j) < |out|
    && var d := out[before + (k * |group| + j)];
       && d.order == f.order && d.bitOffset == at && d.bitLength == f.bitLength.value
       && d.value == DecodeNumber(f, data, at, f.bitLength.value)
       && d.repeatSet == number && d.repeatIndex == if count == Some(0) && j > 0 then None else Some(k)
  }

  lemma DecodedBehind(out: seq<Decoded>, all: seq<Decoded>, before: seq<Decoded>, number: nat, group: seq<FieldInfo>, data: seq<byte>, count: Option<nat>, start: nat, k: nat, j: nat)
    requires FixedSet(group) && j < |group| && before + all <= out && IsPlaced(all, group, data, number, count, start, k, j)
    ensures IterationDecoded(out, |before|, number, group, data, count, start, k, j)
  {
    var x := k * |group| + j;
    assert out[|before| + x] == (before + all)[|before| + x] == all[x];
  }

  ghost predicate IterationsDecoded(out: seq<Decoded>, before: nat, number: nat, group: seq<FieldInfo>, data: seq<byte>, count: Option<nat>, start: nat, n: nat)
    requires FixedSet(group)
  {
    forall k: nat, j: nat :: k < n && j < |group| ==> IterationDecoded(out, before, number, group, data, count, start, k, j)
  }

  lemma AllDecodedBehind(out: seq<Decoded>, all: (seq<Decoded>, nat), before: seq<Decoded>, number: nat, group: seq<FieldInfo>, data: seq<byte>, count: Option<nat>, start: nat, n: nat)
    requires FixedSet(group) && before + all.0 <= out && LaidOut(all, group, data, number, count, start, n)
    ensures IterationsDecoded(out, |before|, number, group, data, count, start, n)
  {
    forall k: nat, j: nat | k < n && j < |group|
      ensures IterationDecoded(out, |before|, number, group, data, count, start, k, j)
    {
      DecodedBehind(out, all.0, before, number, group, data, count, start, k, j);
    }
  }

  /** What the set adds, and where it ends. */
  lemma SetAdds(info: PgnInfo, data: seq<byte>, rs: RepeatingSet, i: nat, number: nat, group: seq<FieldInfo>, start: nat, p: Progress, count: Option<nat>, n: nat, w: nat)
    requires OnlySetAt(info, rs, i, number) && group == GroupOf(info, rs, i)
    requires p == Before(info, data, i) && start == SetStart(info, data, i) && count == RepeatCount(p.out, rs.countField)
    requires FixedSet(group) && w == WidthSum(group, |group|) && LaidOut(Repeated(group, data, number, count, start), group, data, number, count, start, n)
    ensures var next := SetStep(info, data, p, i, rs, number);
            && next.out == p.out + Repeated(group, data, number, count, start).0 && |next.out| == |p.out| + n * |group|
            && next.cursor == start + n * w
            && next.entered1 == (number == 1 && start < 8 * |data|) && next.entered2 == (number == 2 && start < 8 * |data|)
  {
    RepeatedAt(group, data, number, count, p.cursor, start);
    NotEnteredBefore(info, data, i);
  }

  /** A set of fixed-width numbers in a message: with the count that the fields before it give, so
      many iterations are decoded as the count and the payload allow, every field of every one of
      them in its place; the walk goes on behind the last of them; and the set counts as entered
      exactly if it starts within the payload. */
  lemma {:induction false} SetInMessage(info: PgnInfo, data: seq<byte>, rs: RepeatingSet, i: nat, number: nat, group: seq<FieldInfo>, start: nat, w: nat)
    returns (count: Option<nat>, n: nat, m: nat)
    requires OnlySetAt(info, rs, i, number) && WellFormed(info) && group == GroupOf(info, rs, i) && start == SetStart(info, data, i)
    requires FixedSet(group) && Consecutive(group, start) && w == WidthSum(group, |group|)
    ensures CountOf(Before(info, data, i).out, rs.countField, count)
    ensures w > 0 && n == Iterations(count, start, w, 8 * |data|)
    ensures m == |Before(info, data, i).out| + n * |group| <= |Walk(info, data, 0, NOTHING).out|
    ensures var p, r := Before(info, data, i), Walk(info, data, 0, NOTHING);
            && p.out <= r.out
            && IterationsDecoded(r.out, |p.out|, number, group, data, count, start, n)
            && r.entered1 == (number == 1 && start < 8 * |data|) && r.entered2 == (number == 2 && start < 8 * |data|)
            && r == Walk(info, data, i + rs.size, Progress(r.out[..m], r.entered1, r.entered2, start + n * w))
  {
    var p, r := Before(info, data, i), Walk(info, data, 0, NOTHING);
    count := RepeatCount(p.out, rs.countField);
    RepeatCountExactly(p.out, rs.countField);
    RepeatingSetLayout(group, data, number, count, start, w);
    n := Iterations(count, start, w, 8 * |data|);
    m := |p.out| + n * |group|;
    SetWalked(info, data, rs, i, number, group, start, p, r, count, n, w, m);
  }

  /** The walk over a set, after which there are `m` decoded fields. */
  lemma {:induction false} SetWalked(info: PgnInfo, data: seq<byte>, rs: RepeatingSet, i: nat, number: nat, group: seq<FieldInfo>, start: nat,
      p: Progress, r: Progress, count: Option<nat>, n: nat, w: nat, m: nat)
    requires OnlySetAt(info, rs, i, number) && WellFormed(info) && group == GroupOf(info, rs, i) && start == SetStart(info, data, i)
    requires p == Before(info, data, i) && r == Walk(info, data, 0, NOTHING) && count == RepeatCount(p.out, rs.countField)
    requires FixedSet(group) && w == WidthSum(group, |group|) && LaidOut(Repeated(group, data, number, count, start), group, data, number, count, start, n)
    requires m == |p.out| + n * |group|
    ensures p.out <= r.out && m <= |r.out|
    ensures IterationsDecoded(r.out, |p.out|, number, group, data, count, start, n)
    ensures r.entered1 == (number == 1 && start < 8 * |data|) && r.entered2 == (number == 2 && start < 8 * |data|)
    ensures r == Walk(info, data, i + rs.size, Progress(r.out[..m], r.entered1, r.entered2, start + n * w))
  {
    SetAdds(info, data, rs, i, number, group, start, p, count, n, w);
    var next := SetStep(info, data, p, i, rs, number);
    WalkSet(info, data, rs, i, number, p, next, r);
    AllDecodedBehind(r.out, Repeated(group, data, number, count, start), p.out, number, group, data, count, start, n);
    assert r.out[..m] == next.out;
  }

  lemma RepeatedAt(group: seq<FieldInfo>, data: seq<byte>, number: nat, count: Option<nat>, cursor: nat, start: nat)
    requires group != [] && start == if group[0].bitOffset.Some? then group[0].bitOffset.value else cursor
    ensures Repeated(group, data, number, count, cursor) == Repeated(group, data, number, count, start)
  {
  }

  /** The first field after the set, if it does not say where it is, is decoded behind the set. */
  lemma NextFieldAfter(f: FieldInfo, data: seq<byte>, p: Progress, d: (FieldValue, nat))
    requires !f.conditional && f.bitOffset.None? && DecodeOne(f, data, p.cursor) == Some(d)
    ensures var q := FieldStep(f, data, p);
            && |q.out| == |p.out| + 1 && q.out[..|p.out|] == p.out
            && q.out[|p.out|].order == f.order && q.out[|p.out|].bitOffset == p.cursor && q.out[|p.out|].value == d.0
            && q.cursor == p.cursor + d.1
  {
  }
}
