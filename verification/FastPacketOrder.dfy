/** A burst in any order on a slot that still holds frames of earlier bursts. */
module FastPacketOrder {
  import opened Wire
  import Runs
  import opened FastPacket
  import opened FastPacketLoss

  /** The first frame to arrive, `i`, finds or makes the slot empty: nothing is held, or `i` is
      held already, or it is frame 0 and all the others are held. */
  predicate Afresh(held: Mask, p: Payload, i: nat)
    requires i < 32
  {
    || held == NoFrames()
    || held[i]
    || (i == 0 && FrameTotal(p) > 1 && forall k :: 1 <= k < FrameTotal(p) ==> held[k])
  }

  /** None of the first `j` frames repeats one that is held. */
  predicate NoneHeld(held: Mask, order: seq<nat>, j: nat)
    requires j <= |order|
  {
    forall h :: 0 <= h < j ==> order[h] < 32 && !held[order[h]]
  }

  /** The indices in `mask` are those held and those of the first `j` frames. */
  predicate Joins(mask: Mask, held: Mask, order: seq<nat>, j: nat)
    requires j <= |order|
  {
    forall i :: 0 <= i < 32 ==> (mask[i] <==> held[i] || i in order[..j])
  }

  /** Frame number `t` to arrive completes something: no frame so far was held, and either it
      and frame 0 before it fill up the frames held to the whole burst, or the frames so far fill
      them up to what an old frame 0 asked for. */
  predicate CompletesAt(a: Assembly, n: nat, order: seq<nat>, t: nat)
    requires t < |order|
  {
    && NoneHeld(a.frames, order, t + 1)
    && (|| (order[t] != 0 && 0 in order[..t] && Joins(LowMask(n), a.frames, order, t + 1))
        || (a.frames[0] && Joins(a.allFrames, a.frames, order, t + 1)))
  }

  // ----- While frames are added to those held -----

  /** The slot after the first `j` frames, none of which was held: their buckets are new, all
      others are those of `a`. */
  predicate Growing(x: Assembly, a: Assembly, p: Payload, order: seq<nat>, j: nat)
    requires j <= |order| && forall h :: 0 <= h < |order| ==> order[h] < FrameTotal(p)
  {
    && NoneHeld(a.frames, order, j) && Joins(x.frames, a.frames, order, j)
    && x.allFrames == (if 0 in order[..j] then LowMask(FrameTotal(p)) else a.allFrames)
    && x.size == (if 0 in order[..j] then |p| else a.size)
    && (forall i: nat :: i < 32 && i !in order[..j] ==> Bucket(x.data, i) == Bucket(a.data, i))
    && (forall h :: 0 <= h < j ==> Bucket(x.data, order[h]) == Piece(p, order[h]))
  }

  predicate InOrder(p: Payload, order: seq<nat>) { forall h :: 0 <= h < |order| ==> order[h] < FrameTotal(p) }

  lemma Distinct(p: Payload, order: seq<nat>, j: nat)
    requires Permutation(p, order) && j < |order|
    ensures order[j] !in order[..j] && order[j] !in order[j + 1..]
  {
  }

  lemma GrowsData(x: Assembly, a: Assembly, p: Payload, sq: nat, order: seq<nat>, j: nat)
    requires sq < 8 && Permutation(p, order) && j < |order| && Growing(x, a, p, order, j)
    ensures var d := Store(x.data, BurstFrame(p, sq, order[j]));
            && (forall i: nat :: i < 32 && i !in order[..j + 1] ==> Bucket(d, i) == Bucket(a.data, i))
            && (forall h :: 0 <= h < j + 1 ==> Bucket(d, order[h]) == Piece(p, order[h]))
  {
    StoreAt(x.data, BurstFrame(p, sq, order[j]));
    Distinct(p, order, j);
    assert order[..j + 1] == order[..j] + [order[j]];
  }

  lemma Grows(x: Assembly, a: Assembly, p: Payload, sq: nat, order: seq<nat>, j: nat)
    requires sq < 8 && Permutation(p, order) && j < |order| && Growing(x, a, p, order, j)
    requires !StartsOver(x, BurstFrame(p, sq, order[j]))
    ensures Growing(Added(x, BurstFrame(p, sq, order[j])), a, p, order, j + 1)
  {
    GrowsData(x, a, p, sq, order, j);
    Distinct(p, order, j);
    assert order[..j + 1] == order[..j] + [order[j]];
  }

  lemma JoinsLast(a: Assembly, p: Payload, order: seq<nat>)
    requires Permutation(p, order) && order != [] && NoneHeld(a.frames, order, |order|)
    requires Joins(LowMask(FrameTotal(p)), a.frames, order, |order|)
    ensures a.frames == NoFrames()
  {
    forall i | 0 <= i < 32
      ensures !a.frames[i]
    {
      if i < FrameTotal(p) {
        assert InBurst(p, i) && i in Whole(p);
        assert i in order;
      } else {
        assert !LowMask(FrameTotal(p))[i];
      }
    }
  }

  lemma CompleteShould(x: Assembly, a: Assembly, p: Payload, order: seq<nat>, t: nat)
    requires Permutation(p, order) && t < |order| && Growing(x, a, p, order, t + 1) && MaskOk(a) && IsComplete(x)
    requires order[t] == 0 && t > 0 ==> x.frames != LowMask(FrameTotal(p))
    requires t == 0 ==> a.frames != NoFrames() && !Afresh(a.frames, p, order[0])
    ensures CompletesAt(a, FrameTotal(p), order, t)
  {
    assert order[..t + 1] == order[..t] + [order[t]];
    assert x.frames[0];
  }

  lemma ShouldComplete(x: Assembly, a: Assembly, p: Payload, order: seq<nat>, t: nat)
    requires InOrder(p, order) && t < |order| && Growing(x, a, p, order, t + 1)
    requires CompletesAt(a, FrameTotal(p), order, t)
    ensures IsComplete(x)
  {
    var n := FrameTotal(p);
    assert order[..t + 1] == order[..t] + [order[t]];
    if 0 in order[..t] {
      assert x.frames == LowMask(n);
      assert LowMask(n)[0];
    } else {
      assert x.frames == a.allFrames;
      assert x.frames[0];
    }
  }

  lemma GrownCompletes(x: Assembly, a: Assembly, p: Payload, order: seq<nat>, t: nat)
    requires Permutation(p, order) && t < |order| && Growing(x, a, p, order, t + 1) && MaskOk(a)
    requires order[t] == 0 && t > 0 ==> x.frames != LowMask(FrameTotal(p))
    requires t == 0 ==> a.frames != NoFrames() && !Afresh(a.frames, p, order[0])
    ensures IsComplete(x) <==> CompletesAt(a, FrameTotal(p), order, t)
  {
    if IsComplete(x) {
      CompleteShould(x, a, p, order, t);
    }
    if CompletesAt(a, FrameTotal(p), order, t) {
      ShouldComplete(x, a, p, order, t);
    }
  }

  /** The frames of the burst from number `j` on, as they arrive. */
  function From(p: Payload, sq: nat, order: seq<nat>, j: nat): (fs: seq<FrameData>)
    requires sq < 8 && InOrder(p, order) && j <= |order|
    ensures |fs| == |order| - j
  {
    Frames(p, sq, order[j..])
  }

  lemma NextFed(state: Option<Assembly>, p: Payload, sq: nat, order: seq<nat>, j: nat, next: Option<Assembly>, out: Option<seq<byte>>)
    requires sq < 8 && InOrder(p, order) && j < |order| && Solo(state, BurstFrame(p, sq, order[j])) == (next, out)
    ensures SoloOutputs(state, From(p, sq, order, j)) == [out] + SoloOutputs(next, From(p, sq, order, j + 1))
  {
    FramesFollow(p, sq, order[j..], order[j + 1..], From(p, sq, order, j), From(p, sq, order, j + 1));
    OutputsStep(state, From(p, sq, order, j), next, out);
  }

  // ----- After a restart, or a completion -----

  /** Only frames after the first are in the slot, or nothing. */
  predicate Barren(state: Option<Assembly>, p: Payload, order: seq<nat>, j: nat)
    requires 1 <= j <= |order|
  {
    state.Some? ==>
      && MaskOk(state.value)
      && (forall i: nat :: i < 32 && state.value.frames[i] ==> i in order[1..j])
      && (state.value.frames[0] ==> state.value.allFrames == LowMask(FrameTotal(p)))
  }

  lemma BarrenStep(state: Option<Assembly>, p: Payload, sq: nat, order: seq<nat>, j: nat)
    requires sq < 8 && Permutation(p, order) && 1 <= j < |order| && Barren(state, p, order, j)
    ensures Barren(Solo(state, BurstFrame(p, sq, order[j])).0, p, order, j + 1)
    ensures Solo(state, BurstFrame(p, sq, order[j])).1 == None
  {
    var x := if state.Some? then state.value else Fresh();
    var x' := Added(x, BurstFrame(p, sq, order[j]));
    assert order[1..j + 1] == order[1..j] + [order[j]];
    assert order[0] !in order[1..j + 1];
    assert !x'.frames[order[0]];
    assert LowMask(FrameTotal(p))[order[0]];
  }

  lemma {:induction false} BarrenRun(state: Option<Assembly>, p: Payload, sq: nat, order: seq<nat>, j: nat, out: seq<Option<seq<byte>>>)
    requires sq < 8 && Permutation(p, order) && 1 <= j <= |order| && Barren(state, p, order, j)
    requires out == SoloOutputs(state, From(p, sq, order, j))
    ensures Silent(out)
    decreases |order| - j
  {
    if j < |order| {
      var next := Solo(state, BurstFrame(p, sq, order[j])).0;
      BarrenStep(state, p, sq, order, j);
      NextFed(state, p, sq, order, j, next, None);
      BarrenRun(next, p, sq, order, j + 1, SoloOutputs(next, From(p, sq, order, j + 1)));
      SilentCons(out, SoloOutputs(next, From(p, sq, order, j + 1)));
    }
  }

  lemma RestartIsBarren(x: Assembly, p: Payload, sq: nat, order: seq<nat>, j: nat)
    requires sq < 8 && Permutation(p, order) && 1 <= j < |order| && MaskOk(x)
    requires StartsOver(x, BurstFrame(p, sq, order[j]))
    ensures Barren(Some(Added(x, BurstFrame(p, sq, order[j]))), p, order, j + 1)
    ensures !IsComplete(Added(x, BurstFrame(p, sq, order[j])))
  {
    var x' := Added(x, BurstFrame(p, sq, order[j]));
    assert order[1..j + 1][j - 1] == order[j];
    assert order[0] != order[j];
    assert !x'.frames[order[0]];
    assert LowMask(FrameTotal(p))[order[0]];
  }

  // ----- Nothing completes twice -----

  /** Once a frame repeats one that is held, no later frame completes anything. */
  lemma HeldEnds(a: Assembly, n: nat, order: seq<nat>, j: nat, t: nat)
    requires j <= t < |order| && order[j] < 32 && a.frames[order[j]]
    ensures !CompletesAt(a, n, order, t)
  {
  }

  /** Nor once the frames held and arrived fill up what is asked for. */
  lemma FullEnds(a: Assembly, p: Payload, order: seq<nat>, j: nat, t: nat)
    requires Permutation(p, order) && j < t < |order| && NoneHeld(a.frames, order, j + 1)
    requires forall i: nat :: i < FrameTotal(p) ==> a.frames[i] || i in order[..j + 1]
    ensures !CompletesAt(a, FrameTotal(p), order, t)
  {
    Distinct(p, order, t);
    assert order[..j + 1] == order[..t][..j + 1];
    assert a.frames[order[t]];
  }

  /** At most one frame completes something. */
  lemma CompletesOnce(a: Assembly, p: Payload, order: seq<nat>, j: nat, t: nat)
    requires Permutation(p, order) && j < t < |order| && CompletesAt(a, FrameTotal(p), order, j)
    ensures !CompletesAt(a, FrameTotal(p), order, t)
  {
    Distinct(p, order, t);
    assert order[..j + 1] == order[..t][..j + 1];
    assert order[t] !in order[..j + 1];
    assert 0 in order[..j] ==> 0 in order[..t];
    assert LowMask(FrameTotal(p))[order[t]] && order[..t + 1][t] == order[t];
    assert order[t] in order[..t + 1];
  }

  /** Nor is it the last one, unless the slot was empty. */
  lemma LastCompletesNothing(a: Assembly, p: Payload, order: seq<nat>)
    requires Permutation(p, order) && order != [] && a.frames != NoFrames()
    ensures !CompletesAt(a, FrameTotal(p), order, |order| - 1)
  {
    assert order[..|order|] == order;
    assert InBurst(p, 0) && 0 in Whole(p);
    assert 0 in order;
    if NoneHeld(a.frames, order, |order|) && Joins(LowMask(FrameTotal(p)), a.frames, order, |order|) {
      JoinsLast(a, p, order);
    }
  }

  // ----- One frame, and then all -----

  /** The payload is that of a slot with the first `t` + 1 frames on top of what `a` held. */
  ghost predicate IsMixture(a: Assembly, p: Payload, order: seq<nat>, t: nat, payload: seq<byte>)
    requires t < |order| && InOrder(p, order)
  {
    exists y :: Growing(y, a, p, order, t + 1) && payload == y.data[..Min(y.size, FASTPACKET_MAX_SIZE)]
  }

  lemma FirstStays(x: Assembly, a: Assembly, p: Payload, sq: nat, order: seq<nat>)
    requires sq < 8 && Permutation(p, order) && order != [] && Growing(x, a, p, order, 0)
    requires !Afresh(a.frames, p, order[0])
    ensures !StartsOver(x, BurstFrame(p, sq, order[0]))
  {
    var f := BurstFrame(p, sq, order[0]);
    assert x.frames[order[0]] == a.frames[order[0]];
    if order[0] == 0 && FrameTotal(p) > 1 {
      var k :| 1 <= k < FrameTotal(p) && !a.frames[k];
      assert !x.frames[k];
      assert Wanted(f)[k] && !x.frames[0 := true][k];
    }
  }

  lemma RepeatEnds(x: Assembly, a: Assembly, p: Payload, order: seq<nat>, j: nat)
    requires Permutation(p, order) && j < |order| && Growing(x, a, p, order, j) && x.frames[order[j]]
    ensures forall t :: j <= t < |order| ==> !CompletesAt(a, FrameTotal(p), order, t)
  {
    Distinct(p, order, j);
    forall t | j <= t < |order|
      ensures !CompletesAt(a, FrameTotal(p), order, t)
    {
      HeldEnds(a, FrameTotal(p), order, j, t);
    }
  }

  lemma InstantEnds(x: Assembly, a: Assembly, p: Payload, sq: nat, order: seq<nat>, j: nat)
    requires sq < 8 && Permutation(p, order) && j < |order| && Growing(x, a, p, order, j)
    requires CompletesInstantly(x, BurstFrame(p, sq, order[j]))
    ensures forall t :: j <= t < |order| ==> !CompletesAt(a, FrameTotal(p), order, t)
  {
    var f := BurstFrame(p, sq, order[j]);
    assert order[..j + 1] == order[..j] + [order[j]];
    forall i: nat | i < FrameTotal(p)
      ensures a.frames[i] || i in order[..j + 1]
    {
      assert Wanted(f)[i];
      assert x.frames[0 := true][i];
    }
    assert NoneHeld(a.frames, order, j + 1);
    forall t | j <= t < |order|
      ensures !CompletesAt(a, FrameTotal(p), order, t)
    {
      if t > j {
        FullEnds(a, p, order, j, t);
      }
    }
  }

  /** Frame 0 that is added does not complete the burst, unless nothing is held. */
  lemma ZeroWaits(x: Assembly, p: Payload, sq: nat, order: seq<nat>, j: nat)
    requires sq < 8 && Permutation(p, order) && 0 < j < |order| && order[j] == 0
    requires x.frames[order[0]] && !StartsOver(x, BurstFrame(p, sq, 0))
    ensures Added(x, BurstFrame(p, sq, 0)).frames != LowMask(FrameTotal(p))
  {
    var f := BurstFrame(p, sq, 0);
    assert order[0] != order[j] && FrameTotal(p) > 1;
    LowMaskInjective(1, FrameTotal(p));
    assert x.frames != NoFrames();
    assert !Covers(x.frames[0 := true], Wanted(f));
  }

  /** The next frame: it is added, and completes something exactly if it should; or the slot is
      barren from then on. */
  lemma GrowStep(x: Assembly, a: Assembly, p: Payload, sq: nat, order: seq<nat>, j: nat)
    returns (next: Option<Assembly>, out: Option<seq<byte>>)
    requires sq < 8 && Permutation(p, order) && j < |order| && Growing(x, a, p, order, j) && MaskOk(a)
    requires !Afresh(a.frames, p, order[0])
    ensures Solo(Some(x), BurstFrame(p, sq, order[j])) == (next, out)
    ensures out.Some? <==> CompletesAt(a, FrameTotal(p), order, j)
    ensures out.Some? ==> IsMixture(a, p, order, j, out.value)
    ensures || (next.Some? && Growing(next.value, a, p, order, j + 1))
            || (Barren(next, p, order, j + 1) && forall t :: j < t < |order| ==> !CompletesAt(a, FrameTotal(p), order, t))
  {
    var f := BurstFrame(p, sq, order[j]);
    var x' := Added(x, f);
    next, out := Solo(Some(x), f).0, Solo(Some(x), f).1;
    if j == 0 {
      FirstStays(x, a, p, sq, order);
    }
    if StartsOver(x, f) {
      RestartIsBarren(x, p, sq, order, j);
      if Duplicate(x, f) {
        RepeatEnds(x, a, p, order, j);
      } else {
        InstantEnds(x, a, p, sq, order, j);
      }
    } else {
      Grows(x, a, p, sq, order, j);
      if order[j] == 0 && j > 0 {
        assert order[..j][0] == order[0];
        ZeroWaits(x, p, sq, order, j);
      }
      GrownCompletes(x', a, p, order, j);
      if IsComplete(x') {
        forall t | j < t < |order|
          ensures !CompletesAt(a, FrameTotal(p), order, t)
        {
          CompletesOnce(a, p, order, j, t);
        }
      }
    }
  }

  /** Frame number `t` is answered by `out`. */
  ghost predicate AnsweredBy(a: Assembly, p: Payload, order: seq<nat>, t: nat, out: Option<seq<byte>>)
    requires InOrder(p, order) && t < |order|
  {
    && (out.Some? <==> CompletesAt(a, FrameTotal(p), order, t))
    && (out.Some? ==> IsMixture(a, p, order, t, out.value))
  }

  /** The frames from number `j` on are answered so. */
  ghost predicate Answers(a: Assembly, p: Payload, order: seq<nat>, j: nat, out: seq<Option<seq<byte>>>)
    requires InOrder(p, order) && j <= |order| && |out| == |order| - j
  {
    forall k :: 0 <= k < |out| ==> AnsweredBy(a, p, order, j + k, out[k])
  }

  lemma AnswersCons(a: Assembly, p: Payload, order: seq<nat>, j: nat, all: seq<Option<seq<byte>>>, first: Option<seq<byte>>, rest: seq<Option<seq<byte>>>)
    requires InOrder(p, order) && j < |order| && all == [first] + rest && |rest| == |order| - (j + 1)
    requires AnsweredBy(a, p, order, j, first) && Answers(a, p, order, j + 1, rest)
    ensures Answers(a, p, order, j, all)
  {
    forall k | 0 <= k < |all|
      ensures AnsweredBy(a, p, order, j + k, all[k])
    {
      if k > 0 {
        assert AnsweredBy(a, p, order, j + 1 + (k - 1), rest[k - 1]);
      }
    }
  }

  lemma BarrenAnswers(a: Assembly, p: Payload, order: seq<nat>, j: nat, out: seq<Option<seq<byte>>>)
    requires InOrder(p, order) && j <= |order| && |out| == |order| - j && Silent(out)
    requires forall t :: j <= t < |order| ==> !CompletesAt(a, FrameTotal(p), order, t)
    ensures Answers(a, p, order, j, out)
  {
  }

  lemma {:induction false} GrowingRun(x: Assembly, a: Assembly, p: Payload, sq: nat, order: seq<nat>, j: nat, out: seq<Option<seq<byte>>>)
    requires sq < 8 && Permutation(p, order) && j <= |order| && Growing(x, a, p, order, j) && MaskOk(a)
    requires order != [] && !Afresh(a.frames, p, order[0]) && out == SoloOutputs(Some(x), From(p, sq, order, j))
    ensures Answers(a, p, order, j, out)
    decreases |order| - j
  {
    if j < |order| {
      var next, first := GrowStep(x, a, p, sq, order, j);
      var rest := SoloOutputs(next, From(p, sq, order, j + 1));
      NextFed(Some(x), p, sq, order, j, next, first);
      if next.Some? && Growing(next.value, a, p, order, j + 1) {
        GrowingRun(next.value, a, p, sq, order, j + 1, rest);
      } else {
        BarrenRun(next, p, sq, order, j + 1, rest);
        BarrenAnswers(a, p, order, j + 1, rest);
      }
      AnswersCons(a, p, order, j, out, first, rest);
    }
  }

  lemma StartsGrowing(a: Assembly, p: Payload, order: seq<nat>)
    requires InOrder(p, order)
    ensures Growing(a, a, p, order, 0)
  {
    assert order[..0] == [];
  }

  // ----- An empty slot -----

  lemma FirstAfresh(a: Assembly, p: Payload, sq: nat, i: nat)
    requires sq < 8 && i < FrameTotal(p) && MaskOk(a) && Afresh(a.frames, p, i)
    ensures Has(Added(a, BurstFrame(p, sq, i)), p, {i})
  {
    var f := BurstFrame(p, sq, i);
    LowMaskInjective(1, FrameTotal(p));
    StoreAt(a.data, f);
    if a.frames != NoFrames() && !a.frames[i] {
      assert CompletesInstantly(a, f);
    }
  }

  lemma OnlyFrame(p: Payload, order: seq<nat>)
    requires Permutation(p, order) && |order| == 1
    ensures order[0] == 0 && FrameTotal(p) == 1
  {
    assert InBurst(p, 0) && 0 in Whole(p);
    assert InBurst(p, 1) <==> FrameTotal(p) > 1;
    assert FrameTotal(p) > 1 ==> 1 in Whole(p);
  }

  /** The first frame of several on an empty slot: nothing yet. */
  lemma FirstOfSeveral(a: Assembly, p: Payload, sq: nat, order: seq<nat>) returns (x: Assembly)
    requires sq < 8 && Permutation(p, order) && |order| > 1 && MaskOk(a) && Afresh(a.frames, p, order[0])
    ensures Solo(Some(a), BurstFrame(p, sq, order[0])) == (Some(x), None) && Has(x, p, {order[0]})
    ensures Remaining(p, {order[0]}, order[1..])
  {
    x := Added(a, BurstFrame(p, sq, order[0]));
    FirstAfresh(a, p, sq, order[0]);
    HasComplete(x, p, {order[0]});
    RemainingStep(p, {}, order);
    assert {} + {order[0]} == {order[0]};
    assert InBurst(p, order[1]) && order[1] in Whole(p) && order[1] != order[0];
  }

  /** The rest go on as on a slot that held nothing. */
  lemma RestRun(x: Assembly, p: Payload, sq: nat, order: seq<nat>, out: seq<Option<seq<byte>>>)
    requires sq < 8 && InOrder(p, order) && |order| > 1 && Has(x, p, {order[0]}) && Remaining(p, {order[0]}, order[1..])
    requires out == SoloOutputs(Some(x), From(p, sq, order, 1))
    ensures OnlyLast(out, Outcome(p, order))
  {
    FeedRest(x, p, sq, {order[0]}, order[1..], out);
    OutcomeOfRest(p, order);
  }

  lemma OnlyFrameRun(a: Assembly, p: Payload, sq: nat, order: seq<nat>, out: seq<Option<seq<byte>>>)
    requires sq < 8 && Permutation(p, order) && |order| == 1 && Afresh(a.frames, p, order[0])
    requires out == SoloOutputs(Some(a), From(p, sq, order, 0))
    ensures OnlyLast(out, Outcome(p, order))
  {
    OnlyFrame(p, order);
    ZeroRecovers(a, p, sq);
    NextFed(Some(a), p, sq, order, 0, None, Some(p));
  }

  lemma SeveralRun(a: Assembly, p: Payload, sq: nat, order: seq<nat>, out: seq<Option<seq<byte>>>)
    requires sq < 8 && Permutation(p, order) && |order| > 1 && MaskOk(a) && Afresh(a.frames, p, order[0])
    requires out == SoloOutputs(Some(a), From(p, sq, order, 0))
    ensures OnlyLast(out, Outcome(p, order))
  {
    var x := FirstOfSeveral(a, p, sq, order);
    var rest := SoloOutputs(Some(x), From(p, sq, order, 1));
    NextFed(Some(a), p, sq, order, 0, Some(x), None);
    RestRun(x, p, sq, order, rest);
    OnlyLastCons(out, rest, Outcome(p, order));
  }

  lemma AfreshRun(a: Assembly, p: Payload, sq: nat, order: seq<nat>, out: seq<Option<seq<byte>>>)
    requires sq < 8 && Permutation(p, order) && order != [] && MaskOk(a) && Afresh(a.frames, p, order[0])
    requires out == SoloOutputs(Some(a), From(p, sq, order, 0))
    ensures OnlyLast(out, Outcome(p, order))
  {
    if |order| == 1 {
      OnlyFrameRun(a, p, sq, order, out);
    } else {
      SeveralRun(a, p, sq, order, out);
    }
  }

  // ----- Exactly when -----

  /** A burst in any order on any leftovers. If its first frame finds or makes the slot empty, the
      last frame is answered by the payload, as on a slot that holds nothing. If not, exactly
      those frames are answered at which the frames so far and those held fill up what is asked
      for, and with a mixture. That happens at most once, and never on the last frame. */
  lemma AnyOrderExactly(a: Assembly, p: Payload, sq: nat, order: seq<nat>)
    requires sq < 8 && Permutation(p, order) && MaskOk(a)
    ensures order != [] && |SoloOutputs(Some(a), Frames(p, sq, order))| == |order|
    ensures var out := SoloOutputs(Some(a), Frames(p, sq, order));
            if Afresh(a.frames, p, order[0]) then OnlyLast(out, Outcome(p, order))
            else Answers(a, p, order, 0, out) && out[|out| - 1] == None
                 && forall s, t :: 0 <= s < t < |out| ==> out[s] == None || out[t] == None
  {
    assert InBurst(p, 0) && 0 in Whole(p);
    assert order != [];
    var out := SoloOutputs(Some(a), From(p, sq, order, 0));
    assert order[0..] == order;
    if Afresh(a.frames, p, order[0]) {
      AfreshRun(a, p, sq, order, out);
    } else {
      StartsGrowing(a, p, order);
      GrowingRun(a, a, p, sq, order, 0, out);
      LastCompletesNothing(a, p, order);
      forall s, t | 0 <= s < t < |out|
        ensures out[s] == None || out[t] == None
      {
        assert AnsweredBy(a, p, order, 0 + s, out[s]) && AnsweredBy(a, p, order, 0 + t, out[t]);
        if CompletesAt(a, FrameTotal(p), order, s) {
          CompletesOnce(a, p, order, s, t);
        }
      }
    }
  }

  /** Every slot that comes about satisfies the condition on its mask. */
  lemma {:induction false} HeldMaskOk(fs: seq<FrameData>)
    ensures SoloState(None, fs).Some? ==> MaskOk(SoloState(None, fs).value)
  {
    if fs != [] {
      var before, f := fs[..|fs| - 1], fs[|fs| - 1];
      var state := SoloState(None, before);
      HeldMaskOk(before);
      assert fs == before + [f];
      SoloSnoc(None, before, f);
      AddedMaskOk(if state.Some? then state.value else Fresh(), f);
    }
  }
}
