/** What a fast-packet slot does after frames were lost. */
module FastPacketLoss {
  import opened Wire
  import opened FastPacket

  /** What a slot may hold from an earlier burst without spoiling an in-order burst for `p`. */
  predicate Recovers(held: Mask, p: Payload) {
    || held == NoFrames()
    || held[0]
    || (FrameTotal(p) > 1 && forall i :: 1 <= i < FrameTotal(p) ==> held[i])
  }

  /** Just the frames from `k` up to `n` are held, and `k` is neither 0 nor 1. */
  predicate TailFrom(held: Mask, k: nat, n: nat) {
    2 <= k < n <= 32 && forall i :: 0 <= i < 32 ==> (held[i] <==> k <= i < n)
  }

  /** What is held is such a tail of a burst of `n` frames. */
  predicate IsTail(held: Mask, n: nat) { exists k :: 2 <= k < 32 && TailFrom(held, k, n) }

  /** No result at all. */
  predicate Silent(out: seq<Option<seq<byte>>>) { forall j :: 0 <= j < |out| ==> out[j] == None }

  /** The frames of the burst from `k` up to `n`, in order. */
  function Between(p: Payload, sq: nat, k: nat, n: nat): (fs: seq<FrameData>)
    requires sq < 8 && k <= n <= FrameTotal(p)
    ensures |fs| == n - k
  {
    Frames(p, sq, Range(k, n))
  }

  lemma BetweenFirst(p: Payload, sq: nat, k: nat, n: nat, fs: seq<FrameData>, rest: seq<FrameData>)
    requires sq < 8 && k < n <= FrameTotal(p) && fs == Between(p, sq, k, n) && rest == Between(p, sq, k + 1, n)
    ensures fs[0] == BurstFrame(p, sq, k) && fs[1..] == rest
  {
    FramesFollow(p, sq, Range(k, n), Range(k + 1, n), fs, rest);
  }

  lemma FramesFollow(p: Payload, sq: nat, all: seq<nat>, more: seq<nat>, fs: seq<FrameData>, rest: seq<FrameData>)
    requires sq < 8 && (forall j :: 0 <= j < |all| ==> all[j] < FrameTotal(p)) && all != [] && all[1..] == more
    requires forall j :: 0 <= j < |more| ==> more[j] < FrameTotal(p)
    requires fs == Frames(p, sq, all) && rest == Frames(p, sq, more)
    ensures fs[0] == BurstFrame(p, sq, all[0]) && fs[1..] == rest
  {
  }

  /** Fed to a slot: the first of them, and the others. */
  lemma FirstFed(state: Option<Assembly>, p: Payload, sq: nat, k: nat, n: nat, next: Option<Assembly>, out: Option<seq<byte>>)
    requires sq < 8 && k < n <= FrameTotal(p) && Solo(state, BurstFrame(p, sq, k)) == (next, out)
    ensures SoloOutputs(state, Between(p, sq, k, n)) == [out] + SoloOutputs(next, Between(p, sq, k + 1, n))
    ensures SoloState(state, Between(p, sq, k, n)) == SoloState(next, Between(p, sq, k + 1, n))
  {
    BetweenFirst(p, sq, k, n, Between(p, sq, k, n), Between(p, sq, k + 1, n));
    OutputsStep(state, Between(p, sq, k, n), next, out);
  }

  lemma SilentCons(all: seq<Option<seq<byte>>>, out: seq<Option<seq<byte>>>)
    requires all == [None] + out && Silent(out)
    ensures Silent(all)
  {
  }

  lemma SilentStep(state: Option<Assembly>, fs: seq<FrameData>, next: Option<Assembly>)
    requires fs != [] && Solo(state, fs[0]) == (next, None) && Silent(SoloOutputs(next, fs[1..]))
    ensures Silent(SoloOutputs(state, fs))
  {
    OutputsStep(state, fs, next, None);
  }

  /** An assembly that lacks frame 0, or none at all. */
  predicate LacksZero(state: Option<Assembly>) {
    state.Some? ==> MaskOk(state.value) && !state.value.frames[0]
  }

  lemma LacksZeroStep(state: Option<Assembly>, f: FrameData)
    requires LacksZero(state) && Index(f) != 0
    ensures Solo(state, f).1 == None && LacksZero(Solo(state, f).0)
  {
  }

  lemma {:induction false} LacksZeroSilent(state: Option<Assembly>, fs: seq<FrameData>)
    requires LacksZero(state) && forall j :: 0 <= j < |fs| ==> Index(fs[j]) != 0
    ensures Silent(SoloOutputs(state, fs))
    decreases |fs|
  {
    if fs != [] {
      LacksZeroStep(state, fs[0]);
      LacksZeroSilent(Solo(state, fs[0]).0, fs[1..]);
      SilentStep(state, fs, Solo(state, fs[0]).0);
    }
  }

  /** Frame 0 lay on leftovers that neither complete nor repeat it: `a` holds the leftovers
      `held`, none of them below `k`, and the frames of the new burst below `k`. */
  predicate Stuck(a: Assembly, held: Mask, p: Payload, k: nat) {
    && 1 <= k < FrameTotal(p)
    && a.allFrames == LowMask(FrameTotal(p))
    && (forall i :: 0 <= i < 32 ==> (a.frames[i] <==> held[i] || i < k))
    && (forall i :: 0 <= i < k ==> !held[i])
    && (exists i :: k <= i < 32 && held[i])
  }

  /** A frame that repeats a leftover starts over without frame 0. */
  lemma RepeatedFrame(a: Assembly, held: Mask, p: Payload, sq: nat, k: nat)
    requires sq < 8 && Stuck(a, held, p, k) && held[k]
    ensures Solo(Some(a), BurstFrame(p, sq, k)).1 == None && LacksZero(Solo(Some(a), BurstFrame(p, sq, k)).0)
  {
    var a' := Added(a, BurstFrame(p, sq, k));
    assert a.frames[k];
    assert !a'.frames[0] && a'.allFrames[0];
  }

  /** Any other frame is added; it completes exactly if just the frames after it were left over. */
  lemma AddedFrame(a: Assembly, held: Mask, p: Payload, sq: nat, k: nat)
    requires sq < 8 && Stuck(a, held, p, k) && !held[k]
    ensures IsComplete(Added(a, BurstFrame(p, sq, k))) <==> TailFrom(held, k + 1, FrameTotal(p))
    ensures k + 1 < FrameTotal(p) ==> Stuck(Added(a, BurstFrame(p, sq, k)), held, p, k + 1)
  {
    var n := FrameTotal(p);
    var a' := Added(a, BurstFrame(p, sq, k));
    assert forall i :: 0 <= i < 32 ==> (a'.frames[i] <==> held[i] || i < k + 1);
    assert a'.allFrames == LowMask(n) && LowMask(n)[0];
    var i :| k <= i < 32 && held[i];
    if a'.frames == LowMask(n) {
      assert LowMask(n)[i];
      forall j | 0 <= j < 32
        ensures held[j] <==> k + 1 <= j < n
      {
        assert a'.frames[j] == LowMask(n)[j];
      }
    }
  }

  /** The next frame in order: nothing comes of it, and the slot is stuck as before or lacks
      frame 0. */
  lemma StuckStep(a: Assembly, held: Mask, p: Payload, sq: nat, k: nat) returns (next: Option<Assembly>)
    requires sq < 8 && Stuck(a, held, p, k) && !IsTail(held, FrameTotal(p))
    ensures Solo(Some(a), BurstFrame(p, sq, k)) == (next, None)
    ensures k + 1 < FrameTotal(p) ==> LacksZero(next) || (next.Some? && Stuck(next.value, held, p, k + 1))
  {
    next := Solo(Some(a), BurstFrame(p, sq, k)).0;
    if held[k] {
      RepeatedFrame(a, held, p, sq, k);
    } else {
      AddedFrame(a, held, p, sq, k);
    }
  }

  lemma {:induction false} StuckSilent(a: Assembly, held: Mask, p: Payload, sq: nat, k: nat, out: seq<Option<seq<byte>>>)
    requires sq < 8 && Stuck(a, held, p, k) && !IsTail(held, FrameTotal(p))
    requires out == SoloOutputs(Some(a), Between(p, sq, k, FrameTotal(p)))
    ensures Silent(out)
    decreases FrameTotal(p) - k
  {
    var next := StuckStep(a, held, p, sq, k);
    var rest := SoloOutputs(next, Between(p, sq, k + 1, FrameTotal(p)));
    FirstFed(Some(a), p, sq, k, FrameTotal(p), next, None);
    if k + 1 < FrameTotal(p) {
      if LacksZero(next) {
        LacksZeroSilent(next, Between(p, sq, k + 1, FrameTotal(p)));
      } else {
        StuckSilent(next.value, held, p, sq, k + 1, rest);
      }
    }
    SilentCons(out, rest);
  }

  /** Frame 0 on leftovers that recover: the slot then holds frame 0 and nothing else. */
  lemma ZeroRestarts(a: Assembly, p: Payload, sq: nat)
    requires sq < 8 && Recovers(a.frames, p)
    ensures Has(Added(a, BurstFrame(p, sq, 0)), p, {0})
  {
    var f := BurstFrame(p, sq, 0);
    LowMaskInjective(1, FrameTotal(p));
    StoreAt(a.data, f);
    if a.frames != NoFrames() && !a.frames[0] {
      assert CompletesInstantly(a, f);
    }
  }

  /** Frame 0 on leftovers that do not: it is added to them, and completes nothing. */
  lemma ZeroKeeps(a: Assembly, p: Payload, sq: nat)
    requires sq < 8 && !Recovers(a.frames, p)
    ensures Solo(Some(a), BurstFrame(p, sq, 0)) == (Some(Added(a, BurstFrame(p, sq, 0))), None)
    ensures FrameTotal(p) > 1 ==> Stuck(Added(a, BurstFrame(p, sq, 0)), a.frames, p, 1)
  {
    var f := BurstFrame(p, sq, 0);
    var n := FrameTotal(p);
    LowMaskInjective(1, n);
    assert (forall i :: 0 <= i < 32 ==> !a.frames[i]) ==> a.frames == NoFrames();
    var i :| 0 <= i < 32 && a.frames[i];
    if n == 1 {
      assert !LowMask(1)[i];
    } else {
      var j :| 1 <= j < n && !a.frames[j];
      assert Wanted(f)[j] && !a.frames[0 := true][j];
    }
  }

  /** Frame 0 then completes a burst of one frame, and nothing of a longer one. */
  lemma ZeroRecovers(a: Assembly, p: Payload, sq: nat)
    requires sq < 8 && Recovers(a.frames, p)
    ensures var a' := Added(a, BurstFrame(p, sq, 0));
            && Has(a', p, {0})
            && Solo(Some(a), BurstFrame(p, sq, 0)) == if FrameTotal(p) == 1 then (None, Some(p)) else (Some(a'), None)
  {
    var a' := Added(a, BurstFrame(p, sq, 0));
    ZeroRestarts(a, p, sq);
    HasComplete(a', p, {0});
    assert InBurst(p, 0) && 0 in Whole(p);
    if FrameTotal(p) == 1 {
      assert {0} == Whole(p);
      HasPayload(a', p);
    } else {
      assert InBurst(p, 1) && 1 in Whole(p);
    }
  }

  lemma RecoveredBurst(a: Assembly, p: Payload, sq: nat)
    requires sq < 8 && Recovers(a.frames, p)
    ensures OnlyLast(SoloOutputs(Some(a), Between(p, sq, 0, FrameTotal(p))), Some(p))
  {
    var n, a' := FrameTotal(p), Added(a, BurstFrame(p, sq, 0));
    ZeroRecovers(a, p, sq);
    if n == 1 {
      FirstFed(Some(a), p, sq, 0, n, None, Some(p));
    } else {
      FirstFed(Some(a), p, sq, 0, n, Some(a'), None);
      var rest := SoloOutputs(Some(a'), Between(p, sq, 1, n));
      AfterZero(a', p, sq, rest);
      OnlyLastCons(SoloOutputs(Some(a), Between(p, sq, 0, n)), rest, Some(p));
    }
  }

  lemma AfterZero(a: Assembly, p: Payload, sq: nat, out: seq<Option<seq<byte>>>)
    requires sq < 8 && Has(a, p, {0}) && FrameTotal(p) > 1
    requires out == SoloOutputs(Some(a), Between(p, sq, 1, FrameTotal(p)))
    ensures OnlyLast(out, Some(p))
  {
    RangeRemains(p);
    FeedRest(a, p, sq, {0}, Range(1, FrameTotal(p)), out);
  }

  lemma RangeRemains(p: Payload)
    ensures Remaining(p, {0}, Range(1, FrameTotal(p)))
  {
    forall i | i in Whole(p) && i != 0
      ensures i in Range(1, FrameTotal(p))
    {
      assert Range(1, FrameTotal(p))[i - 1] == i;
    }
  }

  /** On leftovers that do not recover and are no tail, an in-order burst gives nothing at all. */
  lemma SpoiltBurst(a: Assembly, p: Payload, sq: nat)
    requires sq < 8 && !Recovers(a.frames, p) && !IsTail(a.frames, FrameTotal(p))
    ensures Silent(SoloOutputs(Some(a), Between(p, sq, 0, FrameTotal(p))))
  {
    var n, a' := FrameTotal(p), Added(a, BurstFrame(p, sq, 0));
    var rest := SoloOutputs(Some(a'), Between(p, sq, 1, n));
    ZeroKeeps(a, p, sq);
    FirstFed(Some(a), p, sq, 0, n, Some(a'), None);
    if n > 1 {
      StuckSilent(a', a.frames, p, sq, 1, rest);
    }
    SilentCons(SoloOutputs(Some(a), Between(p, sq, 0, n)), rest);
  }

  /** What completes on a frame 0 is a short payload, all of it in that frame. */
  lemma CompleteOnZero(a: Assembly, f: FrameData)
    requires Index(f) == 0 && Accept(a, f).1.Some?
    ensures Declared(f) <= BUCKET_0_SIZE
    ensures Accept(a, f).1.value == Chunk(f)[..Declared(f)]
  {
    StoreAt(a.data, f);
    LowMaskInjective(1, Needed(Declared(f)));
    var a' := Added(a, f);
    if StartsOver(a, f) || a.frames == NoFrames() {
      assert a'.frames == LowMask(1);
    } else {
      assert Covers(a.frames[0 := true], Wanted(f));
    }
    assert a'.data[..a'.size] == a'.data[0..6][..Declared(f)];
  }
}
