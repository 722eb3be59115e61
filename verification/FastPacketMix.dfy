/** An in-order burst on a slot that still holds frames of earlier bursts: when its last frame
    completes it, and when an earlier one completes a mixture. */
module FastPacketMix {
  import opened Wire
  import Runs
  import opened FastPacket
  import opened FastPacketLoss

  /** No result for the last frame. */
  predicate EndsQuiet(out: seq<Option<seq<byte>>>) { out != [] && out[|out| - 1] == None }

  /** One result, at `at`. */
  predicate OnlyAt(out: seq<Option<seq<byte>>>, at: nat, payload: seq<byte>) {
    && at < |out| && out[at] == Some(payload)
    && forall j :: 0 <= j < |out| && j != at ==> out[j] == None
  }

  /** A payload is completed before the last frame. */
  predicate CompletesEarly(out: seq<Option<seq<byte>>>) { exists j :: 0 <= j < |out| - 1 && out[j].Some? }

  // ----- The first frames of the burst complete the tail -----

  /** The slot once the first `j` frames of the burst for `p` lie on a tail from `k` on. */
  function Gluing(a: Assembly, p: Payload, k: nat, j: nat): Assembly
    requires 1 <= j <= k < FrameTotal(p)
  {
    Assembly(
      seq(32, i => i < j || k <= i < FrameTotal(p)),
      LowMask(FrameTotal(p)),
      |p|,
      p[..Offset(j)] + a.data[Offset(j)..])
  }

  lemma FirstGluing(a: Assembly, p: Payload, sq: nat, k: nat)
    requires sq < 8 && TailFrom(a.frames, k, FrameTotal(p))
    ensures Solo(Some(a), BurstFrame(p, sq, 0)) == (Some(Gluing(a, p, k, 1)), None)
  {
    var f := BurstFrame(p, sq, 0);
    var a' := Added(a, f);
    assert Wanted(f)[1] && !a.frames[0 := true][1];
    assert !StartsOver(a, f);
    assert a'.frames == Gluing(a, p, k, 1).frames;
    assert a'.data == Gluing(a, p, k, 1).data;
    assert !a'.frames[1] && LowMask(FrameTotal(p))[1];
  }

  /** The bytes of `p` before bucket `k`, and from there on what the slot held. */
  function Mixture(p: Payload, k: nat, kept: Buffer): seq<byte>
    requires 1 <= k < FrameTotal(p)
  {
    p[..Offset(k)] + kept[Offset(k)..|p|]
  }

  lemma NextGluing(a: Assembly, p: Payload, sq: nat, k: nat, j: nat)
    requires sq < 8 && 1 <= j < k < FrameTotal(p)
    ensures Added(Gluing(a, p, k, j), BurstFrame(p, sq, j)) == Gluing(a, p, k, j + 1)
  {
    var x, f, y := Gluing(a, p, k, j), BurstFrame(p, sq, j), Gluing(a, p, k, j + 1);
    assert !x.frames[j];
    assert Added(x, f).frames == y.frames;
    assert Piece(p, j) == p[Offset(j)..Offset(j + 1)];
    assert Store(x.data, f) == y.data;
  }

  lemma GluingComplete(a: Assembly, p: Payload, k: nat, j: nat)
    requires 1 <= j <= k < FrameTotal(p)
    ensures IsComplete(Gluing(a, p, k, j)) <==> j == k
    ensures Gluing(a, p, k, k).data[..|p|] == Mixture(p, k, a.data)
  {
    var x := Gluing(a, p, k, j);
    if j == k {
      assert x.frames == LowMask(FrameTotal(p));
      assert LowMask(FrameTotal(p))[0];
    } else {
      assert !x.frames[j] && LowMask(FrameTotal(p))[j];
    }
  }

  lemma SoloOf(x: Assembly, f: FrameData, y: Assembly)
    requires y == Added(x, f) && y.size <= 223
    ensures Solo(Some(x), f) == if IsComplete(y) then (None, Some(y.data[..y.size])) else (Some(y), None)
  {
  }

  lemma GluingStep(a: Assembly, p: Payload, sq: nat, k: nat, j: nat)
    requires sq < 8 && 1 <= j < k < FrameTotal(p)
    ensures Solo(Some(Gluing(a, p, k, j)), BurstFrame(p, sq, j))
            == if j + 1 == k then (None, Some(Mixture(p, k, a.data))) else (Some(Gluing(a, p, k, j + 1)), None)
  {
    NextGluing(a, p, sq, k, j);
    GluingComplete(a, p, k, j + 1);
    SoloOf(Gluing(a, p, k, j), BurstFrame(p, sq, j), Gluing(a, p, k, j + 1));
  }

  lemma {:induction false} GluingRun(a: Assembly, p: Payload, sq: nat, k: nat, j: nat, fs: seq<FrameData>, out: seq<Option<seq<byte>>>)
    requires sq < 8 && 1 <= j < k < FrameTotal(p) && fs == Between(p, sq, j, k)
    requires out == SoloOutputs(Some(Gluing(a, p, k, j)), fs)
    ensures OnlyLast(out, Some(Mixture(p, k, a.data)))
    ensures SoloState(Some(Gluing(a, p, k, j)), fs) == None
    decreases k - j
  {
    var x, mixture := Some(Gluing(a, p, k, j)), Some(Mixture(p, k, a.data));
    GluingStep(a, p, sq, k, j);
    if j + 1 < k {
      var y, rest := Some(Gluing(a, p, k, j + 1)), Between(p, sq, j + 1, k);
      FirstFed(x, p, sq, j, k, y, None);
      GluingRun(a, p, sq, k, j + 1, rest, SoloOutputs(y, rest));
      OnlyLastCons(out, SoloOutputs(y, rest), mixture);
    } else {
      FirstFed(x, p, sq, j, k, None, mixture);
    }
  }

  lemma TailCompleted(a: Assembly, p: Payload, sq: nat, k: nat)
    requires sq < 8 && TailFrom(a.frames, k, FrameTotal(p))
    ensures var fs := Between(p, sq, 0, k);
            && OnlyLast(SoloOutputs(Some(a), fs), Some(Mixture(p, k, a.data)))
            && SoloState(Some(a), fs) == None
  {
    var x, rest := Some(Gluing(a, p, k, 1)), Between(p, sq, 1, k);
    FirstGluing(a, p, sq, k);
    FirstFed(Some(a), p, sq, 0, k, x, None);
    GluingRun(a, p, sq, k, 1, rest, SoloOutputs(x, rest));
    OnlyLastCons(SoloOutputs(Some(a), Between(p, sq, 0, k)), SoloOutputs(x, rest), Some(Mixture(p, k, a.data)));
  }

  // ----- The other frames of the burst are left behind -----

  /** The frames of the burst from `k` up to `m`. */
  ghost function Part(p: Payload, k: nat, m: nat): set<nat> { set i: nat | i < 32 && k <= i < m && InBurst(p, i) }

  /** The slot holds just the frames from `k` on of the burst for `p`. */
  ghost predicate HoldsTail(state: Option<Assembly>, p: Payload, k: nat) {
    state.Some? && 2 <= k < FrameTotal(p) && Has(state.value, p, Part(p, k, FrameTotal(p)))
  }

  lemma PartAdded(a: Assembly, p: Payload, sq: nat, k: nat, m: nat)
    requires sq < 8 && 1 <= k <= m < FrameTotal(p) && Has(a, p, Part(p, k, m))
    ensures Solo(Some(a), BurstFrame(p, sq, m)).0.Some?
    ensures Has(Solo(Some(a), BurstFrame(p, sq, m)).0.value, p, Part(p, k, m + 1))
  {
    var a' := Added(a, BurstFrame(p, sq, m));
    HasAdded(a, p, sq, m, Part(p, k, m));
    assert InBurst(p, m) && Part(p, k, m) + {m} == Part(p, k, m + 1);
    assert InBurst(p, 0) && 0 in Whole(p);
    HasComplete(a', p, Part(p, k, m + 1));
  }

  lemma {:induction false} PartLeft(p: Payload, sq: nat, k: nat, m: nat)
    requires sq < 8 && 1 <= k < m <= FrameTotal(p)
    ensures var state := SoloState(None, Between(p, sq, k, m));
            state.Some? && Has(state.value, p, Part(p, k, m))
  {
    var f := BurstFrame(p, sq, m - 1);
    var before := Between(p, sq, k, m - 1);
    assert Between(p, sq, k, m) == before + [f];
    SoloSnoc(None, before, f);
    if k < m - 1 {
      PartLeft(p, sq, k, m - 1);
      PartAdded(SoloState(None, before).value, p, sq, k, m - 1);
    } else {
      assert before == [];
      assert Part(p, k, k) == {};
      PartAdded(Fresh(), p, sq, k, k);
    }
  }

  /** How such a tail comes about: the frames before `k` of a burst were lost. */
  lemma TailLeftBehind(p: Payload, sq: nat, k: nat)
    requires sq < 8 && 2 <= k < FrameTotal(p)
    ensures HoldsTail(SoloState(None, Between(p, sq, k, FrameTotal(p))), p, k)
    ensures Silent(SoloOutputs(None, Between(p, sq, k, FrameTotal(p))))
  {
    PartLeft(p, sq, k, FrameTotal(p));
    LacksZeroSilent(None, Between(p, sq, k, FrameTotal(p)));
  }

  lemma RangeSplits(p: Payload, sq: nat, k: nat)
    requires sq < 8 && k <= FrameTotal(p)
    ensures FramesUpTo(p, sq, FrameTotal(p)) == Between(p, sq, 0, k) + Between(p, sq, k, FrameTotal(p))
  {
    InOrder(p, sq, FrameTotal(p));
  }

  lemma OnlyAtConcat(all: seq<Option<seq<byte>>>, first: seq<Option<seq<byte>>>, second: seq<Option<seq<byte>>>, payload: seq<byte>)
    requires all == first + second && OnlyLast(first, Some(payload)) && Silent(second)
    ensures OnlyAt(all, |first| - 1, payload)
  {
  }

  /** An in-order burst on a tail from `k` on, of a burst of as many frames: its frame `k` - 1
      completes a mixture with at least one old byte, and its own tail is left behind. */
  lemma {:induction false} TailGlues(a: Assembly, p: Payload, sq: nat, k: nat)
    requires sq < 8 && TailFrom(a.frames, k, FrameTotal(p))
    ensures Offset(k) < |p|
    ensures OnlyAt(SoloOutputs(Some(a), FramesUpTo(p, sq, FrameTotal(p))), k - 1, Mixture(p, k, a.data))
    ensures HoldsTail(SoloState(Some(a), FramesUpTo(p, sq, FrameTotal(p))), p, k)
  {
    var first, second := Between(p, sq, 0, k), Between(p, sq, k, FrameTotal(p));
    TailCompleted(a, p, sq, k);
    TailLeftBehind(p, sq, k);
    RangeSplits(p, sq, k);
    Runs.Concat(Solo, Some(a), first, second);
    OnlyAtConcat(SoloOutputs(Some(a), first + second), SoloOutputs(Some(a), first), SoloOutputs(None, second),
                 Mixture(p, k, a.data));
  }

  // ----- Exactly when -----

  /** An in-order burst on any leftovers: its own payload on its last frame, or a mixture on an
      earlier frame, or nothing at all. */
  lemma BurstExactly(a: Assembly, p: Payload, sq: nat)
    requires sq < 8
    ensures var out := SoloOutputs(Some(a), FramesUpTo(p, sq, FrameTotal(p)));
            if Recovers(a.frames, p) then OnlyLast(out, Some(p))
            else if IsTail(a.frames, FrameTotal(p)) then
              exists k: nat :: TailFrom(a.frames, k, FrameTotal(p)) && OnlyAt(out, k - 1, Mixture(p, k, a.data))
            else Silent(out)
  {
    InOrder(p, sq, FrameTotal(p));
    if Recovers(a.frames, p) {
      RecoveredBurst(a, p, sq);
    } else if IsTail(a.frames, FrameTotal(p)) {
      var k :| 2 <= k < 32 && TailFrom(a.frames, k, FrameTotal(p));
      TailGlues(a, p, sq, k);
    } else {
      SpoiltBurst(a, p, sq);
    }
  }

  lemma TailDoesNotRecover(held: Mask, p: Payload)
    requires IsTail(held, FrameTotal(p))
    ensures !Recovers(held, p)
  {
    var k :| 2 <= k < 32 && TailFrom(held, k, FrameTotal(p));
    assert held[k] && !held[0] && !held[1];
  }

  /** The last frame completes the burst's own payload if and only if the leftovers recover,
      and completes nothing otherwise. */
  lemma RecoversExactly(a: Assembly, p: Payload, sq: nat)
    requires sq < 8
    ensures var out := SoloOutputs(Some(a), FramesUpTo(p, sq, FrameTotal(p)));
            if Recovers(a.frames, p) then OnlyLast(out, Some(p)) else EndsQuiet(out)
  {
    BurstExactly(a, p, sq);
  }

  /** A payload is completed before the last frame, and so from frames of several bursts, if and
      only if just the frames from some `k` on are held, 2 <= k < FrameTotal(p). */
  lemma MixesExactly(a: Assembly, p: Payload, sq: nat)
    requires sq < 8
    ensures CompletesEarly(SoloOutputs(Some(a), FramesUpTo(p, sq, FrameTotal(p)))) <==> IsTail(a.frames, FrameTotal(p))
  {
    BurstExactly(a, p, sq);
    if IsTail(a.frames, FrameTotal(p)) {
      TailDoesNotRecover(a.frames, p);
    }
  }

  // ----- Burst after burst -----

  /** The payload as it travels, its last bucket filled up. */
  function Filled(p: Payload): (d: seq<byte>)
    ensures |d| == Offset(FrameTotal(p))
  {
    p + Filler(Offset(FrameTotal(p)) - |p|)
  }

  lemma TailData(a: Assembly, p: Payload, k: nat)
    requires HoldsTail(Some(a), p, k)
    ensures TailFrom(a.frames, k, FrameTotal(p))
    ensures a.data[Offset(k)..Offset(FrameTotal(p))] == Filled(p)[Offset(k)..]
  {
    forall i | 0 <= i < 32
      ensures a.frames[i] <==> k <= i < FrameTotal(p)
    {
      assert InBurst(p, i) <==> i < FrameTotal(p);
    }
    forall b | Offset(k) <= b < Offset(FrameTotal(p))
      ensures a.data[b] == Filled(p)[b]
    {
      var i := 1 + (b - 6) / 7;
      assert InBurst(p, i) && i in Part(p, k, FrameTotal(p));
      assert Bucket(a.data, i)[b - Offset(i)] == a.data[b];
      assert Piece(p, i)[b - Offset(i)] == Filled(p)[b];
    }
  }

  /** The bytes of `p` before bucket `k`, and from there on those of `before`. */
  function Glued(before: Payload, p: Payload, k: nat): seq<byte>
    requires 1 <= k < FrameTotal(p) == FrameTotal(before)
  {
    p[..Offset(k)] + Filled(before)[Offset(k)..|p|]
  }

  lemma SliceOfEqual(s: seq<byte>, t: seq<byte>, i: nat, m: nat, n: nat)
    requires i <= m <= n <= |s| && n == |t| && s[i..n] == t[i..]
    ensures s[i..m] == t[i..m]
  {
    assert s[i..m] == s[i..n][..m - i];
  }

  /** A burst for `p`, complete and in order, is glued to the tail of `before` that the slot
      holds, and leaves its own tail. */
  ghost predicate GluedNext(state: Option<Assembly>, before: Payload, p: Payload, sq: nat, k: nat)
    requires sq < 8 && 2 <= k < FrameTotal(p) == FrameTotal(before)
  {
    var burst := FramesUpTo(p, sq, FrameTotal(p));
    && OnlyAt(SoloOutputs(state, burst), k - 1, Glued(before, p, k))
    && HoldsTail(SoloState(state, burst), p, k)
  }

  /** So it is with every burst of as many frames on the same key, of whatever length. */
  lemma NextBurstGlued(state: Option<Assembly>, before: Payload, p: Payload, sq: nat, k: nat)
    requires sq < 8 && HoldsTail(state, before, k) && FrameTotal(p) == FrameTotal(before)
    ensures GluedNext(state, before, p, sq, k)
  {
    var a := state.value;
    TailData(a, before, k);
    TailGlues(a, p, sq, k);
    SliceOfEqual(a.data, Filled(before), Offset(k), |p|, Offset(FrameTotal(p)));
  }

  /** The frames from `k` on of the burst for `ps[0]`, and then whole bursts up to `ps[n]`. */
  function Bursts(ps: seq<Payload>, sq: nat, k: nat, n: nat): seq<FrameData>
    requires sq < 8 && n < |ps| && k <= FrameTotal(ps[0])
  {
    if n == 0 then Between(ps[0], sq, k, FrameTotal(ps[0]))
    else Bursts(ps, sq, k, n - 1) + FramesUpTo(ps[n], sq, FrameTotal(ps[n]))
  }

  /** All the bursts have the same number of frames, more than `k`. */
  predicate AsLong(ps: seq<Payload>, k: nat) {
    ps != [] && k < FrameTotal(ps[0]) && forall i :: 0 <= i < |ps| ==> FrameTotal(ps[i]) == FrameTotal(ps[0])
  }

  lemma {:induction false} TailStays(ps: seq<Payload>, sq: nat, k: nat, n: nat)
    requires sq < 8 && 2 <= k && AsLong(ps, k) && n < |ps|
    ensures HoldsTail(SoloState(None, Bursts(ps, sq, k, n)), ps[n], k)
  {
    if n == 0 {
      TailLeftBehind(ps[0], sq, k);
    } else {
      var earlier, burst := Bursts(ps, sq, k, n - 1), FramesUpTo(ps[n], sq, FrameTotal(ps[n]));
      TailStays(ps, sq, k, n - 1);
      NextBurstGlued(SoloState(None, earlier), ps[n - 1], ps[n], sq, k);
      Runs.Concat(Solo, None, earlier, burst);
    }
  }

  /** Nothing ends this: once the first `k` frames of a burst are lost, 2 <= k, every later burst
      of as many frames on the key is glued to the one before, although no frame is lost any
      more. */
  lemma EveryBurstGlued(ps: seq<Payload>, sq: nat, k: nat, n: nat)
    requires sq < 8 && 2 <= k && AsLong(ps, k) && n + 1 < |ps|
    ensures GluedNext(SoloState(None, Bursts(ps, sq, k, n)), ps[n], ps[n + 1], sq, k)
  {
    TailStays(ps, sq, k, n);
    NextBurstGlued(SoloState(None, Bursts(ps, sq, k, n)), ps[n], ps[n + 1], sq, k);
  }
}
