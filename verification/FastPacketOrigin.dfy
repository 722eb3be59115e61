/** Where every byte of a completed fast packet comes from. */
module FastPacketOrigin {
  import opened Wire
  import opened FastPacket

  /** The assembly after the frames `log` have arrived on a slot just claimed. */
  function Held(log: seq<FrameData>): Assembly {
    if log == [] then Fresh() else Added(Held(log[..|log| - 1]), log[|log| - 1])
  }

  /** Where in `log` the assembly last started over. */
  function SinceStart(log: seq<FrameData>): (start: nat)
    ensures if log == [] then start == 0 else start < |log|
  {
    if log == [] then 0
    else
      var n := |log| - 1;
      if StartsOver(Held(log[..n]), log[n]) then n else SinceStart(log[..n])
  }

  /** The frames of `log` since then. */
  function Since(log: seq<FrameData>): seq<FrameData> { log[SinceStart(log)..] }

  lemma SinceSnoc(log: seq<FrameData>, f: FrameData)
    ensures Since(log + [f]) == if StartsOver(Held(log), f) then [f] else Since(log) + [f]
  {
    assert (log + [f])[..|log|] == log;
  }

  predicate HasIndex(parts: seq<FrameData>, i: nat) { exists j :: 0 <= j < |parts| && parts[j][0] % 32 == i }

  /** The parts are frames of one burst: no index twice. */
  predicate OneEach(parts: seq<FrameData>) {
    forall i, j :: 0 <= i < j < |parts| ==> Index(parts[i]) != Index(parts[j])
  }

  /** The assembly holds frame `f`. */
  predicate Contains(a: Assembly, f: FrameData) {
    && a.frames[Index(f)]
    && Bucket(a.data, Index(f)) == Chunk(f)
    && (Index(f) == 0 ==> a.size == Declared(f) && a.allFrames == Wanted(f))
  }

  /** The assembly holds the frames `since`, one frame for each index. */
  predicate MadeOf(a: Assembly, since: seq<FrameData>) {
    && OneEach(since)
    && (forall j :: 0 <= j < |since| ==> Contains(a, since[j]))
    && (forall i: nat :: i < 32 && a.frames[i] ==> HasIndex(since, i))
    && MaskOk(a)
  }

  lemma AddedContains(a: Assembly, f: FrameData, g: FrameData)
    ensures Contains(Added(a, f), f)
    ensures Contains(a, g) && Index(g) != Index(f) && !StartsOver(a, f) ==> Contains(Added(a, f), g)
  {
    StoreAt(a.data, f);
  }

  lemma RestartMadeOf(a: Assembly, f: FrameData)
    requires MaskOk(a) && StartsOver(a, f)
    ensures MadeOf(Added(a, f), [f])
  {
    AddedContains(a, f, f);
    AddedMaskOk(a, f);
    assert [f][0] == f;
  }

  lemma GrownMadeOf(a: Assembly, since: seq<FrameData>, f: FrameData)
    requires MadeOf(a, since) && !StartsOver(a, f)
    ensures MadeOf(Added(a, f), since + [f])
  {
    var a', since' := Added(a, f), since + [f];
    AddedContains(a, f, f);
    AddedMaskOk(a, f);
    forall j | 0 <= j < |since|
      ensures Contains(a', since[j]) && Index(since[j]) != Index(f)
    {
      assert Contains(a, since[j]);
      AddedContains(a, f, since[j]);
    }
    forall i: nat | i < 32 && a'.frames[i]
      ensures HasIndex(since', i)
    {
      if i == Index(f) {
        assert since'[|since|] == f;
      } else {
        assert HasIndex(since, i);
        var j :| 0 <= j < |since| && Index(since[j]) == i;
        assert since'[j] == since[j];
      }
    }
  }

  /** The assembly `a'` that `f` leaves is made of `since'`. */
  lemma AddedMadeOf(a: Assembly, since: seq<FrameData>, f: FrameData, a': Assembly, since': seq<FrameData>)
    requires MadeOf(a, since) && a' == Added(a, f)
    requires since' == if StartsOver(a, f) then [f] else since + [f]
    ensures MadeOf(a', since')
  {
    if StartsOver(a, f) {
      RestartMadeOf(a, f);
    } else {
      GrownMadeOf(a, since, f);
    }
  }

  lemma HeldSnoc(log: seq<FrameData>, f: FrameData)
    ensures Held(log + [f]) == Added(Held(log), f)
  {
    assert (log + [f])[..|log|] == log;
  }

  lemma FreshMadeOf()
    ensures MadeOf(Fresh(), [])
  {
  }

  lemma {:induction false} HeldMadeOf(log: seq<FrameData>, a: Assembly, since: seq<FrameData>)
    requires a == Held(log) && since == Since(log)
    ensures MadeOf(a, since)
  {
    if log == [] {
      FreshMadeOf();
    } else {
      var before, f := log[..|log| - 1], log[|log| - 1];
      assert before + [f] == log;
      HeldMadeOf(before, Held(before), Since(before));
      SinceSnoc(before, f);
      HeldSnoc(before, f);
      AddedMadeOf(Held(before), Since(before), f, a, since);
    }
  }

  /** Byte `k` of a frame; what a short frame lacks is filler. */
  function FrameByte(f: FrameData, k: nat): byte { if k < |f| then f[k] else 0xff }

  /** Which frame of a burst carries byte `b` of the payload, and where: frame 0 the first six,
      behind its index and the size, and every other frame seven, behind its index. */
  function CarrierOf(b: nat): nat { if b < 6 then 0 else 1 + (b - 6) / 7 }
  function PlaceIn(b: nat): nat { if b < 6 then 2 + b else 1 + (b - 6) % 7 }

  /** The bytes of `payload` that `f` has to carry are those of `f`. */
  predicate Supplies(f: FrameData, payload: seq<byte>) {
    forall b: nat :: b < |payload| && CarrierOf(b) == f[0] % 32 ==> payload[b] == FrameByte(f, PlaceIn(b))
  }

  /** The payload size that a frame 0 declares, of at most 223. */
  predicate DeclaresSize(f: FrameData, size: nat) {
    size == if |f| == 1 then 0 else if f[1] > 223 then 223 else f[1]
  }

  /** `payload` is what the frames `parts` carry: exactly one frame for each index from 0 to
      size / 7, the size declared by frame 0, and every byte from the frame that has to. */
  ghost predicate Carries(parts: seq<FrameData>, payload: seq<byte>) {
    && (forall i, j :: 0 <= i < j < |parts| ==> parts[i][0] % 32 != parts[j][0] % 32)
    && (forall i: nat :: HasIndex(parts, i) <==> i <= |payload| / 7)
    && (forall j :: 0 <= j < |parts| ==> Supplies(parts[j], payload))
    && (forall j :: 0 <= j < |parts| && parts[j][0] % 32 == 0 ==> DeclaresSize(parts[j], |payload|))
  }

  lemma ChunkByte(f: FrameData, b: nat)
    requires CarrierOf(b) == Index(f)
    ensures Offset(Index(f)) <= b < Offset(Index(f)) + Capacity(Index(f))
    ensures Chunk(f)[b - Offset(Index(f))] == FrameByte(f, PlaceIn(b))
  {
  }

  lemma ContainsSupplies(a: Assembly, f: FrameData)
    requires Contains(a, f) && a.size <= 223
    ensures Supplies(f, a.data[..a.size])
  {
    forall b: nat | b < a.size && CarrierOf(b) == f[0] % 32
      ensures a.data[b] == FrameByte(f, PlaceIn(b))
    {
      ChunkByte(f, b);
      assert Bucket(a.data, Index(f))[b - Offset(Index(f))] == a.data[b];
    }
  }

  lemma CompleteIsCarried(a: Assembly, since: seq<FrameData>)
    requires MadeOf(a, since) && IsComplete(a)
    ensures a.size <= 223 && Carries(since, a.data[..a.size])
  {
    assert a.frames[0] && HasIndex(since, 0);
    var z :| 0 <= z < |since| && Index(since[z]) == 0;
    assert Contains(a, since[z]);
    assert a.frames == LowMask(1 + a.size / 7);
    forall i: nat
      ensures HasIndex(since, i) <==> i <= a.size / 7
    {
      if HasIndex(since, i) {
        var j :| 0 <= j < |since| && Index(since[j]) == i;
        assert Contains(a, since[j]);
      }
    }
    forall j | 0 <= j < |since|
      ensures Supplies(since[j], a.data[..a.size])
    {
      ContainsSupplies(a, since[j]);
    }
    forall j | 0 <= j < |since| && Index(since[j]) == 0
      ensures DeclaresSize(since[j], a.size)
    {
      assert Contains(a, since[j]);
    }
  }

  /** Whatever a slot completes is carried by frames that arrived on it since it last started
      over; nothing older gets in, although the buffer is never cleared. */
  lemma {:induction false} Provenance(log: seq<FrameData>, f: FrameData)
    requires Accept(Held(log), f).1.Some?
    ensures Carries(Since(log + [f]), Accept(Held(log), f).1.value)
  {
    HeldSnoc(log, f);
    HeldMadeOf(log + [f], Held(log + [f]), Since(log + [f]));
    CompleteIsCarried(Held(log + [f]), Since(log + [f]));
  }

  /** The frames leave no choice: they carry one payload only. */
  lemma CarriesOne(parts: seq<FrameData>, p: seq<byte>, q: seq<byte>)
    requires Carries(parts, p) && Carries(parts, q)
    ensures p == q
  {
    assert HasIndex(parts, 0);
    var z :| 0 <= z < |parts| && Index(parts[z]) == 0;
    forall b: nat | b < |p|
      ensures p[b] == q[b]
    {
      assert HasIndex(parts, CarrierOf(b));
      var j :| 0 <= j < |parts| && parts[j][0] % 32 == CarrierOf(b);
      assert Supplies(parts[j], p) && Supplies(parts[j], q);
    }
  }

  /** A frame of a burst on the wire: eight bytes, sequence and index in the first, the size in the
      second of frame 0, every byte of the payload that it has to carry in its place, and filler. */
  lemma BurstFrameExactly(p: Payload, sq: nat, i: nat, k: nat)
    requires sq < 8 && i < FrameTotal(p) && k < 8
    ensures var f := BurstFrame(p, sq, i);
            var b := if i == 0 then k - 2 else 6 + 7 * (i - 1) + (k - 1);
            && |f| == 8 && FrameTotal(p) == 1 + |p| / 7
            && f[k] == if k == 0 then sq * 32 + i
                       else if i == 0 && k == 1 then |p|
                       else if 0 <= b < |p| then p[b] else 0xff
  {
    var f := BurstFrame(p, sq, i);
    if i == 0 {
      assert f == [sq * 32, |p|] + Piece(p, 0);
    } else {
      assert f == [sq * 32 + i] + Piece(p, i);
    }
  }
}
