/** One fast-packet assembly: the frames of one (pgn, source, sequence), each starting
    with a header byte whose low five bits index the frame within its burst. */
module FastPacket {
  import opened Wire
  import Runs

  const FASTPACKET_MAX_SIZE: nat := 223
  const BUCKET_0_SIZE: nat := 6
  const BUCKET_N_SIZE: nat := 7
  const FRAME_COUNT: nat := 32

  /** A 32-bit mask, bit by bit: element `i` is the bit of frame index `i`. */
  type Mask = m: seq<bool> | |m| == 32 witness seq(32, _ => false)

  function NoFrames(): Mask { seq(32, _ => false) }

  /** The mask with the `n` low bits set. */
  function LowMask(n: nat): Mask { seq(32, i => i < n) }

  type Buffer = d: seq<byte> | |d| == 223 witness seq(223, _ => 0)

  /** What a slot accumulates. */
  datatype Assembly = Assembly(frames: Mask, allFrames: Mask, size: nat, data: Buffer)

  /** A slot just claimed. */
  function Fresh(): Assembly { Assembly(NoFrames(), NoFrames(), 0, seq(223, _ => 0)) }

  /** The payload bytes of a CAN frame, the header byte included: one to eight. */
  type FrameData = d: seq<byte> | 1 <= |d| <= 8 witness [0]

  function Index(f: FrameData): (i: nat)
    ensures i < FRAME_COUNT
  {
    f[0] % 32
  }

  /** The payload size that frame 0 declares. */
  function Declared(f: FrameData): (size: nat)
    ensures size <= FASTPACKET_MAX_SIZE
  {
    Min(if |f| > 1 then f[1] else 0, FASTPACKET_MAX_SIZE)
  }

  function Needed(size: nat): (n: nat)
    ensures 1 <= n <= FRAME_COUNT
    ensures size <= FASTPACKET_MAX_SIZE ==> n == 1 + size / BUCKET_N_SIZE
  {
    Min(1 + size / BUCKET_N_SIZE, FRAME_COUNT)
  }

  /** The mask of frames that frame 0 asks for. */
  function Wanted(f: FrameData): Mask { LowMask(Needed(Declared(f))) }

  /** Where in the payload the bucket of frame `i` starts, and how long it is. */
  function Offset(i: nat): nat { if i == 0 then 0 else BUCKET_0_SIZE + (i - 1) * BUCKET_N_SIZE }
  function Capacity(i: nat): nat { if i == 0 then BUCKET_0_SIZE else BUCKET_N_SIZE }

  /** Is every bit of `need` also set in `have`? */
  predicate Covers(have: Mask, need: Mask) {
    forall i :: 0 <= i < 32 && need[i] ==> have[i]
  }

  /** The part of the payload that frame `i` fills. */
  function Bucket(data: Buffer, i: nat): (b: seq<byte>)
    requires i < FRAME_COUNT
    ensures |b| == Capacity(i)
  {
    data[Offset(i)..Offset(i) + Capacity(i)]
  }

  predicate Duplicate(a: Assembly, f: FrameData) { a.frames[Index(f)] }

  /** Frame 0 that would complete at once on frames held from before. */
  predicate CompletesInstantly(a: Assembly, f: FrameData) {
    && Index(f) == 0 && !Duplicate(a, f) && a.frames != NoFrames()
    && Wanted(f) != LowMask(1) && Covers(a.frames[0 := true], Wanted(f))
  }

  /** Does this frame make the assembly start over? */
  predicate StartsOver(a: Assembly, f: FrameData) { Duplicate(a, f) || CompletesInstantly(a, f) }

  /** The payload bytes of a frame, padded to the full bucket. */
  function Chunk(f: FrameData): (c: seq<byte>)
    ensures |c| == Capacity(Index(f))
  {
    var skip := if Index(f) == 0 then 2 else 1;
    var bytes := if |f| <= skip then [] else f[skip..];
    bytes + Filler(Capacity(Index(f)) - |bytes|)
  }

  function Store(data: Buffer, f: FrameData): Buffer {
    var at := Offset(Index(f));
    data[..at] + Chunk(f) + data[at + Capacity(Index(f))..]
  }

  /** The assembly once frame `f` is in it. */
  function Added(a: Assembly, f: FrameData): Assembly {
    var held := if StartsOver(a, f) then NoFrames() else a.frames;
    Assembly(
      held[Index(f) := true],
      if Index(f) == 0 then Wanted(f) else a.allFrames,
      if Index(f) == 0 then Declared(f) else a.size,
      Store(a.data, f))
  }

  predicate IsComplete(a: Assembly) { a.allFrames != NoFrames() && a.frames == a.allFrames }

  /** A frame arrives at one slot: the assembly it leaves, and the payload it completes. */
  function Accept(a: Assembly, f: FrameData): (Assembly, Option<seq<byte>>) {
    var a' := Added(a, f);
    (a', if IsComplete(a') then Some(a'.data[..Min(a'.size, FASTPACKET_MAX_SIZE)]) else None)
  }

  // ----- One key on its own -----

  /** A reassembler for a single key: no assembly, or one in progress. */
  function Solo(state: Option<Assembly>, f: FrameData): (Option<Assembly>, Option<seq<byte>>) {
    var r := Accept(if state.Some? then state.value else Fresh(), f);
    (if r.1.Some? then None else Some(r.0), r.1)
  }

  function SoloState(state: Option<Assembly>, fs: seq<FrameData>): Option<Assembly> {
    Runs.State(Solo, state, fs)
  }

  function SoloOutputs(state: Option<Assembly>, fs: seq<FrameData>): (out: seq<Option<seq<byte>>>)
    ensures |out| == |fs|
  {
    Runs.Outputs(Solo, state, fs)
  }

  lemma SoloSnoc(state: Option<Assembly>, fs: seq<FrameData>, f: FrameData)
    ensures SoloState(state, fs + [f]) == Solo(SoloState(state, fs), f).0
    ensures SoloOutputs(state, fs + [f]) == SoloOutputs(state, fs) + [Solo(SoloState(state, fs), f).1]
  {
    Runs.Snoc(Solo, state, fs, f);
  }

  // ----- Facts about buckets and masks -----

  lemma StoreAt(data: Buffer, f: FrameData)
    ensures Bucket(Store(data, f), Index(f)) == Chunk(f)
    ensures forall i: nat :: i < FRAME_COUNT && i != Index(f) ==> Bucket(Store(data, f), i) == Bucket(data, i)
  {
  }

  lemma LowMaskInjective(m: nat, n: nat)
    requires m <= 32 && n <= 32
    ensures LowMask(m) == LowMask(n) <==> m == n
  {
    if m < n {
      assert LowMask(n)[m] != LowMask(m)[m];
    } else if n < m {
      assert LowMask(m)[n] != LowMask(n)[n];
    }
  }

  /** The mask of a slot is either not yet known, or asks for frame 0. */
  predicate MaskOk(a: Assembly) { a.allFrames == NoFrames() || a.allFrames[0] }

  lemma AddedMaskOk(a: Assembly, f: FrameData)
    requires MaskOk(a)
    ensures MaskOk(Added(a, f))
  {
  }

  // ----- The sender -----

  type Payload = p: seq<byte> | |p| <= 223 witness []

  function FrameTotal(p: Payload): (n: nat)
    ensures 1 <= n <= FRAME_COUNT
  {
    Needed(|p|)
  }

  /** The bytes of the payload that frame `i` carries, padded. */
  function Piece(p: Payload, i: nat): (c: seq<byte>)
    requires i < FrameTotal(p)
    ensures |c| == Capacity(i)
  {
    var end := Min(Offset(i) + Capacity(i), |p|);
    p[Offset(i)..end] + Filler(Offset(i) + Capacity(i) - end)
  }

  /** Frame `i` of the burst that carries payload `p` under sequence number `sq`. */
  function BurstFrame(p: Payload, sq: nat, i: nat): (f: FrameData)
    requires sq < 8 && i < FrameTotal(p)
    ensures Index(f) == i && Chunk(f) == Piece(p, i)
    ensures f[0] == sq * 32 + i
    ensures i == 0 ==> Declared(f) == |p|
  {
    if i == 0 then
      var f: FrameData := [sq * 32, |p|] + Piece(p, 0);
      assert f[2..] == Piece(p, 0);
      f
    else
      var f: FrameData := [sq * 32 + i] + Piece(p, i);
      assert f[1..] == Piece(p, i);
      f
  }

  /** The frames of the burst in the order `order`. */
  function Frames(p: Payload, sq: nat, order: seq<nat>): (fs: seq<FrameData>)
    requires sq < 8 && forall j :: 0 <= j < |order| ==> order[j] < FrameTotal(p)
    ensures |fs| == |order|
    ensures forall j :: 0 <= j < |order| ==> fs[j] == BurstFrame(p, sq, order[j])
  {
    seq(|order|, j requires 0 <= j < |order| => BurstFrame(p, sq, order[j]))
  }

  /** The indices from `i` up to `n`. */
  function Range(i: nat, n: nat): (r: seq<nat>)
    ensures |r| == if i < n then n - i else 0
    ensures forall j :: 0 <= j < |r| ==> r[j] == i + j
  {
    seq(if i < n then n - i else 0, j => i + j)
  }

  /** Packing `chunk` bytes from where bucket `i` starts gives frame `i`. */
  lemma Packed(p: Payload, sq: nat, i: nat, chunk: nat)
    requires sq < 8 && i < FrameTotal(p) && Offset(i) + chunk == Min(Offset(i) + Capacity(i), |p|)
    ensures [sq * 32 + i % 32] + (if i == 0 then [|p|] else []) + p[Offset(i)..Offset(i) + chunk]
              + Filler(Capacity(i) - chunk) == BurstFrame(p, sq, i)
  {
  }

  /** It is the last one exactly when nothing remains. */
  lemma LastPacked(p: Payload, i: nat, chunk: nat)
    requires i < FrameTotal(p) && Offset(i) + chunk == Min(Offset(i) + Capacity(i), |p|)
    ensures Offset(i) + chunk < |p| ==> i + 1 < FrameTotal(p) && Offset(i) + chunk == Offset(i + 1)
    ensures Offset(i) + chunk == |p| ==> i + 1 == FrameTotal(p)
  {
  }

  /** The first `n` frames of the burst, in order. */
  function FramesUpTo(p: Payload, sq: nat, n: nat): (fs: seq<FrameData>)
    requires sq < 8 && n <= FrameTotal(p)
    ensures |fs| == n
  {
    if n == 0 then [] else FramesUpTo(p, sq, n - 1) + [BurstFrame(p, sq, n - 1)]
  }

  /** One round of the transmit loop. */
  lemma NextPiece(p: Payload, sq: nat, i: nat, offset: nat, remaining: nat, header: seq<byte>, room: nat, chunk: nat)
    requires sq < 8 && i < FrameTotal(p) && offset == Offset(i) && offset + remaining == |p| && remaining > 0
    requires header == [sq * 32 + i % 32] + (if i == 0 then [|p|] else [])
    requires room == Capacity(i) && chunk == Min(remaining, room)
    ensures header + p[offset..offset + chunk] + Filler(room - chunk) == BurstFrame(p, sq, i)
    ensures remaining > chunk ==> i + 1 < FrameTotal(p) && offset + chunk == Offset(i + 1)
    ensures remaining == chunk ==> i + 1 == FrameTotal(p)
  {
    Packed(p, sq, i, chunk);
    LastPacked(p, i, chunk);
  }

  /** The transmit loop: a payload is cut into eight-byte frames, the last one padded.
      An empty payload sends nothing. */
  method Split(data: Payload, sq: nat) returns (frames: seq<FrameData>)
    requires sq < 8
    ensures frames == if data == [] then [] else FramesUpTo(data, sq, FrameTotal(data))
  {
    frames := [];
    var index: nat := 0;
    var remaining: nat := |data|;
    var offset: nat := 0;
    while remaining > 0
      invariant offset + remaining == |data|
      invariant index <= FrameTotal(data)
      invariant remaining > 0 ==> index < FrameTotal(data) && offset == Offset(index)
      invariant remaining == 0 ==> index == if data == [] then 0 else FrameTotal(data)
      invariant frames == FramesUpTo(data, sq, index)
    {
      var header := [sq * 32 + index % 32];
      var room := 7;
      if index == 0 {
        header := header + [|data|];
        room := 6;
      }
      var chunk := Min(remaining, room);
      NextPiece(data, sq, index, offset, remaining, header, room, chunk);
      var frame := header + data[offset..offset + chunk] + Filler(room - chunk);
      frames := frames + [frame];
      offset := offset + chunk;
      remaining := remaining - chunk;
      index := index + 1;
    }
  }

  lemma {:induction false} FramesUpToAt(p: Payload, sq: nat, n: nat, j: nat)
    requires sq < 8 && j < n <= FrameTotal(p)
    ensures FramesUpTo(p, sq, n)[j] == BurstFrame(p, sq, j)
  {
    if j < n - 1 {
      FramesUpToAt(p, sq, n - 1, j);
    }
  }

  lemma InOrder(p: Payload, sq: nat, n: nat)
    requires sq < 8 && n <= FrameTotal(p)
    ensures FramesUpTo(p, sq, n) == Frames(p, sq, Range(0, n))
  {
    forall j | 0 <= j < n
      ensures FramesUpTo(p, sq, n)[j] == Frames(p, sq, Range(0, n))[j]
    {
      FramesUpToAt(p, sq, n, j);
    }
  }

  // ----- Any order of arrival -----

  /** The assembly holds exactly the frames `got` of the burst for `p`. */
  predicate Has(a: Assembly, p: Payload, got: set<nat>) {
    && (forall i :: i in got ==> InBurst(p, i))
    && (forall i :: 0 <= i < 32 ==> (a.frames[i] <==> i in got))
    && (forall i :: i in got ==> Bucket(a.data, i) == Piece(p, i))
    && (0 in got ==> a.size == |p| && a.allFrames == LowMask(FrameTotal(p)))
    && MaskOk(a)
  }

  predicate InBurst(p: Payload, i: nat) { i < FrameTotal(p) }

  /** All the frames of the burst. */
  ghost function Whole(p: Payload): set<nat> { set i: nat | i < 32 && InBurst(p, i) }

  lemma HasAdded(a: Assembly, p: Payload, sq: nat, i: nat, got: set<nat>)
    requires sq < 8 && i < FrameTotal(p) && Has(a, p, got) && i !in got
    ensures var f := BurstFrame(p, sq, i);
            && (CompletesInstantly(a, f) <==> i == 0 && FrameTotal(p) > 1 && got + {0} == Whole(p))
            && Has(Added(a, f), p, if CompletesInstantly(a, f) then {0} else got + {i})
  {
    var f := BurstFrame(p, sq, i);
    StoreAt(a.data, f);
    LowMaskInjective(1, FrameTotal(p));
    if i == 0 && FrameTotal(p) > 1 {
      if got + {0} == Whole(p) {
        assert 1 in Whole(p);
        assert a.frames[1];
      }
      if Covers(a.frames[0 := true], Wanted(f)) {
        forall j | 0 <= j < FrameTotal(p)
          ensures j in got + {0}
        {
          assert Wanted(f)[j];
        }
      }
    }
  }

  lemma HasComplete(a: Assembly, p: Payload, got: set<nat>)
    requires Has(a, p, got)
    ensures IsComplete(a) <==> got == Whole(p)
  {
    if IsComplete(a) {
      assert a.frames[0];
      assert forall i :: 0 <= i < 32 ==> (LowMask(FrameTotal(p))[i] <==> i in got);
    }
    if got == Whole(p) {
      assert 0 in got;
      assert a.frames == a.allFrames;
    }
  }

  lemma HasPayload(a: Assembly, p: Payload)
    requires Has(a, p, Whole(p))
    ensures a.data[..a.size] == p
  {
    assert 0 in Whole(p);
    forall b | 0 <= b < |p|
      ensures a.data[b] == p[b]
    {
      var i := if b < 6 then 0 else 1 + (b - 6) / 7;
      assert i in Whole(p);
      ByteOfBucket(a.data, p, i, b - Offset(i));
    }
  }

  lemma ByteOfBucket(data: Buffer, p: Payload, i: nat, k: nat)
    requires i < FrameTotal(p) && k < Capacity(i) && Offset(i) + k < |p| && Bucket(data, i) == Piece(p, i)
    ensures data[Offset(i) + k] == p[Offset(i) + k]
  {
    assert Bucket(data, i)[k] == data[Offset(i) + k];
    assert Piece(p, i)[k] == p[Offset(i) + k];
  }

  /** What is still to come, in some order without repetition. */
  ghost predicate Remaining(p: Payload, got: set<nat>, rest: seq<nat>) {
    && (forall j :: 0 <= j < |rest| ==> rest[j] < FrameTotal(p) && rest[j] !in got)
    && (forall i :: i in Whole(p) ==> i in got || i in rest)
    && (forall j, k :: 0 <= j < k < |rest| ==> rest[j] != rest[k])
  }

  lemma RemainingStep(p: Payload, got: set<nat>, rest: seq<nat>)
    requires rest != [] && Remaining(p, got, rest)
    ensures Remaining(p, got + {rest[0]}, rest[1..])
    ensures |rest| == 1 <==> got + {rest[0]} >= Whole(p)
  {
    forall i | i in Whole(p)
      ensures i in got + {rest[0]} || i in rest[1..]
    {
      if i !in got && i != rest[0] {
        assert i in rest;
        var j :| 0 <= j < |rest| && rest[j] == i;
        assert rest[1..][j - 1] == i;
      }
    }
    if |rest| > 1 {
      assert rest[1] in rest && rest[1] != rest[0];
    }
  }

  lemma OutputsStep(state: Option<Assembly>, fs: seq<FrameData>, next: Option<Assembly>, out: Option<seq<byte>>)
    requires fs != [] && Solo(state, fs[0]) == (next, out)
    ensures SoloOutputs(state, fs) == [out] + SoloOutputs(next, fs[1..])
    ensures SoloState(state, fs) == SoloState(next, fs[1..])
  {
  }

  /** The next frame: none but the last one completes anything. */
  lemma NextFrame(a: Assembly, p: Payload, sq: nat, got: set<nat>, rest: seq<nat>) returns (a': Assembly)
    requires sq < 8 && Has(a, p, got) && Remaining(p, got, rest) && rest != []
    ensures var f := BurstFrame(p, sq, rest[0]);
            if |rest| > 1 then
              Solo(Some(a), f) == (Some(a'), None) && Has(a', p, got + {rest[0]})
            else
              Solo(Some(a), f).1 == if FrameTotal(p) == 1 || rest[0] != 0 then Some(p) else None
  {
    var i := rest[0];
    var f := BurstFrame(p, sq, i);
    a' := Added(a, f);
    HasAdded(a, p, sq, i, got);
    RemainingStep(p, got, rest);
    if CompletesInstantly(a, f) {
      HasComplete(a', p, {0});
      assert InBurst(p, 1) && 1 in Whole(p);
    } else {
      HasComplete(a', p, got + {i});
      if got + {i} == Whole(p) {
        HasPayload(a', p);
      }
    }
  }

  lemma NextOutput(a: Assembly, p: Payload, sq: nat, got: set<nat>, rest: seq<nat>) returns (a': Assembly)
    requires sq < 8 && Has(a, p, got) && Remaining(p, got, rest) && rest != []
    ensures |rest| > 1 ==>
              && SoloOutputs(Some(a), Frames(p, sq, rest)) == [None] + SoloOutputs(Some(a'), Frames(p, sq, rest[1..]))
              && Has(a', p, got + {rest[0]})
    ensures |rest| == 1 ==>
              SoloOutputs(Some(a), Frames(p, sq, rest)) == [if FrameTotal(p) == 1 || rest[0] != 0 then Some(p) else None]
  {
    var fs := Frames(p, sq, rest);
    a' := NextFrame(a, p, sq, got, rest);
    assert fs[1..] == Frames(p, sq, rest[1..]);
    var r := Solo(Some(a), BurstFrame(p, sq, rest[0]));
    OutputsStep(Some(a), fs, r.0, r.1);
  }

  /** Nothing until the last result, and then `last`. */
  predicate OnlyLast(out: seq<Option<seq<byte>>>, last: Option<seq<byte>>) {
    && out != []
    && out[|out| - 1] == last
    && forall k :: 0 <= k < |out| - 1 ==> out[k] == None
  }

  lemma OnlyLastCons(all: seq<Option<seq<byte>>>, out: seq<Option<seq<byte>>>, last: Option<seq<byte>>)
    requires all == [None] + out && OnlyLast(out, last)
    ensures OnlyLast(all, last)
  {
  }

  /** What the last frame of a burst completes. */
  function Outcome(p: Payload, order: seq<nat>): Option<seq<byte>>
    requires order != []
  {
    if FrameTotal(p) == 1 || order[|order| - 1] != 0 then Some(p) else None
  }

  lemma OutcomeOfRest(p: Payload, rest: seq<nat>)
    requires |rest| > 1
    ensures Outcome(p, rest[1..]) == Outcome(p, rest)
  {
    assert rest[1..][|rest| - 2] == rest[|rest| - 1];
  }

  lemma {:induction false} FeedRest(a: Assembly, p: Payload, sq: nat, got: set<nat>, rest: seq<nat>, all: seq<Option<seq<byte>>>)
    requires sq < 8 && Has(a, p, got) && Remaining(p, got, rest) && rest != []
    requires all == SoloOutputs(Some(a), Frames(p, sq, rest))
    ensures OnlyLast(all, Outcome(p, rest))
    decreases |rest|
  {
    var a' := NextOutput(a, p, sq, got, rest);
    if |rest| > 1 {
      RemainingStep(p, got, rest);
      var later := SoloOutputs(Some(a'), Frames(p, sq, rest[1..]));
      FeedRest(a', p, sq, got + {rest[0]}, rest[1..], later);
      OutcomeOfRest(p, rest);
      OnlyLastCons(all, later, Outcome(p, rest));
    }
  }

  lemma FreshIsNone(fs: seq<FrameData>)
    ensures SoloOutputs(None, fs) == SoloOutputs(Some(Fresh()), fs)
  {
  }

  ghost predicate Permutation(p: Payload, order: seq<nat>) { Remaining(p, {}, order) }

  /** A burst whose frames arrive once each, in any order, on a slot that holds nothing:
      no result until the last frame, and then exactly the payload, unless there are several
      frames and frame 0 came last; then nothing. */
  lemma AnyOrder(p: Payload, sq: nat, order: seq<nat>)
    requires sq < 8 && Permutation(p, order)
    ensures order != []
    ensures OnlyLast(SoloOutputs(None, Frames(p, sq, order)), Outcome(p, order))
  {
    assert InBurst(p, 0) && 0 in Whole(p);
    FeedRest(Fresh(), p, sq, {}, order, SoloOutputs(Some(Fresh()), Frames(p, sq, order)));
    FreshIsNone(Frames(p, sq, order));
  }
}
