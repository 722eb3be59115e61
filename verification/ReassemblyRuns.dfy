/** Whole runs of the reassembler: any mixture of frames of any PGNs and sources. */
module ReassemblyRuns {
  import opened Wire
  import Runs
  import opened SlotTable
  import opened FastPacket
  import opened FastPacketLoss
  import opened FastPacketMix
  import FastPacketOrder
  import opened FastPacketOrigin
  import opened TransportProtocol
  import opened TransportOrigin
  import opened Reassembler

  datatype Input = Input(frame: RawFrame, packetType: PacketType)

  function After(ins: seq<Input>): Tables {
    if ins == [] then Empty()
    else Pushed(After(ins[..|ins| - 1]), ins[|ins| - 1].frame, ins[|ins| - 1].packetType).0
  }

  /** What the reassembler says to the last frame. */
  function LastReply(ins: seq<Input>): Reassembled
    requires ins != []
  {
    Pushed(After(ins[..|ins| - 1]), ins[|ins| - 1].frame, ins[|ins| - 1].packetType).1
  }

  /** A fast-packet frame of the PGN, source and sequence number of `key`. */
  predicate Concerns(x: Input, key: Key) {
    && x.packetType == Fast && x.frame.pgn != 60416 && x.frame.pgn != 60160 && 1 <= |x.frame.data| <= 8
    && x.frame.pgn == key.pgn && x.frame.src == key.src && x.frame.data[0] / 32 == key.sq
  }

  /** The fast-packet frames for `key`, and their data. */
  function KeyLog(ins: seq<Input>, key: Key): seq<FrameData> {
    if ins == [] then []
    else
      KeyLog(ins[..|ins| - 1], key)
      + if Concerns(ins[|ins| - 1], key) then [ins[|ins| - 1].frame.data] else []
  }

  /** A frame, and what the reassembler says to it. */
  datatype Answer = Answer(to: RawFrame, reply: Reassembled)

  /** What the reassembler says to the frames for `key`. */
  function KeyReplies(ins: seq<Input>, key: Key): seq<Answer> {
    if ins == [] then []
    else
      KeyReplies(ins[..|ins| - 1], key)
      + if Concerns(ins[|ins| - 1], key) then [Answer(ins[|ins| - 1].frame, LastReply(ins))] else []
  }

  /** They are answers to the frames of the key, one each. */
  lemma {:induction false} RepliesToKey(ins: seq<Input>, key: Key)
    ensures |KeyReplies(ins, key)| == |KeyLog(ins, key)|
    ensures forall j :: 0 <= j < |KeyReplies(ins, key)| ==>
              var f := KeyReplies(ins, key)[j].to;
              f.pgn == key.pgn && f.src == key.src && f.data == KeyLog(ins, key)[j]
  {
    if ins != [] {
      RepliesToKey(ins[..|ins| - 1], key);
    }
  }

  // ----- The tables stay in order -----

  predicate TablesOk(t: Tables) {
    && |t.slots| == REASSEMBLY_BUFFER_SIZE && |t.sessions| == ISO_TP_SLOTS
    && Distinct(t.slots) && Distinct(t.sessions)
  }

  lemma FastTablesStep(t: Tables, f: RawFrame, i: nat)
    requires TablesOk(t) && 1 <= |f.data| <= 8 && i < |t.slots|
    requires Find(t.slots, KeyOf(f)) == Some(i) || (Find(t.slots, KeyOf(f)) == None && Place(t.slots) == Some(i))
    ensures var slots := Claimed(t.slots, t.nextAge, KeyOf(f), i);
            Distinct(slots) && Lookup(slots, KeyOf(f)) == Some(slots[i].held)
            && slots[i].used && slots[i].key == KeyOf(f)
    ensures var slots := Claimed(t.slots, t.nextAge, KeyOf(f), i);
            forall k :: k != KeyOf(f) ==>
              Lookup(slots, k) == if Evicts(t.slots, KeyOf(f), k) then None else Lookup(t.slots, k)
  {
    Overwrite(t.slots, i, Cell(true, KeyOf(f), t.nextAge, Fresh()));
    if Find(t.slots, KeyOf(f)).Some? {
      FindUnique(t.slots, i);
    }
  }

  /** One frame for the slots: its own key behaves as a reassembler of its own, an evicted key
      is forgotten, and nothing else is touched. */
  lemma FastStep(t: Tables, f: RawFrame)
    requires TablesOk(t) && 1 <= |f.data| <= 8
    ensures TablesOk(FastPushed(t, f).0)
    ensures var solo := Solo(Lookup(t.slots, KeyOf(f)), f.data);
            && Lookup(FastPushed(t, f).0.slots, KeyOf(f)) == solo.0
            && FastPushed(t, f).1 == match solo.1
                                     case Some(payload) => Reassembled.Complete(RawFrame(f.timestamp, f.prio, f.pgn, f.src, f.dst, payload))
                                     case None => Partial
    ensures forall k :: k != KeyOf(f) ==>
              Lookup(FastPushed(t, f).0.slots, k) == if Evicts(t.slots, KeyOf(f), k) then None else Lookup(t.slots, k)
  {
    var found := Find(t.slots, KeyOf(f));
    var i := if found.Some? then found.value else Place(t.slots).value;
    FastTablesStep(t, f, i);
    var slots := Claimed(t.slots, t.nextAge, KeyOf(f), i);
    Overwrite(slots, i, SlotAfter(slots[i], f.data));
  }

  lemma TpTablesStep(t: Tables, f: TpFrame)
    requires TablesOk(t)
    ensures TablesOk(Pushed(t, f, Other).0)
    ensures Pushed(t, f, Other).0.slots == t.slots
    ensures var solo := TpSolo(Lookup(t.sessions, f.src), f);
            && Lookup(Pushed(t, f, Other).0.sessions, f.src) == solo.0
            && Pushed(t, f, Other).1 == solo.1
    ensures forall k :: k != f.src ==>
              Lookup(Pushed(t, f, Other).0.sessions, k)
              == if OpensFor(t, f, k) then None else Lookup(t.sessions, k)
  {
    var found := Find(t.sessions, f.src);
    if f.data != [] {
      if f.pgn == PGN_ISO_TP_CM {
        match ReadCm(f)
        case Ignore =>
        case Drop =>
          if found.Some? {
            Overwrite(t.sessions, found.value, t.sessions[found.value].(used := false));
          }
        case Open(s) =>
          var i := if found.Some? then found.value else Place(t.sessions).value;
          Overwrite(t.sessions, i, Cell(true, f.src, t.tpNextAge + 1, s));
      } else if found.Some? {
        var cell := t.sessions[found.value];
        var s := Taken(cell.held, f.data);
        Overwrite(t.sessions, found.value, cell.(held := s));
        Overwrite(t.sessions, found.value, cell.(used := false, held := s.(timestamp := None)));
      }
    }
  }

  /** Frame `f` announces a transfer. */
  predicate Opens(f: RawFrame) { f.pgn == 60416 && IsAnnouncement(f) }

  /** Frame `f` opens a session in the slot of `victim`, another source. */
  predicate OpensFor(t: Tables, f: RawFrame, victim: byte) { Opens(f) && Evicts(t.sessions, f.src, victim) }

  lemma {:induction false} RunTablesOk(ins: seq<Input>)
    ensures TablesOk(After(ins))
  {
    if ins == [] {
    } else {
      var x := ins[|ins| - 1];
      var t := After(ins[..|ins| - 1]);
      RunTablesOk(ins[..|ins| - 1]);
      if IsTp(x.frame) {
        TpTablesStep(t, x.frame);
      } else if IsFast(x.frame, x.packetType) {
        FastStep(t, x.frame);
      }
    }
  }

  /** With room for at least one burst, no frame is ever turned away. */
  lemma NeverOutOfSlots(ins: seq<Input>)
    requires ins != []
    ensures LastReply(ins).Error? ==> LastReply(ins).error == EmptyData && ins[|ins| - 1].frame.data == []
  {
    RunTablesOk(ins[..|ins| - 1]);
  }

  predicate IsTransport(f: RawFrame) { f.pgn == 60416 || f.pgn == 60160 }

  /** What kind of reply each frame gets: a frame that is neither a transport frame nor one of a
      fast packet comes back as it is and changes nothing; an empty one of those is an error and
      changes nothing; all others are kept or complete a payload, under the PGN and source of the
      frame if it is one of a fast packet. */
  lemma RepliesExactly(ins: seq<Input>)
    requires ins != []
    ensures var x, r := ins[|ins| - 1], LastReply(ins);
            var f := x.frame;
            if !IsTransport(f) && (|f.data| > 8 || x.packetType != Fast) then
              r == PassThrough(f) && After(ins) == After(ins[..|ins| - 1])
            else if f.data == [] then r == Error(EmptyData) && After(ins) == After(ins[..|ins| - 1])
            else r == Partial || (r.Complete? && r.frame.src == f.src && (!IsTransport(f) ==> r.frame.pgn == f.pgn))
  {
    RunTablesOk(ins[..|ins| - 1]);
  }

  // ----- The slots refine a map of private reassemblers -----

  /** In this run the slot of `key`, once claimed, is never taken for another burst. */
  predicate NeverEvicted(ins: seq<Input>, key: Key) {
    ins == [] ||
    (&& NeverEvicted(ins[..|ins| - 1], key)
     && var x := ins[|ins| - 1];
        (IsFast(x.frame, x.packetType) && KeyOf(x.frame) != key ==>
           !Evicts(After(ins[..|ins| - 1]).slots, KeyOf(x.frame), key)))
  }

  lemma OtherStep(t: Tables, x: Input, key: Key)
    requires TablesOk(t) && !Concerns(x, key)
    requires IsFast(x.frame, x.packetType) ==> !Evicts(t.slots, KeyOf(x.frame), key)
    ensures Lookup(Pushed(t, x.frame, x.packetType).0.slots, key) == Lookup(t.slots, key)
  {
    if IsTp(x.frame) {
      TpTablesStep(t, x.frame);
    } else if IsFast(x.frame, x.packetType) {
      FastStep(t, x.frame);
    }
  }

  /** A payload goes out under the header of the frame that completes it. */
  predicate Agrees(a: Answer, out: Option<seq<byte>>) {
    a.reply == match out
               case Some(payload) =>
                 Reassembled.Complete(RawFrame(a.to.timestamp, a.to.prio, a.to.pgn, a.to.src, a.to.dst, payload))
               case None => Partial
  }

  predicate AllAgree(replies: seq<Answer>, outs: seq<Option<seq<byte>>>) {
    |replies| == |outs| && forall j :: 0 <= j < |outs| ==> Agrees(replies[j], outs[j])
  }

  /** For any key whose slot is not evicted, a run of the whole reassembler and a private
      reassembler fed only that key's frames hold the same assembly and say the same. */
  lemma {:induction false} RefinesPrivate(ins: seq<Input>, key: Key)
    requires NeverEvicted(ins, key)
    ensures Lookup(After(ins).slots, key) == SoloState(None, KeyLog(ins, key))
    ensures AllAgree(KeyReplies(ins, key), SoloOutputs(None, KeyLog(ins, key)))
  {
    if ins == [] {
      assert forall i :: 0 <= i < |Empty().slots| ==> !Empty().slots[i].used;
    } else {
      var before, x := ins[..|ins| - 1], ins[|ins| - 1];
      RefinesPrivate(before, key);
      RunTablesOk(before);
      if Concerns(x, key) {
        FastStep(After(before), x.frame);
        SoloSnoc(None, KeyLog(before, key), x.frame.data);
      } else {
        OtherStep(After(before), x, key);
        assert KeyLog(ins, key) == KeyLog(before, key);
        assert KeyReplies(ins, key) == KeyReplies(before, key);
      }
    }
  }

  /** At every push, the live keys and the new one are at most as many as the slots. */
  ghost predicate FewLiveKeys(ins: seq<Input>) {
    ins == [] ||
    (&& FewLiveKeys(ins[..|ins| - 1])
     && var x := ins[|ins| - 1];
        (IsFast(x.frame, x.packetType) ==>
           |LiveKeys(After(ins[..|ins| - 1]).slots) + {KeyOf(x.frame)}| <= REASSEMBLY_BUFFER_SIZE))
  }

  /** While at most 64 keys are live, every key has a private reassembler. */
  lemma {:induction false} FewKeysNeverEvict(ins: seq<Input>, key: Key)
    requires FewLiveKeys(ins)
    ensures NeverEvicted(ins, key)
  {
    if ins != [] {
      var before, x := ins[..|ins| - 1], ins[|ins| - 1];
      FewKeysNeverEvict(before, key);
      RunTablesOk(before);
      if IsFast(x.frame, x.packetType) {
        NoEviction(After(before).slots, KeyOf(x.frame));
      }
    }
  }

  /** Nothing is said until the last reply, and that agrees with `last`. */
  predicate AnsweredLast(replies: seq<Answer>, last: Option<seq<byte>>) {
    && replies != []
    && Agrees(replies[|replies| - 1], last)
    && forall j :: 0 <= j < |replies| - 1 ==> replies[j].reply == Partial
  }

  lemma AgreeSuffix(replies: seq<Answer>, first: seq<Option<seq<byte>>>, second: seq<Option<seq<byte>>>, last: Option<seq<byte>>)
    requires AllAgree(replies, first + second) && OnlyLast(second, last)
    ensures AnsweredLast(replies[|first|..], last)
  {
    forall j | 0 <= j < |second|
      ensures Agrees(replies[|first|..][j], second[j])
    {
      assert (first + second)[|first| + j] == second[j];
    }
  }

  /** A burst whose frames arrive in any order, in the midst of any other traffic: as long as
      its slot is not evicted, its frames are answered by nothing until the last one, and that
      one by exactly the payload, unless there are several frames and frame 0 came last. */
  lemma InterleavedBurst(ins: seq<Input>, key: Key, earlier: seq<FrameData>, p: Payload, sq: nat, order: seq<nat>)
    requires NeverEvicted(ins, key)
    requires sq < 8 && Permutation(p, order)
    requires KeyLog(ins, key) == earlier + Frames(p, sq, order) && SoloState(None, earlier) == None
    ensures order != [] && |KeyReplies(ins, key)| == |earlier| + |order|
    ensures AnsweredLast(KeyReplies(ins, key)[|earlier|..], Outcome(p, order))
  {
    RefinesPrivate(ins, key);
    AnyOrder(p, sq, order);
    Runs.Concat(Solo, None, earlier, Frames(p, sq, order));
    AgreeSuffix(KeyReplies(ins, key), SoloOutputs(None, earlier), SoloOutputs(None, Frames(p, sq, order)), Outcome(p, order));
  }

  /** What the slot of a key holds after its earlier frames. */
  function LeftBehind(earlier: seq<FrameData>): Assembly {
    var state := SoloState(None, earlier);
    if state.Some? then state.value else Fresh()
  }

  /** The indices that it holds. */
  function Leftovers(earlier: seq<FrameData>): Mask { LeftBehind(earlier).frames }

  lemma AgreeLast(replies: seq<Answer>, first: seq<Option<seq<byte>>>, second: seq<Option<seq<byte>>>)
    requires AllAgree(replies, first + second) && EndsQuiet(second)
    ensures replies != [] && replies[|replies| - 1].reply == Partial
  {
    assert (first + second)[|first| + |second| - 1] == second[|second| - 1];
  }

  /** A burst that arrives in order after whatever its key has left behind: it is answered by
      exactly its payload if and only if the leftovers recover. */
  lemma InterleavedRecovery(ins: seq<Input>, key: Key, earlier: seq<FrameData>, p: Payload, sq: nat)
    requires NeverEvicted(ins, key) && sq < 8
    requires KeyLog(ins, key) == earlier + FramesUpTo(p, sq, FrameTotal(p))
    ensures |KeyReplies(ins, key)| > |earlier|
    ensures if Recovers(Leftovers(earlier), p) then AnsweredLast(KeyReplies(ins, key)[|earlier|..], Some(p))
            else KeyReplies(ins, key)[|KeyReplies(ins, key)| - 1].reply == Partial
  {
    var state, a := SoloState(None, earlier), LeftBehind(earlier);
    var burst := FramesUpTo(p, sq, FrameTotal(p));
    RefinesPrivate(ins, key);
    RecoversExactly(a, p, sq);
    FreshIsNone(burst);
    Runs.Concat(Solo, None, earlier, burst);
    if Recovers(a.frames, p) {
      AgreeSuffix(KeyReplies(ins, key), SoloOutputs(None, earlier), SoloOutputs(state, burst), Some(p));
    } else {
      AgreeLast(KeyReplies(ins, key), SoloOutputs(None, earlier), SoloOutputs(state, burst));
    }
  }

  lemma AgreeEarly(replies: seq<Answer>, first: seq<Option<seq<byte>>>, second: seq<Option<seq<byte>>>)
    requires AllAgree(replies, first + second)
    ensures (exists j :: |first| <= j < |replies| - 1 && replies[j].reply.Complete?) <==> CompletesEarly(second)
  {
    forall j | 0 <= j < |second|
      ensures replies[|first| + j].reply.Complete? <==> second[j].Some?
    {
      assert (first + second)[|first| + j] == second[j];
    }
    if j :| |first| <= j < |replies| - 1 && replies[j].reply.Complete? {
      assert second[j - |first|].Some?;
    }
    if j :| 0 <= j < |second| - 1 && second[j].Some? {
      assert replies[|first| + j].reply.Complete?;
    }
  }

  /** A burst that arrives in order is answered by a payload before its last frame if and only
      if its key has left behind just the frames from some `k` on of a burst of as many frames,
      neither 0 nor 1. */
  lemma InterleavedMixing(ins: seq<Input>, key: Key, earlier: seq<FrameData>, p: Payload, sq: nat)
    requires NeverEvicted(ins, key) && sq < 8
    requires KeyLog(ins, key) == earlier + FramesUpTo(p, sq, FrameTotal(p))
    ensures var replies := KeyReplies(ins, key);
            (exists j :: |earlier| <= j < |replies| - 1 && replies[j].reply.Complete?)
            <==> IsTail(Leftovers(earlier), FrameTotal(p))
  {
    var state := SoloState(None, earlier);
    var burst := FramesUpTo(p, sq, FrameTotal(p));
    RefinesPrivate(ins, key);
    MixesExactly(LeftBehind(earlier), p, sq);
    FreshIsNone(burst);
    Runs.Concat(Solo, None, earlier, burst);
    AgreeEarly(KeyReplies(ins, key), SoloOutputs(None, earlier), SoloOutputs(state, burst));
  }

  /** The replies from number `from` on are complete exactly where the results are. */
  lemma AgreeEach(replies: seq<Answer>, first: seq<Option<seq<byte>>>, second: seq<Option<seq<byte>>>)
    requires AllAgree(replies, first + second)
    ensures forall k :: 0 <= k < |second| ==> Agrees(replies[|first|..][k], second[k])
  {
    forall k | 0 <= k < |second|
      ensures Agrees(replies[|first|..][k], second[k])
    {
      assert (first + second)[|first| + k] == second[k];
    }
  }

  /** A burst that arrives in any order, after whatever its key has left behind and amid any
      other traffic: it is answered on its last frame as on an empty slot if its first frame
      finds or makes the slot empty; if not, exactly those frames are answered by a payload at
      which the frames so far and the leftovers fill up what is asked for. */
  lemma InterleavedOrder(ins: seq<Input>, key: Key, earlier: seq<FrameData>, p: Payload, sq: nat, order: seq<nat>)
    requires NeverEvicted(ins, key) && sq < 8 && Permutation(p, order)
    requires KeyLog(ins, key) == earlier + Frames(p, sq, order)
    ensures order != [] && |KeyReplies(ins, key)| == |earlier| + |order|
    ensures var replies, a := KeyReplies(ins, key)[|earlier|..], LeftBehind(earlier);
            if FastPacketOrder.Afresh(a.frames, p, order[0]) then AnsweredLast(replies, Outcome(p, order))
            else forall t :: 0 <= t < |order| ==>
                   (replies[t].reply.Complete? <==> FastPacketOrder.CompletesAt(a, FrameTotal(p), order, t))
  {
    var state, burst := SoloState(None, earlier), Frames(p, sq, order);
    var a := LeftBehind(earlier);
    RefinesPrivate(ins, key);
    FastPacketOrder.HeldMaskOk(earlier);
    FastPacketOrder.AnyOrderExactly(a, p, sq, order);
    FreshIsNone(burst);
    Runs.Concat(Solo, None, earlier, burst);
    if FastPacketOrder.Afresh(a.frames, p, order[0]) {
      AgreeSuffix(KeyReplies(ins, key), SoloOutputs(None, earlier), SoloOutputs(state, burst), Outcome(p, order));
    } else {
      AgreeEach(KeyReplies(ins, key), SoloOutputs(None, earlier), SoloOutputs(state, burst));
      forall t | 0 <= t < |order|
        ensures KeyReplies(ins, key)[|earlier|..][t].reply.Complete? <==> FastPacketOrder.CompletesAt(a, FrameTotal(p), order, t)
      {
        assert FastPacketOrder.AnsweredBy(a, p, order, 0 + t, SoloOutputs(state, burst)[t]);
      }
    }
  }

  // ----- Provenance over whole runs -----

  /** Some suffix of the key's frames is all that its assembly is made of. */
  predicate HeldFrom(log: seq<FrameData>, state: Option<Assembly>) {
    state.Some? ==> exists m :: 0 <= m <= |log| && state.value == Held(log[m..])
  }

  lemma ProvenanceSuffix(recent: seq<FrameData>, f: FrameData) returns (m: nat)
    requires Accept(Held(recent), f).1.Some?
    ensures m <= |recent| && Carries((recent + [f])[m..], Accept(Held(recent), f).1.value)
  {
    Provenance(recent, f);
    m := SinceStart(recent + [f]);
  }

  /** The frames that an assembly, or a new claim, is made of. */
  lemma StartOf(log: seq<FrameData>, state: Option<Assembly>) returns (recent: seq<FrameData>, start: nat)
    requires HeldFrom(log, state)
    ensures start <= |log| && recent == log[start..]
    ensures (if state.Some? then state.value else Fresh()) == Held(recent)
  {
    start := |log|;
    if state.Some? {
      start :| 0 <= start <= |log| && state.value == Held(log[start..]);
    }
    recent := log[start..];
  }

  lemma HeldFromSolo(log: seq<FrameData>, state: Option<Assembly>, f: FrameData)
    requires HeldFrom(log, state)
    ensures HeldFrom(log + [f], Solo(state, f).0)
  {
    var recent, start := StartOf(log, state);
    HeldSnoc(recent, f);
    SuffixOfSuffix(log, f, recent, start, 0);
    assert Solo(state, f).0.Some? ==> Solo(state, f).0.value == Held((log + [f])[start..]);
  }

  lemma SuffixOfSuffix(log: seq<FrameData>, f: FrameData, recent: seq<FrameData>, start: nat, m: nat)
    requires start <= |log| && recent == log[start..] && m <= |recent|
    ensures start + m <= |log| && (recent + [f])[m..] == (log + [f])[start + m..]
  {
  }

  /** What an assembly, or a new claim, completes on `f`. */
  lemma Completed(state: Option<Assembly>, f: FrameData, a: Assembly)
    requires a == if state.Some? then state.value else Fresh()
    ensures Solo(state, f).1 == Accept(a, f).1
  {
  }

  lemma CarriedBySuffix(log: seq<FrameData>, state: Option<Assembly>, f: FrameData)
    requires HeldFrom(log, state) && Solo(state, f).1.Some?
    ensures exists m :: 0 <= m <= |log| && Carries((log + [f])[m..], Solo(state, f).1.value)
  {
    var recent, start := StartOf(log, state);
    Completed(state, f, Held(recent));
    var m := ProvenanceSuffix(recent, f);
    SuffixOfSuffix(log, f, recent, start, m);
  }

  lemma {:induction false} HeldFromRun(ins: seq<Input>, key: Key)
    ensures HeldFrom(KeyLog(ins, key), Lookup(After(ins).slots, key))
  {
    if ins == [] {
      assert forall i :: 0 <= i < |Empty().slots| ==> !Empty().slots[i].used;
    } else {
      var before, x := ins[..|ins| - 1], ins[|ins| - 1];
      HeldFromRun(before, key);
      RunTablesOk(before);
      if Concerns(x, key) {
        FastStep(After(before), x.frame);
        HeldFromSolo(KeyLog(before, key), Lookup(After(before).slots, key), x.frame.data);
      } else {
        assert KeyLog(ins, key) == KeyLog(before, key);
        if IsTp(x.frame) {
          TpTablesStep(After(before), x.frame);
        } else if IsFast(x.frame, x.packetType) {
          FastStep(After(before), x.frame);
        }
      }
    }
  }

  /** In every run, evictions included, a payload that a fast-packet frame completes is carried
      by the latest frames of its own key: one frame for each index 0 to size / 7, and every
      byte from the frame of its bucket. No other PGN, source or sequence contributes. It goes
      out under the header of the completing frame. */
  lemma CompleteProvenance(ins: seq<Input>)
    requires ins != [] && LastReply(ins).Complete? && !IsTransport(ins[|ins| - 1].frame)
    ensures var f, out := ins[|ins| - 1].frame, LastReply(ins).frame;
            && f.data != []
            && out == RawFrame(f.timestamp, f.prio, f.pgn, f.src, f.dst, out.data)
            && var log := KeyLog(ins, Key(f.pgn, f.src, f.data[0] / 32));
               exists m :: 0 <= m < |log| && Carries(log[m..], out.data)
  {
    var before, x := ins[..|ins| - 1], ins[|ins| - 1];
    RepliesExactly(ins);
    var key := Key(x.frame.pgn, x.frame.src, x.frame.data[0] / 32);
    HeldFromRun(before, key);
    RunTablesOk(before);
    FastStep(After(before), x.frame);
    CarriedBySuffix(KeyLog(before, key), Lookup(After(before).slots, key), x.frame.data);
    assert KeyLog(ins, key) == KeyLog(before, key) + [x.frame.data];
  }

  // ----- Eviction takes the oldest claim -----

  /** Slots in use were claimed at different moments, all before now. */
  predicate AgesOk(t: Tables) {
    && (forall i :: 0 <= i < |t.slots| && t.slots[i].used ==> t.slots[i].age < t.nextAge)
    && (forall i, j :: 0 <= i < j < |t.slots| && t.slots[i].used && t.slots[j].used ==> t.slots[i].age != t.slots[j].age)
  }

  lemma {:induction false} RunAgesOk(ins: seq<Input>)
    ensures AgesOk(After(ins))
  {
    if ins == [] {
      assert forall i :: 0 <= i < |Empty().slots| ==> !Empty().slots[i].used;
    } else {
      var before, x := ins[..|ins| - 1], ins[|ins| - 1];
      RunAgesOk(before);
      RunTablesOk(before);
      if IsTp(x.frame) {
        TpTablesStep(After(before), x.frame);
        TpKeepsAge(After(before), x.frame, x.packetType);
      } else if IsFast(x.frame, x.packetType) {
        FastKeepsAges(After(before), x.frame);
      }
    }
  }

  lemma TpKeepsAge(t: Tables, f: TpFrame, packetType: PacketType)
    ensures Pushed(t, f, packetType).0.nextAge == t.nextAge
  {
  }

  lemma FastKeepsAges(t: Tables, f: RawFrame)
    requires TablesOk(t) && AgesOk(t) && 1 <= |f.data| <= 8
    ensures AgesOk(FastPushed(t, f).0)
  {
    var found := Find(t.slots, KeyOf(f));
    var i := if found.Some? then found.value else Place(t.slots).value;
    var claimed := Claimed(t.slots, t.nextAge, KeyOf(f), i);
    assert AgesOk(t.(slots := claimed, nextAge := if found.Some? then t.nextAge else t.nextAge + 1));
  }

  /** All slots are in use, and slot `i` was claimed before all others. */
  predicate ClaimedFirst(slots: seq<Slot>, i: nat)
    requires i < |slots|
  {
    forall j :: 0 <= j < |slots| ==> slots[j].used && (j != i ==> slots[i].age < slots[j].age)
  }

  /** A burst is evicted only when every slot is in use, and then it is the one claimed
      strictly before all the others. */
  lemma {:induction false} EvictedIsOldest(ins: seq<Input>, key: Key, victim: Key) returns (i: nat)
    requires Evicts(After(ins).slots, key, victim)
    ensures i < |After(ins).slots| && After(ins).slots[i].key == victim && ClaimedFirst(After(ins).slots, i)
  {
    RunTablesOk(ins);
    RunAgesOk(ins);
    EvictsOldest(After(ins).slots, key, victim);
    var slots := After(ins).slots;
    i := Find(slots, victim).value;
  }

  // ----- Transport sessions among other traffic -----

  /** The transport frames of source `src`. */
  function SourceLog(ins: seq<Input>, src: byte): seq<TpFrame> {
    if ins == [] then []
    else
      var x := ins[|ins| - 1];
      SourceLog(ins[..|ins| - 1], src) + if IsTp(x.frame) && x.frame.src == src then [x.frame] else []
  }

  predicate SessionNeverEvicted(ins: seq<Input>, src: byte) {
    ins == [] ||
    (SessionNeverEvicted(ins[..|ins| - 1], src)
     && !OpensFor(After(ins[..|ins| - 1]), ins[|ins| - 1].frame, src))
  }

  /** A source whose session is not evicted has a transport reassembler of its own. */
  lemma {:induction false} SessionsRefinePrivate(ins: seq<Input>, src: byte)
    requires SessionNeverEvicted(ins, src)
    ensures Lookup(After(ins).sessions, src) == TpState(None, SourceLog(ins, src))
    ensures ins != [] && IsTp(ins[|ins| - 1].frame) && ins[|ins| - 1].frame.src == src ==>
              LastReply(ins) == TpSolo(TpState(None, SourceLog(ins[..|ins| - 1], src)), ins[|ins| - 1].frame).1
  {
    if ins == [] {
      assert forall i :: 0 <= i < |Empty().sessions| ==> !Empty().sessions[i].used;
    } else {
      var before, x := ins[..|ins| - 1], ins[|ins| - 1];
      SessionsRefinePrivate(before, src);
      RunTablesOk(before);
      if IsTp(x.frame) {
        TpTablesStep(After(before), x.frame);
        if x.frame.src == src {
          TpSnoc(None, SourceLog(before, src), x.frame);
        } else {
          assert SourceLog(ins, src) == SourceLog(before, src);
        }
      } else {
        assert SourceLog(ins, src) == SourceLog(before, src);
        assert After(ins).sessions == After(before).sessions;
      }
    }
  }

  /** At every announcement, the sources with a session and the announcing one are at most as
      many as the sessions. */
  ghost predicate FewSources(ins: seq<Input>) {
    ins == [] ||
    (&& FewSources(ins[..|ins| - 1])
     && var f := ins[|ins| - 1].frame;
        (Opens(f) ==> |LiveKeys(After(ins[..|ins| - 1]).sessions) + {f.src}| <= ISO_TP_SLOTS))
  }

  /** While at most 16 sources have a session, every source has a transport reassembler of its
      own. */
  lemma {:induction false} FewSessionsNeverEvict(ins: seq<Input>, src: byte)
    requires FewSources(ins)
    ensures SessionNeverEvicted(ins, src)
  {
    if ins != [] {
      var before, f := ins[..|ins| - 1], ins[|ins| - 1].frame;
      FewSessionsNeverEvict(before, src);
      RunTablesOk(before);
      if Opens(f) {
        NoEviction(After(before).sessions, f.src);
      }
    }
  }

  /** A frame of another source leaves the session of `src` or evicts it. */
  lemma OtherSession(t: Tables, x: Input, src: byte)
    requires TablesOk(t) && !(IsTp(x.frame) && x.frame.src == src)
    ensures var after := Lookup(Pushed(t, x.frame, x.packetType).0.sessions, src);
            after == Lookup(t.sessions, src) || after == None
  {
    if IsTp(x.frame) {
      TpTablesStep(t, x.frame);
    }
  }

  lemma {:induction false} SessionFromRun(ins: seq<Input>, src: byte)
    ensures SessionFrom(SourceLog(ins, src), Lookup(After(ins).sessions, src))
  {
    if ins == [] {
      assert forall i :: 0 <= i < |Empty().sessions| ==> !Empty().sessions[i].used;
    } else {
      var before, x := ins[..|ins| - 1], ins[|ins| - 1];
      SessionFromRun(before, src);
      RunTablesOk(before);
      if IsTp(x.frame) && x.frame.src == src {
        TpTablesStep(After(before), x.frame);
        SessionSnoc(SourceLog(before, src), Lookup(After(before).sessions, src), x.frame);
      } else {
        assert SourceLog(ins, src) == SourceLog(before, src);
        OtherSession(After(before), x, src);
      }
    }
  }

  /** In every run, evictions included, a message that a transport frame completes is what the
      frames of its source have brought since its latest announcement, under that header. */
  lemma {:induction false} TransferFromRun(ins: seq<Input>)
    requires ins != [] && IsTp(ins[|ins| - 1].frame) && LastReply(ins).Complete?
    ensures var src := ins[|ins| - 1].frame.src;
            exists m: nat :: TransferredSince(SourceLog(ins, src), m, src, LastReply(ins).frame)
  {
    var before, f := ins[..|ins| - 1], ins[|ins| - 1].frame;
    SessionFromRun(before, f.src);
    RunTablesOk(before);
    TpTablesStep(After(before), f);
    TransferProvenance(SourceLog(before, f.src), Lookup(After(before).sessions, f.src), f);
    assert SourceLog(ins, f.src) == SourceLog(before, f.src) + [f];
  }

  /** A message announced and then sent in chunks, in any order and with any repetitions, in
      the midst of any other traffic that does not evict its session: the last frame of the
      run is answered by the whole message exactly if it is the one that was still missing. */
  lemma {:induction false} InterleavedTransfer(ins: seq<Input>, earlier: seq<TpFrame>, cm: TpFrame, m: Message, zs: seq<nat>, fs: seq<TpFrame>)
    requires ins != [] && SessionNeverEvicted(ins, cm.src)
    requires Announces(cm, m) && |fs| == |zs| && zs != []
    requires forall j :: 0 <= j < |zs| ==> Bears(fs[j], m, zs[j]) && fs[j].src == cm.src
    requires SourceLog(ins, cm.src) == earlier + [cm] + fs && ins[|ins| - 1].frame == fs[|fs| - 1]
    ensures LastReply(ins) == if Covered(m, zs, |zs|) && !Covered(m, zs, |zs| - 1)
                              then Reassembled.Complete(Expected(cm, m)) else Partial
  {
    var k := |zs| - 1;
    var log := SourceLog(ins[..|ins| - 1], cm.src);
    SessionsRefinePrivate(ins, cm.src);
    assert SourceLog(ins, cm.src) == log + [fs[k]];
    LogBeforeLast(log, earlier, cm, fs);
    Runs.Concat(TpSolo, None, earlier + [cm], fs[..k]);
    TpSnoc(None, earlier, cm);
    TransferExact(TpState(None, earlier), cm, m, zs, fs, k);
  }

  lemma LogBeforeLast(log: seq<TpFrame>, earlier: seq<TpFrame>, cm: TpFrame, fs: seq<TpFrame>)
    requires fs != [] && log + [fs[|fs| - 1]] == earlier + [cm] + fs
    ensures log == (earlier + [cm]) + fs[..|fs| - 1]
  {
    assert log == (log + [fs[|fs| - 1]])[..|log|];
    assert log == (earlier + [cm] + fs)[..|earlier| + |fs|];
  }

}
