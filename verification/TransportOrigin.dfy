/** Where every byte of a completed transfer comes from, whatever was announced and sent. */
module TransportOrigin {
  import opened Wire
  import Runs
  import opened TransportProtocol

  /** Data frame `f` brings chunk `z` of an announcement of `packets` chunks. */
  predicate Brings(f: TpFrame, packets: nat, z: nat) {
    f.pgn == PGN_ISO_TP_DT && f.data != [] && z < packets && f.data[0] == z + 1
  }

  /** It has a byte for place `b` of the message. */
  predicate Reaches(f: TpFrame, packets: nat, b: nat) { Brings(f, packets, b / 7) && 1 + b % 7 < |f.data| }

  /** The byte at `b`: that of the latest frame that has one, else filler. */
  function ByteOf(fs: seq<TpFrame>, packets: nat, b: nat): byte {
    if fs == [] then 0xff
    else
      var f := fs[|fs| - 1];
      if Reaches(f, packets, b) then f.data[1 + b % 7] else ByteOf(fs[..|fs| - 1], packets, b)
  }

  /** Frame `j` is the latest that has a byte for place `b`. */
  predicate IsLatest(fs: seq<TpFrame>, packets: nat, b: nat, j: nat) {
    && j < |fs| && Reaches(fs[j], packets, b)
    && forall i :: j < i < |fs| ==> !Reaches(fs[i], packets, b)
  }

  /** Said without recursion. */
  lemma {:induction false} ByteOfExactly(fs: seq<TpFrame>, packets: nat, b: nat)
    ensures (forall i :: 0 <= i < |fs| ==> !Reaches(fs[i], packets, b)) ==> ByteOf(fs, packets, b) == 0xff
    ensures forall j: nat :: IsLatest(fs, packets, b, j) ==> ByteOf(fs, packets, b) == fs[j].data[1 + b % 7]
  {
    if fs != [] {
      ByteOfExactly(fs[..|fs| - 1], packets, b);
      forall j: nat | IsLatest(fs, packets, b, j)
        ensures ByteOf(fs, packets, b) == fs[j].data[1 + b % 7]
      {
        if j < |fs| - 1 {
          assert IsLatest(fs[..|fs| - 1], packets, b, j);
        }
      }
    }
  }

  /** Announced bytes that no announced packet can bring are filler. */
  lemma BeyondPackets(fs: seq<TpFrame>, packets: nat, b: nat)
    requires 7 * packets <= b
    ensures ByteOf(fs, packets, b) == 0xff
  {
    ByteOfExactly(fs, packets, b);
  }

  /** Chunk `z` is among the frames. */
  predicate Brought(fs: seq<TpFrame>, packets: nat, z: nat) { exists j :: 0 <= j < |fs| && Brings(fs[j], packets, z) }

  predicate AllBrought(fs: seq<TpFrame>, packets: nat) { forall z: nat :: z < packets ==> Brought(fs, packets, z) }

  lemma BroughtSnoc(fs: seq<TpFrame>, f: TpFrame, packets: nat, z: nat)
    ensures Brought(fs + [f], packets, z) <==> Brought(fs, packets, z) || Brings(f, packets, z)
  {
    var all := fs + [f];
    assert all[|fs|] == f;
    if j :| 0 <= j < |fs| && Brings(fs[j], packets, z) {
      assert all[j] == fs[j];
    }
  }

  lemma ByteSnoc(fs: seq<TpFrame>, f: TpFrame, packets: nat, b: nat)
    ensures ByteOf(fs + [f], packets, b) == if Reaches(f, packets, b) then f.data[1 + b % 7] else ByteOf(fs, packets, b)
  {
    assert (fs + [f])[..|fs|] == fs;
  }

  // ----- One session -----

  /** What the session that `cm` announced has become after the frames `fs`. */
  predicate Grown(s: Open, cm: TpFrame, fs: seq<TpFrame>)
    requires IsAnnouncement(cm)
  {
    && s.totalSize == SizeIn(cm) && s.packets == cm.data[3]
    && s.targetPgn == cm.data[5] as int + 0x100 * cm.data[6] as int + 0x1_0000 * cm.data[7] as int
    && s.dst == cm.dst && s.prio == cm.prio && s.timestamp == cm.timestamp
    && (forall z: nat :: z < s.packets ==> (Bit(s.received, z) <==> Brought(fs, s.packets, z)))
    && (forall b: nat :: b < s.totalSize ==> s.data[b] == ByteOf(fs, s.packets, b))
  }

  lemma OpenedGrown(s: Open, cm: TpFrame)
    requires IsAnnouncement(cm) && IsOpened(s, cm)
    ensures Grown(s, cm, []) && !AllBrought([], s.packets)
  {
    assert !Brought([], s.packets, 0);
  }

  /** What a chunk does to one byte of the buffer. */
  lemma TakenByte(s: Open, data: seq<byte>, b: nat)
    requires data != [] && b < s.totalSize
    ensures Taken(s, data).totalSize == s.totalSize
    ensures Taken(s, data).data[b]
            == if 1 <= data[0] <= s.packets && data[0] - 1 == b / 7 && 1 + b % 7 < |data| then data[1 + b % 7] else s.data[b]
  {
    if 1 <= data[0] <= s.packets {
      var z := data[0] - 1;
      var n := Supplied(s, z, |data|);
      if n > 0 {
        Spliced(s.data, z * CHUNK, data[1..1 + n], Taken(s, data).data);
        if z * CHUNK <= b < z * CHUNK + n {
          assert Taken(s, data).data[z * CHUNK..z * CHUNK + n][b - z * CHUNK] == data[1..1 + n][b - z * CHUNK];
        }
      }
    }
  }

  lemma TakenGrown(s: Open, cm: TpFrame, fs: seq<TpFrame>, f: TpFrame)
    requires IsAnnouncement(cm) && Grown(s, cm, fs) && f.pgn == PGN_ISO_TP_DT && f.data != []
    ensures Grown(Taken(s, f.data), cm, fs + [f])
  {
    var s' := Taken(s, f.data);
    forall z: nat | z < s.packets
      ensures Bit(s'.received, z) <==> Brought(fs + [f], s.packets, z)
    {
      BroughtSnoc(fs, f, s.packets, z);
    }
    forall b: nat | b < s.totalSize
      ensures s'.data[b] == ByteOf(fs + [f], s.packets, b)
    {
      ByteSnoc(fs, f, s.packets, b);
      TakenByte(s, f.data, b);
    }
  }

  lemma FinishesExactly(s: Open, cm: TpFrame, fs: seq<TpFrame>, f: TpFrame)
    requires IsAnnouncement(cm) && Grown(s, cm, fs) && !AllBrought(fs, s.packets) && f.pgn == PGN_ISO_TP_DT && f.data != []
    ensures Finishes(s, f.data) <==> AllBrought(fs + [f], s.packets)
  {
    TakenGrown(s, cm, fs, f);
    WordTestExact(Taken(s, f.data));
    if !(1 <= f.data[0] <= s.packets) {
      forall z: nat
        ensures Brought(fs + [f], s.packets, z) <==> Brought(fs, s.packets, z)
      {
        BroughtSnoc(fs, f, s.packets, z);
      }
    }
  }

  // ----- What announces and what aborts -----

  /** The size and the number of packets that a connection-management frame gives. */
  function SizeIn(f: TpFrame): nat
    requires |f.data| >= 8
  {
    f.data[1] as int + 0x100 * f.data[2] as int
  }

  /** Frame `f` announces a transfer: a broadcast or a request to send, of at least one packet and
      between 1 and 1785 bytes. */
  predicate IsAnnouncement(f: TpFrame) {
    && f.pgn == 60416 && |f.data| >= 8 && (f.data[0] == 32 || f.data[0] == 16)
    && f.data[3] >= 1 && 1 <= SizeIn(f) <= 1785
  }

  predicate Aborts(f: TpFrame) { f.pgn == 60416 && f.data != [] && f.data[0] == 255 }

  /** Frame `f` opens, replaces or closes a session. */
  predicate Decides(f: TpFrame) { IsAnnouncement(f) || Aborts(f) }

  /** A frame that a session does not notice. */
  predicate Unnoticed(f: TpFrame) { f.data == [] || (f.pgn == 60416 && !Decides(f)) }

  /** What an announcement makes of a session: nothing received, and filler in every place. */
  predicate IsOpened(s: Open, cm: TpFrame)
    requires IsAnnouncement(cm)
  {
    && s.totalSize == SizeIn(cm) && s.packets == cm.data[3]
    && s.targetPgn == cm.data[5] as int + 0x100 * cm.data[6] as int + 0x1_0000 * cm.data[7] as int
    && s.dst == cm.dst && s.prio == cm.prio && s.timestamp == cm.timestamp
    && (forall z: nat :: z < 256 ==> !Bit(s.received, z)) && (forall b :: 0 <= b < |s.data| ==> s.data[b] == 0xff)
  }

  /** What a connection-management frame does to the session of its source, if there is one. */
  lemma AnnouncementExactly(state: Option<Open>, f: TpFrame)
    requires f.pgn == 60416 && f.data != []
    ensures TpSolo(state, f).1 == Partial
    ensures var next := TpSolo(state, f).0;
            if Aborts(f) then next == None
            else if IsAnnouncement(f) then next.Some? && IsOpened(next.value, f)
            else next == state
  {
  }

  lemma UnnoticedGrown(s: Open, cm: TpFrame, fs: seq<TpFrame>, f: TpFrame)
    requires IsAnnouncement(cm) && Grown(s, cm, fs) && Unnoticed(f)
    ensures Grown(s, cm, fs + [f]) && (AllBrought(fs + [f], s.packets) <==> AllBrought(fs, s.packets))
  {
    forall z: nat
      ensures Brought(fs + [f], s.packets, z) <==> Brought(fs, s.packets, z)
    {
      BroughtSnoc(fs, f, s.packets, z);
    }
    forall b: nat | b < s.totalSize
      ensures s.data[b] == ByteOf(fs + [f], s.packets, b)
    {
      ByteSnoc(fs, f, s.packets, b);
    }
  }

  // ----- A source -----

  /** Frame `m` of the log is an announcement, and no frame after it has decided anything since. */
  predicate LatestOpen(log: seq<TpFrame>, m: nat) {
    m < |log| && IsAnnouncement(log[m]) && forall i :: m < i < |log| ==> !Decides(log[i])
  }

  predicate IncompleteSince(log: seq<TpFrame>, m: nat, s: Open) {
    LatestOpen(log, m) && Grown(s, log[m], log[m + 1..]) && !AllBrought(log[m + 1..], s.packets)
  }

  /** A source's session is what its latest announcement and the frames since have made. */
  ghost predicate SessionFrom(log: seq<TpFrame>, state: Option<Open>) {
    state.Some? ==> exists m: nat :: IncompleteSince(log, m, state.value)
  }

  lemma OpenSnoc(log: seq<TpFrame>, m: nat, f: TpFrame)
    requires LatestOpen(log, m) && !Decides(f)
    ensures LatestOpen(log + [f], m) && (log + [f])[m + 1..] == log[m + 1..] + [f]
  {
    assert forall i :: 0 <= i < |log| ==> (log + [f])[i] == log[i];
  }

  lemma JustOpened(log: seq<TpFrame>, f: TpFrame, s: Open)
    requires IsAnnouncement(f) && IsOpened(s, f)
    ensures IncompleteSince(log + [f], |log|, s)
  {
    assert (log + [f])[|log|] == f && (log + [f])[|log| + 1..] == [];
    OpenedGrown(s, f);
  }

  lemma SessionSnoc(log: seq<TpFrame>, state: Option<Open>, f: TpFrame)
    requires SessionFrom(log, state)
    ensures SessionFrom(log + [f], TpSolo(state, f).0)
  {
    if Decides(f) {
      AnnouncementExactly(state, f);
      if IsAnnouncement(f) {
        JustOpened(log, f, TpSolo(state, f).0.value);
      }
    } else if state.Some? {
      var m: nat :| IncompleteSince(log, m, state.value);
      OpenSnoc(log, m, f);
      if Unnoticed(f) {
        UnnoticedStays(state, f);
        UnnoticedGrown(state.value, log[m], log[m + 1..], f);
        assert IncompleteSince(log + [f], m, state.value);
      } else {
        TakenGrown(state.value, log[m], log[m + 1..], f);
        FinishesExactly(state.value, log[m], log[m + 1..], f);
        assert !Finishes(state.value, f.data) ==> IncompleteSince(log + [f], m, Taken(state.value, f.data));
      }
    } else {
      NoSessionStays(f);
    }
  }

  lemma UnnoticedStays(state: Option<Open>, f: TpFrame)
    requires Unnoticed(f)
    ensures TpSolo(state, f).0 == state && !TpSolo(state, f).1.Complete?
  {
    if f.data != [] {
      AnnouncementExactly(state, f);
    }
  }

  lemma NoSessionStays(f: TpFrame)
    requires !Decides(f)
    ensures TpSolo(None, f).0 == None && !TpSolo(None, f).1.Complete?
  {
    if Unnoticed(f) {
      UnnoticedStays(None, f);
    }
  }

  /** The message `out` is what the frames since announcement `m` of the log have brought: all of
      the chunks it gives, each byte from the latest frame that has one for its place, filler
      elsewhere; under the header of the announcement. */
  predicate TransferredSince(log: seq<TpFrame>, m: nat, src: byte, out: RawFrame) {
    && LatestOpen(log, m)
    && var cm, fs := log[m], log[m + 1..];
       var packets := cm.data[3];
       && AllBrought(fs, packets)
       && out.timestamp == cm.timestamp && out.prio == cm.prio && out.src == src && out.dst == cm.dst
       && out.pgn == cm.data[5] as int + 0x100 * cm.data[6] as int + 0x1_0000 * cm.data[7] as int
       && |out.data| == cm.data[1] as int + 0x100 * cm.data[2] as int
       && forall b: nat :: b < |out.data| ==> out.data[b] == ByteOf(fs, packets, b)
  }

  /** A transfer completes exactly on the data frame that brings its last missing chunk. */
  lemma CompletesExactly(log: seq<TpFrame>, m: nat, s: Open, f: TpFrame)
    requires IncompleteSince(log, m, s) && !Decides(f)
    ensures var r := TpSolo(Some(s), f).1;
            && (r.Complete? <==> AllBrought((log + [f])[m + 1..], log[m].data[3]))
            && (r.Complete? ==> TransferredSince(log + [f], m, f.src, r.frame))
  {
    OpenSnoc(log, m, f);
    if Unnoticed(f) {
      UnnoticedStays(Some(s), f);
      UnnoticedGrown(s, log[m], log[m + 1..], f);
    } else {
      TakenGrown(s, log[m], log[m + 1..], f);
      FinishesExactly(s, log[m], log[m + 1..], f);
    }
  }

  /** Whatever a source completes is what its frames since its latest announcement have brought. */
  lemma TransferProvenance(log: seq<TpFrame>, state: Option<Open>, f: TpFrame)
    requires SessionFrom(log, state) && TpSolo(state, f).1.Complete?
    ensures exists m: nat :: TransferredSince(log + [f], m, f.src, TpSolo(state, f).1.frame)
  {
    if Decides(f) {
      AnnouncementExactly(state, f);
      assert false;
    }
    if state.None? {
      NoSessionStays(f);
      assert false;
    }
    var m: nat :| IncompleteSince(log, m, state.value);
    CompletesExactly(log, m, state.value, f);
  }
}
