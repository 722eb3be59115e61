/** One session of the ISO transport protocol: a connection-management frame announces a
    message, and data-transfer frames carry its numbered seven-byte chunks. */
module TransportProtocol {
  import opened Wire
  import Runs

  const PGN_ISO_TP_CM: nat := 60416
  const PGN_ISO_TP_DT: nat := 60160
  const TP_CM_BAM: byte := 32
  const TP_CM_RTS: byte := 16
  const TP_CM_ABORT: byte := 255
  const CHUNK: nat := 7
  const ISO_TP_MAX_SIZE: nat := 1785

  /** A 64-bit word, bit by bit from the low end, and the bitmap of four of them. */
  type Word = w: seq<bool> | |w| == 64 witness seq(64, _ => false)
  type Bitmap = b: seq<Word> | |b| == 4 witness seq(4, _ => seq(64, _ => false))

  function EmptyBitmap(): Bitmap { seq(4, _ => seq(64, _ => false)) }

  datatype Session = Session(
    dst: byte,
    prio: byte,
    targetPgn: nat,
    totalSize: nat,
    packets: byte,
    received: Bitmap,
    timestamp: Option<string>,
    data: seq<byte>)

  /** What a connection-management frame asks for. */
  datatype Request = Ignore | Drop | Open(session: Session)

  function ReadCm(f: RawFrame): (r: Request)
    requires f.data != []
    ensures r.Open? ==>
              && 1 <= r.session.totalSize <= ISO_TP_MAX_SIZE && 1 <= r.session.packets
              && |r.session.data| == r.session.totalSize && r.session.received == EmptyBitmap()
  {
    var control := f.data[0];
    if control == TP_CM_ABORT then Drop
    else if control != TP_CM_BAM && control != TP_CM_RTS then Ignore
    else if |f.data| < 8 then Ignore
    else
      var totalSize := U16(f.data[1], f.data[2]);
      var packets := f.data[3];
      if packets == 0 || totalSize == 0 || totalSize > ISO_TP_MAX_SIZE then Ignore
      else Open(Session(f.dst, f.prio, U24(f.data[5], f.data[6], f.data[7]),
                        totalSize, packets, EmptyBitmap(), f.timestamp, Filler(totalSize)))
  }

  function Bit(b: Bitmap, z: nat): bool
    requires z < 256
  {
    b[z / 64][z % 64]
  }

  function SetBit(b: Bitmap, z: nat): (b': Bitmap)
    requires z < 256
    ensures forall y: nat :: y < 256 ==> (Bit(b', y) <==> y == z || Bit(b, y))
  {
    b[z / 64 := b[z / 64][z % 64 := true]]
  }

  predicate AllOnes(w: Word) { forall i :: 0 <= i < 64 ==> w[i] }
  predicate LowOnes(w: Word, n: nat)
    requires n < 64
  {
    forall i :: 0 <= i < n ==> w[i]
  }

  /** The completion test: whole words all ones, and the low bits of the word after them. */
  predicate AllReceived(s: Session) {
    && (forall w :: 0 <= w < s.packets / 64 ==> AllOnes(s.received[w]))
    && (s.packets % 64 == 0 || LowOnes(s.received[s.packets / 64], s.packets % 64))
  }

  /** The word test says that every sequence number has been received. */
  lemma WordTestExact(s: Session)
    ensures AllReceived(s) <==> forall z: nat :: z < s.packets ==> Bit(s.received, z)
  {
    if AllReceived(s) {
      forall z: nat | z < s.packets
        ensures Bit(s.received, z)
      {
        if z / 64 < s.packets / 64 {
          assert AllOnes(s.received[z / 64]);
        }
      }
    }
    if forall z: nat :: z < s.packets ==> Bit(s.received, z) {
      forall w | 0 <= w < s.packets / 64
        ensures AllOnes(s.received[w])
      {
        forall i | 0 <= i < 64
          ensures s.received[w][i]
        {
          assert Bit(s.received, 64 * w + i);
        }
      }
      forall i | 0 <= i < s.packets % 64
        ensures s.received[s.packets / 64][i]
      {
        assert Bit(s.received, 64 * (s.packets / 64) + i);
      }
    }
  }

  /** How many bytes of chunk `z` a frame with `count` data bytes supplies. */
  function Supplied(s: Session, z: nat, count: nat): nat
    requires count > 0
  {
    var end := Min(z * CHUNK + CHUNK, s.totalSize);
    Min(if end > z * CHUNK then end - z * CHUNK else 0, count - 1)
  }

  /** The session once the chunk numbered `data[0]` is in it. */
  function Taken(s: Session, data: seq<byte>): (s': Session)
    requires |s.data| == s.totalSize && data != []
    ensures |s'.data| == s'.totalSize
  {
    if data[0] == 0 || data[0] > s.packets then s
    else
      var z := data[0] - 1;
      var n := Supplied(s, z, |data|);
      s.(received := SetBit(s.received, z),
         data := if n > 0 then s.data[..z * CHUNK] + data[1..1 + n] + s.data[z * CHUNK + n..] else s.data)
  }

  /** Does this data frame finish the session? */
  predicate Finishes(s: Session, data: seq<byte>)
    requires |s.data| == s.totalSize && data != []
  {
    1 <= data[0] <= s.packets && AllReceived(Taken(s, data))
  }

  function Assembled(s: Session, src: byte): RawFrame {
    RawFrame(s.timestamp, s.prio, s.targetPgn, src, s.dst, s.data)
  }

  // ----- One source on its own -----

  type Open = s: Session | |s.data| == s.totalSize witness Session(0, 0, 0, 0, 0, EmptyBitmap(), None, [])

  predicate IsTp(f: RawFrame) { f.pgn == PGN_ISO_TP_CM || f.pgn == PGN_ISO_TP_DT }

  type TpFrame = f: RawFrame | IsTp(f) witness RawFrame(None, 0, PGN_ISO_TP_CM, 0, 0, [])

  /** A reassembler for the transport frames of a single source. */
  function TpSolo(state: Option<Open>, f: TpFrame): (Option<Open>, Reassembled)
  {
    if f.data == [] then (state, Error(EmptyData))
    else if f.pgn == PGN_ISO_TP_CM then
      match ReadCm(f)
      case Ignore => (state, Partial)
      case Drop => (None, Partial)
      case Open(s) => (Some(s), Partial)
    else if state.None? then (None, Partial)
    else if Finishes(state.value, f.data) then (None, Complete(Assembled(Taken(state.value, f.data), f.src)))
    else (Some(Taken(state.value, f.data)), Partial)
  }

  function TpState(state: Option<Open>, fs: seq<TpFrame>): Option<Open>
  {
    Runs.State(TpSolo, state, fs)
  }

  lemma TpSnoc(state: Option<Open>, fs: seq<TpFrame>, f: TpFrame)
    ensures TpState(state, fs + [f]) == TpSolo(TpState(state, fs), f).0
  {
    Runs.Snoc(TpSolo, state, fs, f);
  }

  // ----- A message in any order, with repetitions -----

  type Message = m: seq<byte> | 1 <= |m| <= 1785 witness [0]

  function Chunks(m: Message): (n: nat)
    ensures 1 <= n <= 255
  {
    (|m| + 6) / 7
  }

  function ChunkOf(m: Message, z: nat): seq<byte>
    requires z < Chunks(m)
  {
    m[z * 7..Min(z * 7 + 7, |m|)]
  }

  /** `f` announces message `m`. */
  predicate Announces(f: TpFrame, m: Message) {
    && f.pgn == 60416 && |f.data| >= 8 && (f.data[0] == 32 || f.data[0] == 16)
    && f.data[1] as int + 0x100 * f.data[2] as int == |m| && f.data[3] == Chunks(m)
  }

  /** The frame that must come out: the message, under the header of its announcement. */
  function Expected(cm: TpFrame, m: Message): RawFrame
    requires Announces(cm, m)
  {
    RawFrame(cm.timestamp, cm.prio, cm.data[5] as int + 0x100 * cm.data[6] as int + 0x1_0000 * cm.data[7] as int, cm.src, cm.dst, m)
  }

  /** `f` carries chunk `z` of `m`, padded or not. */
  predicate Bears(f: TpFrame, m: Message, z: nat) {
    && f.pgn == PGN_ISO_TP_DT && z < Chunks(m)
    && |f.data| > |ChunkOf(m, z)|
    && f.data[0] == z + 1 && f.data[1..1 + |ChunkOf(m, z)|] == ChunkOf(m, z)
  }

  /** Every chunk is among the first `k` of `zs`. */
  predicate Covered(m: Message, zs: seq<nat>, k: nat)
    requires k <= |zs|
  {
    forall z: nat :: z < Chunks(m) ==> z in zs[..k]
  }

  /** The chunks `got` are in the buffer. */
  predicate HasChunks(d: seq<byte>, m: Message, got: seq<nat>) {
    |d| == |m| && forall z: nat :: z < Chunks(m) && z in got ==> d[z * 7..Min(z * 7 + 7, |m|)] == ChunkOf(m, z)
  }

  /** The session has exactly the chunks `got` of `m`. */
  predicate Sees(s: Open, cm: TpFrame, m: Message, got: seq<nat>) {
    && Announces(cm, m)
    && s.totalSize == |m| && s.packets == Chunks(m)
    && (forall z: nat :: z < Chunks(m) ==> (Bit(s.received, z) <==> z in got))
    && HasChunks(s.data, m, got)
    && s.dst == cm.dst && s.prio == cm.prio && s.timestamp == cm.timestamp
    && s.targetPgn == Expected(cm, m).pgn
  }

  /** Writing `c` at `at` leaves every part that does not overlap. */
  lemma Spliced(d: seq<byte>, at: nat, c: seq<byte>, d': seq<byte>)
    requires at + |c| <= |d| && d' == d[..at] + c + d[at + |c|..]
    ensures |d'| == |d| && d'[at..at + |c|] == c
    ensures forall b :: 0 <= b < |d| && !(at <= b < at + |c|) ==> d'[b] == d[b]
  {
  }

  lemma SameSlice(d: seq<byte>, d': seq<byte>, from: nat, to: nat)
    requires from <= to <= |d| == |d'| && forall b :: from <= b < to ==> d'[b] == d[b]
    ensures d'[from..to] == d[from..to]
  {
  }

  lemma ChunkWritten(d: seq<byte>, m: Message, got: seq<nat>, z: nat, d': seq<byte>)
    requires HasChunks(d, m, got) && z < Chunks(m)
    requires d' == d[..z * 7] + ChunkOf(m, z) + d[z * 7 + |ChunkOf(m, z)|..]
    ensures HasChunks(d', m, got + [z])
  {
    Spliced(d, z * 7, ChunkOf(m, z), d');
    forall y: nat | y < Chunks(m) && y in got + [z]
      ensures d'[y * 7..Min(y * 7 + 7, |m|)] == ChunkOf(m, y)
    {
      if y != z {
        SameSlice(d, d', y * 7, Min(y * 7 + 7, |m|));
      }
    }
  }

  lemma TakenBears(s: Open, m: Message, f: TpFrame, z: nat)
    requires s.totalSize == |m| && s.packets == Chunks(m) && Bears(f, m, z)
    ensures Taken(s, f.data) == s.(received := SetBit(s.received, z),
                                   data := s.data[..z * 7] + ChunkOf(m, z) + s.data[z * 7 + |ChunkOf(m, z)|..])
  {
    assert Supplied(s, z, |f.data|) == |ChunkOf(m, z)|;
  }

  lemma TakenSees(s: Open, cm: TpFrame, m: Message, got: seq<nat>, f: TpFrame, z: nat)
    requires Sees(s, cm, m, got) && Bears(f, m, z)
    ensures Sees(Taken(s, f.data), cm, m, got + [z])
  {
    TakenBears(s, m, f, z);
    ChunkWritten(s.data, m, got, z, Taken(s, f.data).data);
  }

  lemma SeesAll(s: Open, cm: TpFrame, m: Message, got: seq<nat>)
    requires Sees(s, cm, m, got)
    requires forall z: nat :: z < Chunks(m) ==> z in got
    ensures s.data == m
  {
    forall b | 0 <= b < |m|
      ensures s.data[b] == m[b]
    {
      var z := b / 7;
      assert s.data[z * 7..Min(z * 7 + 7, |m|)][b - z * 7] == ChunkOf(m, z)[b - z * 7];
    }
  }

  /** The session is closed if the first `k` chunks cover the message, else it has seen them. */
  ghost predicate Tracks(s: Option<Open>, cm: TpFrame, m: Message, zs: seq<nat>, k: nat)
    requires k <= |zs|
  {
    if Covered(m, zs, k) then s == None else s.Some? && Sees(s.value, cm, m, zs[..k])
  }

  lemma Opens(state: Option<Open>, cm: TpFrame, m: Message, zs: seq<nat>)
    requires Announces(cm, m)
    ensures Tracks(TpSolo(state, cm).0, cm, m, zs, 0)
  {
    assert Chunks(m) > 0 && 0 !in zs[..0];
  }

  lemma StateSnoc(s: Option<Open>, fs: seq<TpFrame>, k: nat)
    requires k < |fs|
    ensures TpState(s, fs[..k + 1]) == TpSolo(TpState(s, fs[..k]), fs[k]).0
  {
    assert fs[..k + 1] == fs[..k] + [fs[k]];
    TpSnoc(s, fs[..k], fs[k]);
  }

  ghost predicate AllBear(fs: seq<TpFrame>, m: Message, zs: seq<nat>) {
    |fs| == |zs| && forall j :: 0 <= j < |zs| ==> Bears(fs[j], m, zs[j])
  }

  lemma TrackStep(s: Option<Open>, cm: TpFrame, m: Message, zs: seq<nat>, fs: seq<TpFrame>, k: nat)
    requires Announces(cm, m) && AllBear(fs, m, zs) && k < |zs|
    ensures Tracks(TpState(s, fs[..k]), cm, m, zs, k) ==> Tracks(TpState(s, fs[..k + 1]), cm, m, zs, k + 1)
  {
    if Tracks(TpState(s, fs[..k]), cm, m, zs, k) {
      assert Bears(fs[k], m, zs[k]);
      TransferStep(TpState(s, fs[..k]), cm, m, zs, fs, k);
      StateSnoc(s, fs, k);
    }
  }

  lemma TrackNone(s: Option<Open>, cm: TpFrame, m: Message, zs: seq<nat>, fs: seq<TpFrame>)
    requires Tracks(s, cm, m, zs, 0)
    ensures Tracks(TpState(s, fs[..0]), cm, m, zs, 0)
  {
    assert fs[..0] == [];
  }

  /** The state after the announcement and the first `k` data frames. */
  lemma {:induction false} TransferState(s: Option<Open>, cm: TpFrame, m: Message, zs: seq<nat>, fs: seq<TpFrame>, k: nat)
    requires Announces(cm, m) && Tracks(s, cm, m, zs, 0) && AllBear(fs, m, zs) && k <= |zs|
    ensures Tracks(TpState(s, fs[..k]), cm, m, zs, k)
  {
    if k == 0 {
      TrackNone(s, cm, m, zs, fs);
    } else {
      TransferState(s, cm, m, zs, fs, k - 1);
      TrackStep(s, cm, m, zs, fs, k - 1);
    }
  }

  lemma TransferStep(s: Option<Open>, cm: TpFrame, m: Message, zs: seq<nat>, fs: seq<TpFrame>, k: nat)
    requires Announces(cm, m) && |fs| == |zs| && k < |zs| && Bears(fs[k], m, zs[k])
    requires Tracks(s, cm, m, zs, k)
    ensures var r := TpSolo(s, fs[k]);
            && Tracks(r.0, cm, m, zs, k + 1)
            && (r.1.Complete? <==> Covered(m, zs, k + 1) && !Covered(m, zs, k))
            && (r.1.Complete? ==> r.1.frame == Expected(cm, m).(src := fs[k].src))
            && (!r.1.Complete? ==> r.1.Partial?)
  {
    assert zs[..k + 1] == zs[..k] + [zs[k]];
    if !Covered(m, zs, k) {
      TakenSees(s.value, cm, m, zs[..k], fs[k], zs[k]);
      var s' := Taken(s.value, fs[k].data);
      WordTestExact(s');
      if Covered(m, zs, k + 1) {
        SeesAll(s', cm, m, zs[..k + 1]);
      }
    }
  }

  /** After its announcement, the chunks of a message in any order and with any repetitions:
      the message comes out exactly when its last missing chunk arrives, complete and under the
      announced header, and nothing comes out before or after. */
  lemma TransferExact(state: Option<Open>, cm: TpFrame, m: Message, zs: seq<nat>, fs: seq<TpFrame>, k: nat)
    requires Announces(cm, m) && |fs| == |zs| && k < |zs|
    requires forall j :: 0 <= j < |zs| ==> Bears(fs[j], m, zs[j]) && fs[j].src == cm.src
    ensures TpSolo(TpState(TpSolo(state, cm).0, fs[..k]), fs[k]).1
            == if Covered(m, zs, k + 1) && !Covered(m, zs, k) then Complete(Expected(cm, m)) else Partial
  {
    Opens(state, cm, m, zs);
    TransferState(TpSolo(state, cm).0, cm, m, zs, fs, k);
    TransferStep(TpState(TpSolo(state, cm).0, fs[..k]), cm, m, zs, fs, k);
  }
}
