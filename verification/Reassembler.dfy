/** The reassembler: 64 fast-packet slots and 16 transport-protocol sessions. */
module Reassembler {
  import opened Wire
  import opened SlotTable
  import opened FastPacket
  import opened TransportProtocol

  const REASSEMBLY_BUFFER_SIZE: nat := 64
  const ISO_TP_SLOTS: nat := 16

  datatype PacketType = Single | Fast | Other

  /** What identifies a burst: PGN, source, and the three sequence bits of the header. */
  datatype Key = Key(pgn: nat, src: byte, sq: nat)

  type Slot = Cell<Key, Assembly>
  type TpSlot = Cell<byte, Open>

  function NoSlot(): Slot { Cell(false, Key(0, 0, 0), 0, Fresh()) }
  function NoSession(): TpSlot { Cell(false, 0, 0, Session(0, 0, 0, 0, 0, EmptyBitmap(), None, [])) }

  /** The value of the reassembler's fields at one moment. */
  datatype Tables = Tables(slots: seq<Slot>, nextAge: nat, sessions: seq<TpSlot>, tpNextAge: nat)

  function Empty(): Tables {
    Tables(seq(REASSEMBLY_BUFFER_SIZE, _ => NoSlot()), 0, seq(ISO_TP_SLOTS, _ => NoSession()), 0)
  }

  function KeyOf(f: RawFrame): Key
    requires f.data != []
  {
    Key(f.pgn, f.src, f.data[0] / 32)
  }

  /** A frame for the fast-packet slots. */
  predicate IsFast(f: RawFrame, packetType: PacketType) {
    !IsTp(f) && packetType == Fast && 1 <= |f.data| <= 8
  }

  function Reply(f: RawFrame, out: Option<seq<byte>>): Reassembled {
    match out
    case Some(payload) => Reassembled.Complete(f.(data := payload))
    case None => Partial
  }

  /** Where the assembly for `key` is or is to be claimed, and the slots with it claimed. */
  function Claimed(slots: seq<Slot>, age: nat, key: Key, i: nat): seq<Slot>
    requires i < |slots|
  {
    if Find(slots, key) == Some(i) then slots else slots[i := Cell(true, key, age, Fresh())]
  }

  function SlotAfter(s: Slot, f: FrameData): Slot {
    var r := Accept(s.held, f);
    if r.1.Some? then s.(used := false, held := r.0.(frames := NoFrames(), size := 0))
    else s.(held := r.0)
  }

  function FastPushed(t: Tables, f: RawFrame): (Tables, Reassembled)
    requires 1 <= |f.data| <= 8
  {
    var key := KeyOf(f);
    var found := Find(t.slots, key);
    var place := if found.Some? then found else Place(t.slots);
    if place.None? then (t, Error(OutOfSlots(f.pgn, f.src)))
    else
      var i := place.value;
      var slots := Claimed(t.slots, t.nextAge, key, i);
      (t.(slots := slots[i := SlotAfter(slots[i], f.data)],
          nextAge := if found.Some? then t.nextAge else t.nextAge + 1),
       Reply(f, Accept(slots[i].held, f.data).1))
  }

  function CmPushed(t: Tables, f: RawFrame): (Tables, Reassembled) {
    if f.data == [] then (t, Error(EmptyData))
    else
      var found := Find(t.sessions, f.src);
      match ReadCm(f)
      case Ignore => (t, Partial)
      case Drop =>
        (if found.Some?
         then t.(sessions := t.sessions[found.value := t.sessions[found.value].(used := false)])
         else t, Partial)
      case Open(s) =>
        var place := if found.Some? then found else Place(t.sessions);
        if place.None? then (t, Error(OutOfSlots(s.targetPgn, f.src)))
        else
          (t.(sessions := t.sessions[place.value := Cell(true, f.src, t.tpNextAge + 1, s)],
              tpNextAge := t.tpNextAge + 1), Partial)
  }

  function DtPushed(t: Tables, f: RawFrame): (Tables, Reassembled) {
    if f.data == [] then (t, Error(EmptyData))
    else
      var found := Find(t.sessions, f.src);
      if found.None? then (t, Partial)
      else
        var cell := t.sessions[found.value];
        var s := Taken(cell.held, f.data);
        if Finishes(cell.held, f.data) then
          (t.(sessions := t.sessions[found.value := cell.(used := false, held := s.(timestamp := None))]),
           Reassembled.Complete(Assembled(s, f.src)))
        else (t.(sessions := t.sessions[found.value := cell.(held := s)]), Partial)
  }

  function Pushed(t: Tables, f: RawFrame, packetType: PacketType): (Tables, Reassembled) {
    if f.pgn == PGN_ISO_TP_CM then CmPushed(t, f)
    else if f.pgn == PGN_ISO_TP_DT then DtPushed(t, f)
    else if |f.data| > 8 || packetType != Fast then (t, PassThrough(f))
    else if f.data == [] then (t, Error(EmptyData))
    else FastPushed(t, f)
  }

  /** The reassembler itself: both tables are changed in place. */
  class Machine {
    const slots: array<Slot>
    const sessions: array<TpSlot>
    var nextAge: nat
    var tpNextAge: nat

    ghost predicate Valid() { slots.Length == REASSEMBLY_BUFFER_SIZE && sessions.Length == ISO_TP_SLOTS }

    ghost function View(): Tables
      reads this, slots, sessions
    {
      Tables(slots[..], nextAge, sessions[..], tpNextAge)
    }

    constructor ()
      ensures Valid() && fresh(slots) && fresh(sessions)
      ensures View() == Empty()
    {
      slots := new Slot[REASSEMBLY_BUFFER_SIZE](_ => NoSlot());
      sessions := new TpSlot[ISO_TP_SLOTS](_ => NoSession());
      nextAge := 0;
      tpNextAge := 0;
      new;
      assert slots[..] == Empty().slots;
      assert sessions[..] == Empty().sessions;
    }

    method Push(f: RawFrame, packetType: PacketType) returns (r: Reassembled)
      requires Valid()
      modifies this, slots, sessions
      ensures (View(), r) == Pushed(old(View()), f, packetType)
    {
      if f.pgn == PGN_ISO_TP_CM {
        r := HandleTpCm(f);
        return;
      }
      if f.pgn == PGN_ISO_TP_DT {
        r := HandleTpDt(f);
        return;
      }
      if |f.data| > 8 || packetType != Fast {
        return PassThrough(f);
      }
      if f.data == [] {
        return Error(EmptyData);
      }
      r := PushFast(f);
    }

    method PushFast(f: RawFrame) returns (r: Reassembled)
      requires Valid() && 1 <= |f.data| <= 8
      modifies this, slots
      ensures (View(), r) == FastPushed(old(View()), f)
    {
      ghost var before := View();
      var key := KeyOf(f);
      var place := FindSlot(key);
      if place.None? {
        place := ClaimSlot(key);
        if place.None? {
          return Error(OutOfSlots(f.pgn, f.src));
        }
      }
      var i := place.value;
      assert slots[..] == Claimed(before.slots, before.nextAge, key, i);
      ghost var claimed := slots[..];
      r := Receive(i, f);
      assert slots[..] == claimed[i := SlotAfter(claimed[i], f.data)];
    }

    /** What happens in the slot of the frame's burst. */
    method Receive(i: nat, f: RawFrame) returns (r: Reassembled)
      requires i < slots.Length && 1 <= |f.data| <= 8
      modifies slots
      ensures slots[..] == old(slots[..])[i := SlotAfter(old(slots[i]), f.data)]
      ensures r == Reply(f, Accept(old(slots[i]).held, f.data).1)
    {
      var data: FrameData := f.data;
      var index := Index(data);
      var stale := slots[i].held.frames;
      var duplicate := stale[index];
      var completesInstantly := false;
      if index == 0 {
        completesInstantly :=
          !duplicate && stale != NoFrames() && Wanted(data) != LowMask(1) && Covers(stale[0 := true], Wanted(data));
      }
      if duplicate || completesInstantly {
        slots[i] := slots[i].(held := slots[i].held.(frames := NoFrames()));
      }
      if index == 0 {
        slots[i] := slots[i].(held := slots[i].held.(size := Declared(data), allFrames := Wanted(data)));
      }
      slots[i] := slots[i].(held := slots[i].held.(data := Store(slots[i].held.data, data)));
      slots[i] := slots[i].(held := slots[i].held.(frames := slots[i].held.frames[index := true]));
      assert slots[i].held == Added(old(slots[i]).held, data);
      var a := slots[i].held;
      if IsComplete(a) {
        r := Reassembled.Complete(f.(data := a.data[..Min(a.size, FASTPACKET_MAX_SIZE)]));
        slots[i] := slots[i].(used := false, held := a.(frames := NoFrames(), size := 0));
      } else {
        r := Partial;
      }
    }

    method FindSlot(key: Key) returns (r: Option<nat>)
      ensures r == Find(slots[..], key)
    {
      var i := 0;
      while i < slots.Length
        invariant i <= slots.Length
        invariant Find(slots[..], key) == FindFrom(slots[..], key, i)
      {
        if slots[i].used && slots[i].key == key {
          return Some(i);
        }
        i := i + 1;
      }
      return None;
    }

    /** Take an unused slot for `key`, else that of the oldest claim. */
    method ClaimSlot(key: Key) returns (r: Option<nat>)
      modifies `nextAge, slots
      ensures r == Place(old(slots[..]))
      ensures r.Some? ==> slots[..] == old(slots[..])[r.value := Cell(true, key, old(nextAge), Fresh())]
      ensures r.None? ==> slots[..] == old(slots[..])
      ensures nextAge == old(nextAge) + if r.Some? then 1 else 0
    {
      r := PickPlace(slots);
      if r.None? {
        return;
      }
      var age := nextAge;
      nextAge := nextAge + 1;
      slots[r.value] := Cell(true, key, age, Fresh());
    }

    method HandleTpCm(f: RawFrame) returns (r: Reassembled)
      requires f.pgn == PGN_ISO_TP_CM
      modifies `tpNextAge, sessions
      ensures (View(), r) == CmPushed(old(View()), f)
    {
      if f.data == [] {
        return Error(EmptyData);
      }
      match ReadCm(f)
      case Ignore => r := Partial;
      case Drop =>
        var i := FindTpSlot(f.src);
        if i.Some? {
          sessions[i.value] := sessions[i.value].(used := false);
        }
        r := Partial;
      case Open(s) =>
        var i := ClaimTpSlot(f.src, s);
        r := if i.Some? then Partial else Error(OutOfSlots(s.targetPgn, f.src));
    }

    method HandleTpDt(f: RawFrame) returns (r: Reassembled)
      requires f.pgn == PGN_ISO_TP_DT
      modifies sessions
      ensures (View(), r) == DtPushed(old(View()), f)
    {
      if f.data == [] {
        return Error(EmptyData);
      }
      var i := FindTpSlot(f.src);
      if i.None? {
        return Partial;
      }
      var s := sessions[i.value].held;
      if f.data[0] == 0 || f.data[0] > s.packets {
        assert sessions[..][i.value := sessions[i.value].(held := s)] == sessions[..];
        return Partial;
      }
      s := Taken(s, f.data);
      if !AllReceived(s) {
        sessions[i.value] := sessions[i.value].(held := s);
        return Partial;
      }
      sessions[i.value] := sessions[i.value].(used := false, held := s.(timestamp := None));
      return Reassembled.Complete(Assembled(s, f.src));
    }

    method FindTpSlot(src: byte) returns (r: Option<nat>)
      ensures r == Find(sessions[..], src)
    {
      var i := 0;
      while i < sessions.Length
        invariant i <= sessions.Length
        invariant Find(sessions[..], src) == FindFrom(sessions[..], src, i)
      {
        if sessions[i].used && sessions[i].key == src {
          return Some(i);
        }
        i := i + 1;
      }
      return None;
    }

    /** Reset the session of `src` if it has one; else claim one as above. */
    method ClaimTpSlot(src: byte, s: Open) returns (r: Option<nat>)
      modifies `tpNextAge, sessions
      ensures r == if Find(old(sessions[..]), src).Some? then Find(old(sessions[..]), src) else Place(old(sessions[..]))
      ensures r.Some? ==> sessions[..] == old(sessions[..])[r.value := Cell(true, src, old(tpNextAge) + 1, s)]
      ensures r.None? ==> sessions[..] == old(sessions[..])
      ensures tpNextAge == old(tpNextAge) + if r.Some? then 1 else 0
    {
      r := FindTpSlot(src);
      if r.None? {
        r := PickPlace(sessions);
        if r.None? {
          return;
        }
      }
      tpNextAge := tpNextAge + 1;
      sessions[r.value] := Cell(true, src, tpNextAge, s);
    }
  }

  /** The first unused slot, else the first of least age. */
  method PickPlace<K, V>(cells: array<Cell<K, V>>) returns (r: Option<nat>)
    ensures r == Place(cells[..])
  {
    var i := 0;
    while i < cells.Length
      invariant i <= cells.Length
      invariant FreeFrom(cells[..], 0) == FreeFrom(cells[..], i)
    {
      if !cells[i].used {
        return Some(i);
      }
      i := i + 1;
    }
    if cells.Length == 0 {
      return None;
    }
    var oldest := 0;
    i := 1;
    while i < cells.Length
      invariant 1 <= i <= cells.Length
      invariant oldest == OldestBefore(cells[..], i)
    {
      if cells[i].age < cells[oldest].age {
        oldest := i;
      }
      i := i + 1;
    }
    return Some(oldest);
  }
}
