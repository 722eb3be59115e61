/** Which burst, and which transfer, has to go when all places are taken. */
module EvictionOrder {
  import opened Wire
  import opened SlotTable
  import opened FastPacket
  import opened TransportProtocol
  import opened TransportOrigin
  import opened Reassembler
  import opened ReassemblyRuns

  // ----- Bursts -----

  /** The number of the frame with which the burst of `key` that is under way began. */
  function ClaimedAt(ins: seq<Input>, key: Key): nat {
    if ins == [] then 0
    else if Lookup(After(ins[..|ins| - 1]).slots, key).None? && Lookup(After(ins).slots, key).Some? then |ins|
    else ClaimedAt(ins[..|ins| - 1], key)
  }

  lemma {:induction false} ClaimedBefore(ins: seq<Input>, key: Key)
    ensures ClaimedAt(ins, key) <= |ins|
  {
    if ins != [] {
      ClaimedBefore(ins[..|ins| - 1], key);
    }
  }

  predicate SlotInOrder(ins: seq<Input>, i: nat, j: nat)
    requires i < |After(ins).slots| && j < |After(ins).slots|
  {
    var a, b := After(ins).slots[i], After(ins).slots[j];
    a.used && b.used ==> (a.age < b.age <==> ClaimedAt(ins, a.key) < ClaimedAt(ins, b.key))
  }

  /** Ages tell in which order the bursts under way began. */
  ghost predicate SlotsInOrder(ins: seq<Input>) {
    forall i, j :: 0 <= i < |After(ins).slots| && 0 <= j < |After(ins).slots| ==> SlotInOrder(ins, i, j)
  }

  /** A slot that is in use after a frame was so before, with the age it has, unless the frame has just
      claimed it. */
  lemma SlotFrom(t: Tables, f: RawFrame, i: nat)
    requires TablesOk(t) && AgesOk(t) && 1 <= |f.data| <= 8 && i < |t.slots|
    ensures var t' := FastPushed(t, f).0;
            && |t'.slots| == |t.slots|
            && (t'.slots[i].used ==>
                  if Lookup(t.slots, t'.slots[i].key).Some? then
                    t.slots[i].used && t.slots[i].key == t'.slots[i].key && t.slots[i].age == t'.slots[i].age
                  else t'.slots[i].key == KeyOf(f) && t'.slots[i].age == t.nextAge)
  {
    var key := KeyOf(f);
    var found := Find(t.slots, key);
    var place := if found.Some? then found.value else Place(t.slots).value;
    if i != place && t.slots[i].used {
      FindUnique(t.slots, i);
    }
  }

  lemma SlotFromRun(ins: seq<Input>, i: nat)
    requires ins != [] && i < |After(ins).slots| && After(ins).slots[i].used
    ensures var before := After(ins[..|ins| - 1]);
            var a := After(ins).slots[i];
            && Lookup(After(ins).slots, a.key).Some? && i < |before.slots|
            && if Lookup(before.slots, a.key).Some? then
                 before.slots[i].used && before.slots[i].key == a.key && before.slots[i].age == a.age
                 && ClaimedAt(ins, a.key) == ClaimedAt(ins[..|ins| - 1], a.key)
               else
                 a.age == before.nextAge && ClaimedAt(ins, a.key) == |ins| && IsFast(ins[|ins| - 1].frame, ins[|ins| - 1].packetType)
                 && a.key == KeyOf(ins[|ins| - 1].frame)
  {
    var x, before := ins[|ins| - 1], After(ins[..|ins| - 1]);
    RunTablesOk(ins);
    RunTablesOk(ins[..|ins| - 1]);
    RunAgesOk(ins[..|ins| - 1]);
    FindUnique(After(ins).slots, i);
    if IsTp(x.frame) {
      TpTablesStep(before, x.frame);
    } else if IsFast(x.frame, x.packetType) {
      SlotFrom(before, x.frame, i);
    }
  }

  lemma {:induction false} RunSlotsInOrder(ins: seq<Input>)
    ensures SlotsInOrder(ins)
  {
    if ins == [] {
      assert forall i :: 0 <= i < |Empty().slots| ==> !Empty().slots[i].used;
    } else {
      var shorter := ins[..|ins| - 1];
      RunSlotsInOrder(shorter);
      RunTablesOk(ins);
      RunTablesOk(shorter);
      RunAgesOk(shorter);
      forall i, j | 0 <= i < |After(ins).slots| && 0 <= j < |After(ins).slots|
        ensures SlotInOrder(ins, i, j)
      {
        PairInOrder(ins, shorter, i, j);
      }
    }
  }

  lemma PairInOrder(ins: seq<Input>, shorter: seq<Input>, i: nat, j: nat)
    requires ins != [] && shorter == ins[..|ins| - 1] && SlotsInOrder(shorter) && AgesOk(After(shorter)) && TablesOk(After(ins))
    requires i < |After(ins).slots| == |After(shorter).slots| && j < |After(ins).slots|
    ensures SlotInOrder(ins, i, j)
  {
    var a, b := After(ins).slots[i], After(ins).slots[j];
    if a.used && b.used {
      SlotFromRun(ins, i);
      SlotFromRun(ins, j);
      ClaimedBefore(shorter, a.key);
      ClaimedBefore(shorter, b.key);
      assert SlotInOrder(shorter, i, j);
      if i != j {
        assert a.key != b.key;
      }
    }
  }

  /** A burst is evicted only when 64 are under way, and then it is the one that began before all the
      others, however recent its latest frame. */
  lemma {:induction false} EvictedBeganFirst(ins: seq<Input>, key: Key, victim: Key)
    requires Evicts(After(ins).slots, key, victim)
    ensures |LiveKeys(After(ins).slots)| == 64 && victim in LiveKeys(After(ins).slots)
    ensures forall k :: k in LiveKeys(After(ins).slots) && k != victim ==> ClaimedAt(ins, victim) < ClaimedAt(ins, k)
  {
    var slots := After(ins).slots;
    RunTablesOk(ins);
    RunSlotsInOrder(ins);
    var i := EvictedIsOldest(ins, key, victim);
    FullTableKeys(slots);
    forall k | k in LiveKeys(slots) && k != victim
      ensures ClaimedAt(ins, victim) < ClaimedAt(ins, k)
    {
      var j :| 0 <= j < |slots| && slots[j].used && slots[j].key == k;
      assert SlotInOrder(ins, i, j);
    }
  }

  // ----- Transfers -----

  /** The number of the latest announcement of the source. */
  function AnnouncedAt(ins: seq<Input>, src: byte): nat {
    if ins == [] then 0
    else if ReassemblyRuns.Opens(ins[|ins| - 1].frame) && ins[|ins| - 1].frame.src == src then |ins|
    else AnnouncedAt(ins[..|ins| - 1], src)
  }

  lemma {:induction false} AnnouncedBefore(ins: seq<Input>, src: byte)
    ensures AnnouncedAt(ins, src) <= |ins|
  {
    if ins != [] {
      AnnouncedBefore(ins[..|ins| - 1], src);
    }
  }

  /** Sessions in use are no older than now. */
  predicate TpAgesOk(t: Tables) {
    && (forall i :: 0 <= i < |t.sessions| && t.sessions[i].used ==> t.sessions[i].age <= t.tpNextAge)
    && (forall i, j :: 0 <= i < j < |t.sessions| && t.sessions[i].used && t.sessions[j].used ==>
          t.sessions[i].age != t.sessions[j].age)
  }

  /** A session in use after a transport frame was so before, with the age it has, unless the frame
      announces it. */
  lemma SessionFromStep(t: Tables, f: TpFrame, i: nat)
    requires TablesOk(t) && TpAgesOk(t) && i < |t.sessions|
    ensures var t' := Pushed(t, f, Other).0;
            && |t'.sessions| == |t.sessions| && t.tpNextAge <= t'.tpNextAge
            && (t'.sessions[i].used ==>
                  if ReassemblyRuns.Opens(f) && t'.sessions[i].key == f.src then t'.sessions[i].age == t'.tpNextAge == t.tpNextAge + 1
                  else t.sessions[i].used && t.sessions[i].key == t'.sessions[i].key && t.sessions[i].age == t'.sessions[i].age)
  {
    var found := Find(t.sessions, f.src);
    if f.data != [] && f.pgn == PGN_ISO_TP_CM && ReassemblyRuns.Opens(f) {
      AnnouncementExactly(None, f);
      if t.sessions[i].used {
        FindUnique(t.sessions, i);
      }
    }
  }

  lemma TpAgesStep(t: Tables, f: TpFrame)
    requires TablesOk(t) && TpAgesOk(t)
    ensures TpAgesOk(Pushed(t, f, Other).0)
  {
    var t' := Pushed(t, f, Other).0;
    TpTablesStep(t, f);
    forall i | 0 <= i < |t'.sessions| && t'.sessions[i].used
      ensures t'.sessions[i].age <= t'.tpNextAge
    {
      SessionFromStep(t, f, i);
    }
    forall i, j | 0 <= i < j < |t'.sessions| && t'.sessions[i].used && t'.sessions[j].used
      ensures t'.sessions[i].age != t'.sessions[j].age
    {
      SessionFromStep(t, f, i);
      SessionFromStep(t, f, j);
    }
  }

  /** Frames that are not transport frames leave the sessions alone. */
  lemma OtherFrames(t: Tables, x: Input)
    requires TablesOk(t) && !IsTp(x.frame)
    ensures var t' := Pushed(t, x.frame, x.packetType).0; t'.sessions == t.sessions && t'.tpNextAge == t.tpNextAge
  {
  }

  lemma {:induction false} RunTpAgesOk(ins: seq<Input>)
    ensures TpAgesOk(After(ins))
  {
    if ins == [] {
      assert forall i :: 0 <= i < |Empty().sessions| ==> !Empty().sessions[i].used;
    } else {
      var x, shorter := ins[|ins| - 1], ins[..|ins| - 1];
      RunTpAgesOk(shorter);
      RunTablesOk(shorter);
      if IsTp(x.frame) {
        TpAgesStep(After(shorter), x.frame);
      } else {
        OtherFrames(After(shorter), x);
      }
    }
  }

  predicate SessionInOrder(ins: seq<Input>, i: nat, j: nat)
    requires i < |After(ins).sessions| && j < |After(ins).sessions|
  {
    var a, b := After(ins).sessions[i], After(ins).sessions[j];
    a.used && b.used ==> (a.age < b.age <==> AnnouncedAt(ins, a.key) < AnnouncedAt(ins, b.key))
  }

  ghost predicate SessionsInOrder(ins: seq<Input>) {
    forall i, j :: 0 <= i < |After(ins).sessions| && 0 <= j < |After(ins).sessions| ==> SessionInOrder(ins, i, j)
  }

  lemma SessionPairInOrder(ins: seq<Input>, shorter: seq<Input>, i: nat, j: nat)
    requires ins != [] && shorter == ins[..|ins| - 1] && SessionsInOrder(shorter) && TablesOk(After(shorter)) && TablesOk(After(ins))
    requires TpAgesOk(After(shorter)) && i < |After(ins).sessions| && j < |After(ins).sessions|
    ensures SessionInOrder(ins, i, j)
  {
    var x, a, b := ins[|ins| - 1], After(ins).sessions[i], After(ins).sessions[j];
    AnnouncedBefore(shorter, a.key);
    AnnouncedBefore(shorter, b.key);
    if IsTp(x.frame) {
      SessionFromStep(After(shorter), x.frame, i);
      SessionFromStep(After(shorter), x.frame, j);
    } else {
      OtherFrames(After(shorter), x);
    }
    assert SessionInOrder(shorter, i, j);
  }

  lemma {:induction false} RunSessionsInOrder(ins: seq<Input>)
    ensures SessionsInOrder(ins)
  {
    if ins == [] {
      assert forall i :: 0 <= i < |Empty().sessions| ==> !Empty().sessions[i].used;
    } else {
      var shorter := ins[..|ins| - 1];
      RunSessionsInOrder(shorter);
      RunTablesOk(ins);
      RunTablesOk(shorter);
      RunTpAgesOk(shorter);
      forall i, j | 0 <= i < |After(ins).sessions| && 0 <= j < |After(ins).sessions|
        ensures SessionInOrder(ins, i, j)
      {
        SessionPairInOrder(ins, shorter, i, j);
      }
    }
  }

  /** A transfer is evicted only when 16 are under way, and then it is the one whose announcement lies
      before those of all the others. */
  lemma {:induction false} EvictedAnnouncedFirst(ins: seq<Input>, src: byte, victim: byte)
    requires Evicts(After(ins).sessions, src, victim)
    ensures |LiveKeys(After(ins).sessions)| == 16 && victim in LiveKeys(After(ins).sessions)
    ensures forall k :: k in LiveKeys(After(ins).sessions) && k != victim ==> AnnouncedAt(ins, victim) < AnnouncedAt(ins, k)
  {
    var sessions := After(ins).sessions;
    RunTablesOk(ins);
    RunTpAgesOk(ins);
    RunSessionsInOrder(ins);
    EvictsOldest(sessions, src, victim);
    var i := Find(sessions, victim).value;
    FullTableKeys(sessions);
    forall k | k in LiveKeys(sessions) && k != victim
      ensures AnnouncedAt(ins, victim) < AnnouncedAt(ins, k)
    {
      var j :| 0 <= j < |sessions| && sessions[j].used && sessions[j].key == k;
      assert SessionInOrder(ins, i, j);
    }
  }
}
