/** What each step of the bus does to the node that takes it, and to the bus. */
module ClaimSteps {
  import opened Wire
  import opened AddressClaim
  import opened ClaimNetwork
  import opened ClaimTraffic

  // ----- What is said about a step -----

  /** One claim by node `i`, from address `a`, to every node on the bus. */
  function Claims(s: Net, i: nat, a: byte): seq<Packet>
    requires i < |s.nodes|
  {
    seq(|s.nodes|, to requires 0 <= to < |s.nodes| => Packet(i, to, a, s.nodes[i].name, s.now))
  }

  /** At most node `i` has changed, and neither its NAME nor what it was set up with. */
  predicate OnlyNode(s: Net, s': Net, i: nat) {
    && i < |s.nodes| == |s'.nodes| && s'.now == s.now
    && (forall j :: 0 <= j < |s.nodes| && j != i ==> s'.nodes[j] == s.nodes[j])
    && s'.nodes[i].name == s.nodes[i].name && s'.nodes[i].preferred == s.nodes[i].preferred
    && s'.nodes[i].arbitrary == s.nodes[i].arbitrary
  }

  /** Every assignable address is in `used`. */
  ghost predicate AllUsed(used: set<byte>) { forall a: byte :: a <= 253 ==> a in used }

  /** The least assignable address that is not. */
  ghost predicate LeastUnused(used: set<byte>, a: byte) {
    a <= 253 && a !in used && forall b: byte :: b < a ==> b in used
  }

  /** The node has just claimed `a`: it waits for 250 ms. */
  predicate Waits(n: Node, a: byte, now: nat) { n.state == Pending && n.address == a && n.deadline == now + 250 }

  predicate IsFailed(n: Node) { n.state == Failed && n.address == 254 }

  /** The claim frame of node `n`, and what reaches the bus of it. */
  lemma ClaimFrameExactly(n: Node)
    ensures var f := ClaimFrame(n);
            && f.pgn == 60928 && f.prio == 6 && f.src == n.address && f.dst == 255
            && |f.data| == 8 && FromLeBytes(f.data) == n.name
  {
    NameBytesInverse(n.name);
  }

  lemma ClaimsSent(s: Net, i: nat, n: Node, rest: seq<Packet>)
    requires i < |s.nodes| && n.name == s.nodes[i].name
    ensures Act(s, i, (n, [ClaimFrame(n)]), rest).flight == rest + Claims(s, i, n.address)
  {
    ClaimBroadcast(i, s.now, n, |s.nodes|);
    NameBytesInverse(n.name);
    assert Broadcast(i, s.now, ClaimFrame(n), |s.nodes|) == Claims(s, i, n.address);
  }

  lemma NothingSent(s: Net, i: nat, n: Node, rest: seq<Packet>)
    requires i < |s.nodes|
    ensures Act(s, i, (n, []), rest).flight == rest
  {
    assert BroadcastAll(i, s.now, [], |s.nodes|) == [];
  }

  lemma FreeOrNot(used: set<byte>)
    ensures var r := LowestFree(used, 0); if r.Some? then LeastUnused(used, r.value) else AllUsed(used)
  {
  }

  // ----- A claim is heard -----

  /** The claim with packet number `k` is for the address that its receiver holds. */
  predicate Challenges(s: Net, k: nat) {
    && k < |s.flight| && s.flight[k].to < |s.nodes|
    && var n := s.nodes[s.flight[k].to];
       (n.state == Pending || n.state == Claimed) && s.flight[k].src == n.address && s.flight[k].name != n.name
  }

  /** A node loses its address exactly to a lower NAME that claims it. */
  lemma LosesExactly(s: Net, k: nat, j: nat)
    requires WellFormed(s) && k < |s.flight|
    ensures Loses(s, Deliver(k), j) <==> Challenges(s, k) && j == s.flight[k].to && s.flight[k].name < s.nodes[j].name
  {
    assert PacketOk(s, s.flight[k]);
  }

  /** A node that loses its address and cannot move, because it is not allowed to or because every
      address is taken, has failed and says so from the null address; one that can is on the
      least address it has not seen in use, and claims it. */
  lemma LossExactly(s: Net, k: nat, j: nat, bound: Option<nat>)
    requires WellFormed(s) && Enabled(s, Deliver(k), bound) && Loses(s, Deliver(k), j)
    ensures var s' := Apply(s, Deliver(k), bound);
            var n, n' := s.nodes[j], s'.nodes[j];
            && OnlyNode(s, s', j) && n'.used == n.used + {n.address}
            && s'.flight == Without(s.flight, k) + Claims(s, j, n'.address)
            && (if n.arbitrary && !AllUsed(n'.used)
                then LeastUnused(n'.used, n'.address) && Waits(n', n'.address, s.now)
                else IsFailed(n'))
  {
    LosesExactly(s, k, j);
    var p, n := s.flight[k], s.nodes[j];
    var outcome := Heard(n, s.now, p.src, p.name);
    FreeOrNot(n.used + {p.src});
    ClaimsSent(s, j, outcome.0, Without(s.flight, k));
  }

  /** A node whose address a higher NAME claims keeps it, claims it again and waits anew. */
  lemma DefenceExactly(s: Net, k: nat, bound: Option<nat>)
    requires WellFormed(s) && Enabled(s, Deliver(k), bound) && Challenges(s, k)
    requires s.nodes[s.flight[k].to].name < s.flight[k].name
    ensures var j, s' := s.flight[k].to, Apply(s, Deliver(k), bound);
            && OnlyNode(s, s', j) && s'.nodes[j].used == s.nodes[j].used
            && Waits(s'.nodes[j], s.nodes[j].address, s.now)
            && s'.flight == Without(s.flight, k) + Claims(s, j, s.nodes[j].address)
  {
    var p, j := s.flight[k], s.flight[k].to;
    ClaimsSent(s, j, Heard(s.nodes[j], s.now, p.src, p.name).0, Without(s.flight, k));
  }

  /** Any other claim by another node is answered by nothing. A node that listens at all learns
      the address, and changes nothing else. */
  lemma LearnExactly(s: Net, k: nat, bound: Option<nat>)
    requires WellFormed(s) && Enabled(s, Deliver(k), bound) && !Challenges(s, k)
    ensures var j, s' := s.flight[k].to, Apply(s, Deliver(k), bound);
            var n, p := s.nodes[j], s.flight[k];
            && OnlyNode(s, s', j) && s'.flight == Without(s.flight, k)
            && s'.nodes[j] == n.(used := n.used + if p.src <= 253 && n.state != Disabled && p.name != n.name then {p.src} else {})
  {
    var p, j := s.flight[k], s.flight[k].to;
    assert NodeOk(s.nodes[j]);
    NothingSent(s, j, Heard(s.nodes[j], s.now, p.src, p.name).0, Without(s.flight, k));
  }

  // ----- Time passes for a node -----

  /** A node that has listened for its time claims its preferred address, else the least one it has
      not seen in use, else fails; and says so. */
  lemma ScanExactly(s: Net, i: nat, bound: Option<nat>)
    requires i < |s.nodes| && s.nodes[i].state == Scanning && s.nodes[i].deadline <= s.now
    ensures var s' := Apply(s, Tick(i), bound);
            var n, n' := s.nodes[i], s'.nodes[i];
            && OnlyNode(s, s', i) && n'.used == n.used && s'.flight == s.flight + Claims(s, i, n'.address)
            && (if n.preferred !in n.used then Waits(n', n.preferred, s.now)
                else if AllUsed(n.used) then IsFailed(n')
                else LeastUnused(n.used, n'.address) && Waits(n', n'.address, s.now))
  {
    FreeOrNot(s.nodes[i].used);
    ClaimsSent(s, i, Ticked(s.nodes[i], s.now).0, s.flight);
  }

  /** A claim that has gone uncontested for its time is owned, and nothing else ever becomes of a
      tick. */
  lemma SettleExactly(s: Net, i: nat, bound: Option<nat>)
    requires i < |s.nodes| && !(s.nodes[i].state == Scanning && s.nodes[i].deadline <= s.now)
    ensures var s' := Apply(s, Tick(i), bound);
            var n := s.nodes[i];
            && OnlyNode(s, s', i) && s'.flight == s.flight
            && s'.nodes[i] == if n.state == Pending && n.deadline <= s.now then n.(state := Claimed) else n
  {
    NothingSent(s, i, Ticked(s.nodes[i], s.now).0, s.flight);
  }

  // ----- Requests and starts -----

  /** A node answers a request for its claim exactly while it holds an address. */
  lemma AnswerExactly(s: Net, i: nat, bound: Option<nat>)
    requires i < |s.nodes|
    ensures var s' := Apply(s, Answer(i), bound);
            && s'.nodes == s.nodes && s'.now == s.now
            && s'.flight == s.flight + if s.nodes[i].state == Pending || s.nodes[i].state == Claimed
                                       then Claims(s, i, s.nodes[i].address) else []
  {
    if Answered(s.nodes[i]).Some? {
      ClaimsSent(s, i, s.nodes[i], s.flight);
    } else {
      NothingSent(s, i, s.nodes[i], s.flight);
    }
  }

  lemma RequestExactly()
    ensures RequestFrame(ADDR_NULL, ADDR_GLOBAL, PGN_ISO_ADDRESS_CLAIM) == RawFrame(None, 6, 59904, 254, 255, [0x00, 0xee, 0x00])
  {
    assert LeBytes(60928, 3) == [0x00] + LeBytes(238, 2);
    assert LeBytes(238, 2) == [0xee] + LeBytes(0, 1);
    assert LeBytes(0, 1) == [0x00] + LeBytes(0, 0);
  }

  /** Starting: one request for all claims, broadcast from the null address, and a second of
      listening; a disabled node does nothing. */
  lemma StartExactly(n: Node, now: nat)
    ensures Started(n, now)
            == if n.state == Disabled then (n, [])
               else (n.(state := Scanning, deadline := now + 1000), [RawFrame(None, 6, 59904, 254, 255, [0x00, 0xee, 0x00])])
  {
    RequestExactly();
  }

  /** Starting again puts no claim on the bus. */
  lemma RestartExactly(s: Net, i: nat, bound: Option<nat>)
    requires i < |s.nodes|
    ensures var s' := Apply(s, Restart(i), bound);
            && OnlyNode(s, s', i) && s'.flight == s.flight
            && s'.nodes[i] == if s.nodes[i].state == Disabled then s.nodes[i]
                              else s.nodes[i].(state := Scanning, deadline := s.now + 1000)
  {
    StartExactly(s.nodes[i], s.now);
    var f := RawFrame(None, 6, 59904, 254, 255, [0x00, 0xee, 0x00]);
    assert [f][1..] == [];
    assert BroadcastAll(i, s.now, [], |s.nodes|) == [] == BroadcastAll(i, s.now, [f], |s.nodes|);
  }

  /** A node that joins scans, with its settings and nothing heard yet; a passive one is disabled. */
  lemma JoinExactly(s: Net, name: u64, preferred: byte, arbitrary: bool, bound: Option<nat>)
    requires Enabled(s, Join(name, preferred, arbitrary), bound)
    ensures var s' := Apply(s, Join(name, preferred, arbitrary), bound);
            && s'.flight == s.flight && s'.now == s.now && |s'.nodes| == |s.nodes| + 1 && s'.nodes[..|s.nodes|] == s.nodes
            && var n := s'.nodes[|s.nodes|];
               && n.name == name && n.preferred == preferred && n.arbitrary == arbitrary && n.used == {}
               && n.state == Scanning && n.deadline == s.now + 1000
    ensures var s' := Apply(s, Listen(name), bound);
            && s'.flight == s.flight && s'.now == s.now && |s'.nodes| == |s.nodes| + 1 && s'.nodes[..|s.nodes|] == s.nodes
            && s'.nodes[|s.nodes|].name == name && s'.nodes[|s.nodes|].state == Disabled
  {
  }

  // ----- Over whole runs -----

  lemma FailedStep(s: Net, step: Step, bound: Option<nat>, i: nat)
    requires WellFormed(s) && Enabled(s, step, bound) && i < |s.nodes| && IsFailed(s.nodes[i]) && step != Restart(i)
    ensures i < |Apply(s, step, bound).nodes| && IsFailed(Apply(s, step, bound).nodes[i])
  {
    match step
    case Deliver(k) => LearnOrOther(s, k, bound, i);
    case _ =>
  }

  lemma LearnOrOther(s: Net, k: nat, bound: Option<nat>, i: nat)
    requires WellFormed(s) && Enabled(s, Deliver(k), bound) && i < |s.nodes| && IsFailed(s.nodes[i])
    ensures var s' := Apply(s, Deliver(k), bound); i < |s'.nodes| && IsFailed(s'.nodes[i])
  {
    if s.flight[k].to == i {
      LearnExactly(s, k, bound);
    }
  }

  /** A node that has failed stays so until it is started again. */
  lemma {:induction false} FailedStaysFailed(s: Net, steps: seq<Step>, bound: Option<nat>, i: nat)
    requires Inv(s, false) && Run(s, steps, bound) && i < |s.nodes| && IsFailed(s.nodes[i]) && Restart(i) !in steps
    ensures i < |After(s, steps, bound).nodes| && IsFailed(After(s, steps, bound).nodes[i])
    decreases |steps|
  {
    if steps != [] {
      FailedStep(s, steps[0], bound, i);
      StepKeepsInv(s, steps[0], bound, false);
      FailedStaysFailed(Apply(s, steps[0], bound), steps[1..], bound, i);
    }
  }

  predicate HoldsAddress(n: Node, a: byte) { (n.state == Pending || n.state == Claimed) && n.address == a }

  lemma FixedStep(s: Net, step: Step, bound: Option<nat>, i: nat, a: byte)
    requires WellFormed(s) && Enabled(s, step, bound) && i < |s.nodes| && step != Restart(i)
    requires !s.nodes[i].arbitrary && HoldsAddress(s.nodes[i], a)
    ensures var s' := Apply(s, step, bound);
            && i < |s'.nodes| && s'.nodes[i].arbitrary == s.nodes[i].arbitrary
            && (HoldsAddress(s'.nodes[i], a) || (IsFailed(s'.nodes[i]) && Loses(s, step, i)))
  {
    match step
    case Deliver(k) => FixedDelivery(s, k, bound, i, a);
    case _ =>
  }

  lemma FixedDelivery(s: Net, k: nat, bound: Option<nat>, i: nat, a: byte)
    requires WellFormed(s) && Enabled(s, Deliver(k), bound) && i < |s.nodes|
    requires !s.nodes[i].arbitrary && HoldsAddress(s.nodes[i], a)
    ensures var s' := Apply(s, Deliver(k), bound);
            && i < |s'.nodes| && s'.nodes[i].arbitrary == s.nodes[i].arbitrary
            && (HoldsAddress(s'.nodes[i], a) || (IsFailed(s'.nodes[i]) && Loses(s, Deliver(k), i)))
  {
    if s.flight[k].to == i {
      LosesExactly(s, k, i);
      if !Challenges(s, k) {
        LearnExactly(s, k, bound);
      } else if s.nodes[i].name < s.flight[k].name {
        DefenceExactly(s, k, bound);
      } else {
        LossExactly(s, k, i, bound);
      }
    }
  }

  /** A node that may not choose an address never moves: until it is started again it holds the
      address it has, or has failed, and then for good. */
  lemma {:induction false} FixedNodeNeverMoves(s: Net, steps: seq<Step>, bound: Option<nat>, i: nat, a: byte)
    requires Inv(s, false) && Run(s, steps, bound) && i < |s.nodes| && Restart(i) !in steps
    requires !s.nodes[i].arbitrary && HoldsAddress(s.nodes[i], a)
    ensures i < |After(s, steps, bound).nodes|
    ensures var n := After(s, steps, bound).nodes[i];
            if Losses(s, steps, bound, i) == 0 then HoldsAddress(n, a) else IsFailed(n)
    decreases |steps|
  {
    if steps != [] {
      var s' := Apply(s, steps[0], bound);
      FixedStep(s, steps[0], bound, i, a);
      StepKeepsInv(s, steps[0], bound, false);
      if HoldsAddress(s'.nodes[i], a) {
        if Loses(s, steps[0], i) {
          LossExactly(s, steps[0].k, i, bound);
        }
        FixedNodeNeverMoves(s', steps[1..], bound, i, a);
      } else {
        FailedStaysFailed(s', steps[1..], bound, i);
      }
    }
  }
}
