/** Any number of claimers on one broadcast bus, with claim frames in flight.

    A frame is copied to every node then on the bus, its sender included, and each
    copy is delivered once, at any later moment and in any order. Answers to ISO
    requests may happen at any time, so requests themselves need not be tracked. */
module ClaimNetwork {
  import opened Wire
  import opened AddressClaim

  /** One copy of a claim frame on its way from node `from` to node `to`. */
  datatype Packet = Packet(from: nat, to: nat, src: byte, name: u64, sentAt: nat)

  datatype Net = Net(now: nat, nodes: seq<Node>, flight: seq<Packet>)

  const EMPTY_BUS := Net(0, [], [])

  datatype Step =
    | Join(name: u64, preferred: byte, arbitrary: bool)
    | Listen(name: u64)
    | Restart(i: nat)
    | Tick(i: nat)
    | Answer(i: nat)
    | Deliver(k: nat)
    | Wait(ms: nat)

  predicate FreshName(s: Net, name: u64) {
    forall n :: n in s.nodes ==> n.name != name
  }

  /** Which steps the bus allows. With a bound, time cannot pass the moment at which
      some frame would have been under way for `bound` milliseconds. */
  predicate Enabled(s: Net, step: Step, bound: Option<nat>) {
    match step
    case Join(name, preferred, _) => preferred <= ADDR_MAX && FreshName(s, name)
    case Listen(name) => FreshName(s, name)
    case Restart(i) => i < |s.nodes|
    case Tick(i) => i < |s.nodes|
    case Answer(i) => i < |s.nodes|
    case Deliver(k) => k < |s.flight| && s.flight[k].to < |s.nodes|
    case Wait(ms) => bound.Some? ==> forall p :: p in s.flight ==> s.now + ms < p.sentAt + bound.value
  }

  /** The copies of claim frame `f`, sent by `from`, one for each of `count` nodes. */
  function Broadcast(from: nat, now: nat, f: RawFrame, count: nat): (out: seq<Packet>)
    ensures |out| == count
  {
    seq(count, (to: nat) => Packet(from, to, f.src, FromLeBytes(f.data) % 0x1_0000_0000_0000_0000, now))
  }

  function BroadcastAll(from: nat, now: nat, frames: seq<RawFrame>, count: nat): seq<Packet> {
    if frames == [] then []
    else if frames[0].pgn == PGN_ISO_ADDRESS_CLAIM then
      Broadcast(from, now, frames[0], count) + BroadcastAll(from, now, frames[1..], count)
    else BroadcastAll(from, now, frames[1..], count)
  }

  function Without<T>(s: seq<T>, k: nat): seq<T>
    requires k < |s|
  {
    s[..k] + s[k + 1..]
  }

  /** Node `i` becomes `outcome.0` and broadcasts `outcome.1` on top of `rest`. */
  function Act(s: Net, i: nat, outcome: (Node, seq<RawFrame>), rest: seq<Packet>): Net
    requires i < |s.nodes|
  {
    Net(s.now, s.nodes[i := outcome.0], rest + BroadcastAll(i, s.now, outcome.1, |s.nodes|))
  }

  function Apply(s: Net, step: Step, bound: Option<nat>): Net
    requires Enabled(s, step, bound)
  {
    match step
    case Join(name, preferred, arbitrary) =>
      s.(nodes := s.nodes + [Started(NewNode(name, preferred, arbitrary), s.now).0])
    case Listen(name) => s.(nodes := s.nodes + [Started(PassiveNode(name), s.now).0])
    case Restart(i) => Act(s, i, Started(s.nodes[i], s.now), s.flight)
    case Tick(i) => Act(s, i, Ticked(s.nodes[i], s.now), s.flight)
    case Answer(i) =>
      var answer := Answered(s.nodes[i]);
      Act(s, i, (s.nodes[i], if answer.Some? then [answer.value] else []), s.flight)
    case Deliver(k) =>
      var p := s.flight[k];
      Act(s, p.to, Heard(s.nodes[p.to], s.now, p.src, p.name), Without(s.flight, k))
    case Wait(ms) => s.(now := s.now + ms)
  }

  /** `steps` is a run of the bus from `s`. */
  predicate Run(s: Net, steps: seq<Step>, bound: Option<nat>)
    decreases |steps|
  {
    steps == [] ||
    (Enabled(s, steps[0], bound) && Run(Apply(s, steps[0], bound), steps[1..], bound))
  }

  function After(s: Net, steps: seq<Step>, bound: Option<nat>): Net
    requires Run(s, steps, bound)
    decreases |steps|
  {
    if steps == [] then s else After(Apply(s, steps[0], bound), steps[1..], bound)
  }

  // ----- What one node does -----

  predicate Holds(n: Node) { n.state == Pending || n.state == Claimed }

  /** Well-formed values of a node that has been started. */
  predicate NodeOk(n: Node) {
    && n.preferred <= ADDR_MAX
    && (forall a :: a in n.used ==> a <= ADDR_MAX)
    && (Holds(n) ==> n.address <= ADDR_MAX && n.address !in n.used)
    && (n.state == Failed ==> n.address == ADDR_NULL)
  }

  /** `n'` has just announced the address it holds. */
  predicate Announced(n': Node, out: seq<RawFrame>, now: nat) {
    n'.state == Pending && n'.deadline == now + CLAIM_TIMEOUT_MS && out == [ClaimFrame(n')]
  }

  /** `n'` still holds what `n` held, perhaps having settled on it. */
  predicate Kept(n: Node, n': Node, now: nat) {
    && Holds(n) && n'.address == n.address && n'.deadline == n.deadline
    && (n'.state == n.state || n.deadline <= now)
  }

  /** What every action of a node obeys. */
  predicate SafeAction(n: Node, now: nat, outcome: (Node, seq<RawFrame>)) {
    && NodeOk(outcome.0)
    && outcome.0.name == n.name
    && (Holds(outcome.0) ==> Announced(outcome.0, outcome.1, now) || Kept(n, outcome.0, now))
    && (forall f :: f in outcome.1 && f.pgn == PGN_ISO_ADDRESS_CLAIM ==> f.data == LeBytes(n.name, 8))
  }

  lemma HearsSafely(n: Node, now: nat, src: byte, name: u64)
    requires NodeOk(n)
    ensures SafeAction(n, now, Heard(n, now, src, name))
    ensures Holds(n) && src == n.address && name != n.name && Holds(Heard(n, now, src, name).0)
            ==> Announced(Heard(n, now, src, name).0, Heard(n, now, src, name).1, now)
  {
  }

  lemma ActsSafely(n: Node, now: nat)
    requires NodeOk(n)
    ensures SafeAction(n, now, Started(n, now))
    ensures SafeAction(n, now, Ticked(n, now))
    ensures SafeAction(n, now, (n, if Answered(n).Some? then [Answered(n).value] else []))
  {
  }

  // ----- What a broadcast puts on the bus -----

  lemma ClaimBroadcast(i: nat, now: nat, n: Node, count: nat)
    ensures BroadcastAll(i, now, [ClaimFrame(n)], count) == Broadcast(i, now, ClaimFrame(n), count)
  {
    var frames := [ClaimFrame(n)];
    assert frames[1..] == [];
    assert BroadcastAll(i, now, frames[1..], count) == [];
    assert frames[0].pgn == PGN_ISO_ADDRESS_CLAIM;
  }

  lemma OneClaim(i: nat, now: nat, n: Node, count: nat, to: nat)
    requires to < count
    ensures Packet(i, to, n.address, n.name, now) in BroadcastAll(i, now, [ClaimFrame(n)], count)
  {
    NameBytesInverse(n.name);
    var out := Broadcast(i, now, ClaimFrame(n), count);
    assert out[to] == Packet(i, to, n.address, n.name, now);
    ClaimBroadcast(i, now, n, count);
  }

  lemma {:induction false} BroadcastShape(from: nat, now: nat, frames: seq<RawFrame>, count: nat, name: u64)
    requires forall f :: f in frames && f.pgn == PGN_ISO_ADDRESS_CLAIM ==> f.data == LeBytes(name, 8)
    ensures forall p :: p in BroadcastAll(from, now, frames, count) ==>
              p.from == from && p.to < count && p.sentAt == now && p.name == name
  {
    if frames != [] {
      NameBytesInverse(name);
      BroadcastShape(from, now, frames[1..], count, name);
    }
  }

  lemma WithoutKeeps<T>(s: seq<T>, k: nat)
    requires k < |s|
    ensures forall x :: x in Without(s, k) ==> x in s
    ensures forall x :: x in s && x != s[k] ==> x in Without(s, k)
  {
    forall x | x in s && x != s[k]
      ensures x in Without(s, k)
    {
      var i :| 0 <= i < |s| && s[i] == x;
      assert Without(s, k)[if i < k then i else i - 1] == x;
    }
  }

  // ----- The invariant -----

  /** `p` is a claim that one of nodes `i` and `j` sent for the address both hold and that
      the other has not heard. In the timed bus its sender cannot have settled yet. */
  predicate ClaimBetween(s: Net, p: Packet, i: nat, j: nat, timed: bool)
    requires i < |s.nodes| && j < |s.nodes|
  {
    && ((p.from == i && p.to == j) || (p.from == j && p.to == i))
    && p.src == s.nodes[i].address
    && (timed ==>
          var sender := if p.from == i then s.nodes[i] else s.nodes[j];
          sender.state == Pending && p.sentAt + CLAIM_TIMEOUT_MS <= sender.deadline)
  }

  predicate Share(s: Net, i: nat, j: nat)
    requires i < |s.nodes| && j < |s.nodes|
  {
    Holds(s.nodes[i]) && Holds(s.nodes[j]) && s.nodes[i].address == s.nodes[j].address
  }

  predicate Contested(s: Net, i: nat, j: nat, timed: bool)
    requires i < |s.nodes| && j < |s.nodes|
  {
    exists p :: p in s.flight && ClaimBetween(s, p, i, j, timed)
  }

  predicate PacketOk(s: Net, p: Packet) {
    p.from < |s.nodes| && p.to < |s.nodes| && p.name == s.nodes[p.from].name && p.sentAt <= s.now
  }

  predicate WellFormed(s: Net) {
    && (forall i :: 0 <= i < |s.nodes| ==> NodeOk(s.nodes[i]))
    && (forall i, j :: 0 <= i < j < |s.nodes| ==> s.nodes[i].name != s.nodes[j].name)
    && (forall p :: p in s.flight ==> PacketOk(s, p))
  }

  predicate OnTime(s: Net) {
    forall p :: p in s.flight ==> s.now < p.sentAt + CLAIM_TIMEOUT_MS
  }

  predicate Inv(s: Net, timed: bool) {
    && WellFormed(s)
    && (timed ==> OnTime(s))
    && (forall i, j :: 0 <= i < |s.nodes| && 0 <= j < |s.nodes| && i != j && Share(s, i, j) ==>
          Contested(s, i, j, timed))
  }

  // ----- Every step keeps the invariant -----

  /** The packets that node `i` consumes when it acts: at most one, addressed to it, and
      one that contests its address only if the node answers by an announcement. */
  predicate Consumes(s: Net, i: nat, outcome: (Node, seq<RawFrame>), rest: seq<Packet>)
    requires i < |s.nodes|
  {
    && (forall p :: p in rest ==> p in s.flight)
    && (forall p :: p in s.flight && p !in rest ==>
          && p.to == i
          && (Holds(s.nodes[i]) && p.src == s.nodes[i].address && p.name != s.nodes[i].name && Holds(outcome.0)
              ==> Announced(outcome.0, outcome.1, s.now)))
  }

  lemma ActKeepsWellFormed(s: Net, i: nat, outcome: (Node, seq<RawFrame>), rest: seq<Packet>)
    requires WellFormed(s) && i < |s.nodes|
    requires SafeAction(s.nodes[i], s.now, outcome)
    requires forall p :: p in rest ==> p in s.flight
    ensures WellFormed(Act(s, i, outcome, rest))
  {
    var s' := Act(s, i, outcome, rest);
    BroadcastShape(i, s.now, outcome.1, |s.nodes|, s.nodes[i].name);
    forall p | p in s'.flight
      ensures PacketOk(s', p)
    {
      if p in rest {
        assert PacketOk(s, p);
      }
    }
  }

  lemma ActKeepsContested(s: Net, i: nat, outcome: (Node, seq<RawFrame>), rest: seq<Packet>, timed: bool, j: nat, k: nat)
    requires Inv(s, timed) && i < |s.nodes|
    requires SafeAction(s.nodes[i], s.now, outcome)
    requires Consumes(s, i, outcome, rest)
    requires j < |s.nodes| && k < |s.nodes| && j != k
    requires Share(Act(s, i, outcome, rest), j, k)
    ensures Contested(Act(s, i, outcome, rest), j, k, timed)
  {
    var s' := Act(s, i, outcome, rest);
    if (i == j || i == k) && Announced(outcome.0, outcome.1, s.now) {
      var other := if i == j then k else j;
      OneClaim(i, s.now, outcome.0, |s.nodes|, other);
      var p := Packet(i, other, outcome.0.address, outcome.0.name, s.now);
      assert p in s'.flight && ClaimBetween(s', p, j, k, timed);
    } else {
      assert Share(s, j, k);
      var p :| p in s.flight && ClaimBetween(s, p, j, k, timed);
      assert PacketOk(s, p);
      assert p in rest;
      assert p in s'.flight && ClaimBetween(s', p, j, k, timed);
    }
  }

  lemma ActKeepsInv(s: Net, i: nat, outcome: (Node, seq<RawFrame>), rest: seq<Packet>, timed: bool)
    requires Inv(s, timed) && i < |s.nodes|
    requires SafeAction(s.nodes[i], s.now, outcome)
    requires Consumes(s, i, outcome, rest)
    ensures Inv(Act(s, i, outcome, rest), timed)
  {
    var s' := Act(s, i, outcome, rest);
    ActKeepsWellFormed(s, i, outcome, rest);
    BroadcastShape(i, s.now, outcome.1, |s.nodes|, s.nodes[i].name);
    forall j, k | 0 <= j < |s'.nodes| && 0 <= k < |s'.nodes| && j != k && Share(s', j, k)
      ensures Contested(s', j, k, timed)
    {
      ActKeepsContested(s, i, outcome, rest, timed, j, k);
    }
  }

  lemma JoinKeepsInv(s: Net, n: Node, timed: bool)
    requires Inv(s, timed) && NodeOk(n) && !Holds(n) && FreshName(s, n.name)
    ensures Inv(s.(nodes := s.nodes + [n]), timed)
  {
    var s' := s.(nodes := s.nodes + [n]);
    forall p | p in s'.flight
      ensures PacketOk(s', p)
    {
      assert PacketOk(s, p);
    }
    forall j, k | 0 <= j < |s'.nodes| && 0 <= k < |s'.nodes| && j != k && Share(s', j, k)
      ensures Contested(s', j, k, timed)
    {
      assert Share(s, j, k);
      var p :| p in s.flight && ClaimBetween(s, p, j, k, timed);
      assert p in s'.flight && ClaimBetween(s', p, j, k, timed);
    }
  }

  lemma WaitKeepsInv(s: Net, ms: nat, timed: bool)
    requires Inv(s, timed)
    requires timed ==> OnTime(s.(now := s.now + ms))
    ensures Inv(s.(now := s.now + ms), timed)
  {
    var s' := s.(now := s.now + ms);
    forall p | p in s'.flight
      ensures PacketOk(s', p)
    {
      assert PacketOk(s, p);
    }
    forall j, k | 0 <= j < |s'.nodes| && 0 <= k < |s'.nodes| && j != k && Share(s', j, k)
      ensures Contested(s', j, k, timed)
    {
      assert Share(s, j, k);
      var p :| p in s.flight && ClaimBetween(s, p, j, k, timed);
      assert p in s'.flight && ClaimBetween(s', p, j, k, timed);
    }
  }

  lemma StepKeepsInv(s: Net, step: Step, bound: Option<nat>, timed: bool)
    requires Inv(s, timed) && Enabled(s, step, bound)
    requires timed ==> bound.Some? && bound.value <= CLAIM_TIMEOUT_MS
    ensures Inv(Apply(s, step, bound), timed)
  {
    match step
    case Join(name, preferred, arbitrary) =>
      JoinKeepsInv(s, Started(NewNode(name, preferred, arbitrary), s.now).0, timed);
    case Listen(name) =>
      JoinKeepsInv(s, Started(PassiveNode(name), s.now).0, timed);
    case Restart(i) =>
      ActsSafely(s.nodes[i], s.now);
      ActKeepsInv(s, i, Started(s.nodes[i], s.now), s.flight, timed);
    case Tick(i) =>
      ActsSafely(s.nodes[i], s.now);
      ActKeepsInv(s, i, Ticked(s.nodes[i], s.now), s.flight, timed);
    case Answer(i) =>
      var n := s.nodes[i];
      ActsSafely(n, s.now);
      ActKeepsInv(s, i, (n, if Answered(n).Some? then [Answered(n).value] else []), s.flight, timed);
    case Deliver(k) =>
      var p := s.flight[k];
      HearsSafely(s.nodes[p.to], s.now, p.src, p.name);
      WithoutKeeps(s.flight, k);
      ActKeepsInv(s, p.to, Heard(s.nodes[p.to], s.now, p.src, p.name), Without(s.flight, k), timed);
    case Wait(ms) =>
      WaitKeepsInv(s, ms, timed);
  }

  lemma {:induction false} RunKeepsInv(s: Net, steps: seq<Step>, bound: Option<nat>, timed: bool)
    requires Inv(s, timed) && Run(s, steps, bound)
    requires timed ==> bound.Some? && bound.value <= CLAIM_TIMEOUT_MS
    ensures Inv(After(s, steps, bound), timed)
    decreases |steps|
  {
    if steps != [] {
      StepKeepsInv(s, steps[0], bound, timed);
      RunKeepsInv(Apply(s, steps[0], bound), steps[1..], bound, timed);
    }
  }
}
