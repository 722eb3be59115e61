/** What holds in every run of the bus: who may hold an address, and when. */
module ClaimSafety {
  import opened Wire
  import opened AddressClaim
  import opened ClaimNetwork

  /** `p` is a claim for the address of node `i`, sent by one of the two nodes to the other. */
  predicate Disputes(s: Net, p: Packet, i: nat, j: nat)
    requires i < |s.nodes| && j < |s.nodes|
  {
    && p.src == s.nodes[i].address
    && ((p.from == i && p.to == j && p.name == s.nodes[i].name) || (p.from == j && p.to == i && p.name == s.nodes[j].name))
  }

  /** Two nodes share an address only while a claim for it, from one to the other, is in flight. */
  ghost predicate SharesAreDisputed(s: Net) {
    forall i, j :: 0 <= i < j < |s.nodes| && Share(s, i, j) ==> exists p :: p in s.flight && Disputes(s, p, i, j)
  }

  /** Whatever the delays and the order of delivery, two nodes share an address only while
      a claim for it, from one of them to the other, has not been delivered. */
  lemma QuiescentUniqueness(steps: seq<Step>, bound: Option<nat>)
    requires Run(EMPTY_BUS, steps, bound)
    ensures SharesAreDisputed(After(EMPTY_BUS, steps, bound))
  {
    RunKeepsInv(EMPTY_BUS, steps, bound, false);
    var s := After(EMPTY_BUS, steps, bound);
    forall i, j | 0 <= i < j < |s.nodes| && Share(s, i, j)
      ensures exists p :: p in s.flight && Disputes(s, p, i, j)
    {
      assert Contested(s, i, j, false);
      var p :| p in s.flight && ClaimBetween(s, p, i, j, false);
      assert PacketOk(s, p);
    }
  }

  /** All held addresses are assignable, and no two nodes hold the same one. */
  predicate AddressesDistinct(s: Net) {
    && (forall i :: 0 <= i < |s.nodes| && Holds(s.nodes[i]) ==> s.nodes[i].address <= ADDR_MAX)
    && (forall i, j :: 0 <= i < j < |s.nodes| && Holds(s.nodes[i]) && Holds(s.nodes[j]) ==>
          s.nodes[i].address != s.nodes[j].address)
  }

  lemma InvDistinct(s: Net)
    requires Inv(s, false)
    ensures s.flight == [] ==> AddressesDistinct(s)
  {
    forall i, j | 0 <= i < j < |s.nodes| && Holds(s.nodes[i]) && Holds(s.nodes[j]) && s.flight == []
      ensures s.nodes[i].address != s.nodes[j].address
    {
      assert Share(s, i, j) ==> Contested(s, i, j, false);
    }
  }

  /** Once no claim is in flight, all held addresses are distinct. */
  lemma QuiescentAddressesDistinct(steps: seq<Step>, bound: Option<nat>)
    requires Run(EMPTY_BUS, steps, bound)
    requires After(EMPTY_BUS, steps, bound).flight == []
    ensures AddressesDistinct(After(EMPTY_BUS, steps, bound))
  {
    RunKeepsInv(EMPTY_BUS, steps, bound, false);
    InvDistinct(After(EMPTY_BUS, steps, bound));
  }

  /** Two nodes own the same address. */
  predicate DoubleClaim(s: Net) {
    exists i, j :: 0 <= i < j < |s.nodes|
      && s.nodes[i].state == Claimed && s.nodes[j].state == Claimed
      && s.nodes[i].address == s.nodes[j].address
  }

  /** If every claim is delivered sooner than the claim timeout, no address is ever owned twice. */
  lemma TimedMutualExclusion(steps: seq<Step>, bound: nat)
    requires bound <= CLAIM_TIMEOUT_MS
    requires Run(EMPTY_BUS, steps, Some(bound))
    ensures !DoubleClaim(After(EMPTY_BUS, steps, Some(bound)))
  {
    RunKeepsInv(EMPTY_BUS, steps, Some(bound), true);
    var s := After(EMPTY_BUS, steps, Some(bound));
    forall i, j | 0 <= i < j < |s.nodes| && s.nodes[i].state == Claimed && s.nodes[j].state == Claimed
      ensures s.nodes[i].address != s.nodes[j].address
    {
      assert Share(s, i, j) ==> Contested(s, i, j, true);
    }
  }

  lemma RunCons(s: Net, step: Step, rest: seq<Step>, bound: Option<nat>)
    requires Enabled(s, step, bound) && Run(Apply(s, step, bound), rest, bound)
    ensures Run(s, [step] + rest, bound)
    ensures After(s, [step] + rest, bound) == After(Apply(s, step, bound), rest, bound)
  {
    assert ([step] + rest)[1..] == rest;
  }

  lemma OneBroadcast(i: nat, now: nat, n: Node)
    ensures BroadcastAll(i, now, [ClaimFrame(n)], 2)
            == [Packet(i, 0, n.address, n.name, now), Packet(i, 1, n.address, n.name, now)]
  {
    NameBytesInverse(n.name);
    assert BroadcastAll(i, now, [ClaimFrame(n)], 2) == Broadcast(i, now, ClaimFrame(n), 2) + [];
  }

  /** Node 1 or 2 of two that both prefer address 42. */
  function Deaf(name: u64, state: ClaimState, deadline: nat): Node {
    Node(name, 42, 42, state, deadline, true, {})
  }

  function DeafClaims(): seq<Packet> {
    [Packet(0, 0, 42, 1, 1000), Packet(0, 1, 42, 1, 1000), Packet(1, 0, 42, 2, 1000), Packet(1, 1, 42, 2, 1000)]
  }

  /** The second half: 250 ms pass with both claims under way, and both nodes settle. */
  lemma DeafNodesSettle(bound: nat) returns (steps: seq<Step>)
    requires bound > CLAIM_TIMEOUT_MS
    ensures var s := Net(1000, [Deaf(1, Pending, 1250), Deaf(2, Pending, 1250)], DeafClaims());
            Run(s, steps, Some(bound)) && DoubleClaim(After(s, steps, Some(bound)))
  {
    var b := Some(bound);
    var waited := Net(1250, [Deaf(1, Pending, 1250), Deaf(2, Pending, 1250)], DeafClaims());
    var one := Net(1250, [Deaf(1, Claimed, 1250), Deaf(2, Pending, 1250)], DeafClaims());
    var both := Net(1250, [Deaf(1, Claimed, 1250), Deaf(2, Claimed, 1250)], DeafClaims());
    assert both.nodes[0].address == both.nodes[1].address;
    assert Apply(one, Tick(1), b) == both;
    RunCons(one, Tick(1), [], b);
    assert Apply(waited, Tick(0), b) == one;
    RunCons(waited, Tick(0), [Tick(1)] + [], b);
    RunCons(waited.(now := 1000), Wait(250), [Tick(0)] + ([Tick(1)] + []), b);
    steps := [Wait(250)] + ([Tick(0)] + ([Tick(1)] + []));
  }

  lemma DeafScanEnds(n: Node, now: nat)
    requires n == Deaf(n.name, Scanning, now)
    ensures Ticked(n, now) == (Deaf(n.name, Pending, now + CLAIM_TIMEOUT_MS), [ClaimFrame(Deaf(n.name, Pending, now + CLAIM_TIMEOUT_MS))])
  {
  }

  lemma DeafTick(s: Net, i: nat, b: Option<nat>)
    requires i < |s.nodes| == 2 && s.nodes[i] == Deaf(s.nodes[i].name, Scanning, s.now)
    ensures var n := s.nodes[i];
            Apply(s, Tick(i), b)
            == Net(s.now, s.nodes[i := Deaf(n.name, Pending, s.now + CLAIM_TIMEOUT_MS)],
                   s.flight + [Packet(i, 0, 42, n.name, s.now), Packet(i, 1, 42, n.name, s.now)])
  {
    var n := s.nodes[i];
    DeafScanEnds(n, s.now);
    OneBroadcast(i, s.now, Deaf(n.name, Pending, s.now + CLAIM_TIMEOUT_MS));
  }

  lemma FirstTick(b: Option<nat>)
    ensures Apply(Net(1000, [Deaf(1, Scanning, 1000), Deaf(2, Scanning, 1000)], []), Tick(0), b)
            == Net(1000, [Deaf(1, Pending, 1250), Deaf(2, Scanning, 1000)], DeafClaims()[..2])
  {
    DeafTick(Net(1000, [Deaf(1, Scanning, 1000), Deaf(2, Scanning, 1000)], []), 0, b);
  }

  lemma SecondTick(b: Option<nat>)
    ensures Apply(Net(1000, [Deaf(1, Pending, 1250), Deaf(2, Scanning, 1000)], DeafClaims()[..2]), Tick(1), b)
            == Net(1000, [Deaf(1, Pending, 1250), Deaf(2, Pending, 1250)], DeafClaims())
  {
    DeafTick(Net(1000, [Deaf(1, Pending, 1250), Deaf(2, Scanning, 1000)], DeafClaims()[..2]), 1, b);
  }

  /** Before that: both have scanned, and claim address 42 at the same moment. */
  lemma DeafNodesClaim(bound: nat) returns (steps: seq<Step>)
    requires bound > CLAIM_TIMEOUT_MS
    ensures var s := Net(1000, [Deaf(1, Scanning, 1000), Deaf(2, Scanning, 1000)], []);
            Run(s, steps, Some(bound)) && DoubleClaim(After(s, steps, Some(bound)))
  {
    var b := Some(bound);
    var scanned := Net(1000, [Deaf(1, Scanning, 1000), Deaf(2, Scanning, 1000)], []);
    var one := Net(1000, [Deaf(1, Pending, 1250), Deaf(2, Scanning, 1000)], DeafClaims()[..2]);
    var both := Net(1000, [Deaf(1, Pending, 1250), Deaf(2, Pending, 1250)], DeafClaims());
    var rest := DeafNodesSettle(bound);
    SecondTick(b);
    FirstTick(b);
    RunCons(one, Tick(1), rest, b);
    RunCons(scanned, Tick(0), [Tick(1)] + rest, b);
    steps := [Tick(0)] + ([Tick(1)] + rest);
  }

  /** Two nodes join an empty bus, prefer the same address and never hear each other in time. */
  lemma DeafRun(bound: nat) returns (steps: seq<Step>)
    requires bound > CLAIM_TIMEOUT_MS
    ensures BreaksExclusion(steps, bound)
  {
    var rest := DeafSecondJoins(bound);
    DeafJoin(EMPTY_BUS, 1, Some(bound));
    assert [] + [Deaf(1, Scanning, 1000)] == [Deaf(1, Scanning, 1000)];
    RunCons(EMPTY_BUS, Join(1, 42, true), rest, Some(bound));
    steps := [Join(1, 42, true)] + rest;
  }

  lemma DeafSecondJoins(bound: nat) returns (steps: seq<Step>)
    requires bound > CLAIM_TIMEOUT_MS
    ensures var s := Net(0, [Deaf(1, Scanning, 1000)], []);
            Run(s, steps, Some(bound)) && DoubleClaim(After(s, steps, Some(bound)))
  {
    var s := Net(0, [Deaf(1, Scanning, 1000)], []);
    var rest := DeafNodesWait(bound);
    DeafJoin(s, 2, Some(bound));
    assert s.nodes + [Deaf(2, Scanning, 1000)] == [Deaf(1, Scanning, 1000), Deaf(2, Scanning, 1000)];
    RunCons(s, Join(2, 42, true), rest, Some(bound));
    steps := [Join(2, 42, true)] + rest;
  }

  /** Both have joined and listen for a second. */
  lemma DeafNodesWait(bound: nat) returns (steps: seq<Step>)
    requires bound > CLAIM_TIMEOUT_MS
    ensures var s := Net(0, [Deaf(1, Scanning, 1000), Deaf(2, Scanning, 1000)], []);
            Run(s, steps, Some(bound)) && DoubleClaim(After(s, steps, Some(bound)))
  {
    var rest := DeafNodesClaim(bound);
    RunCons(Net(0, [Deaf(1, Scanning, 1000), Deaf(2, Scanning, 1000)], []), Wait(1000), rest, Some(bound));
    steps := [Wait(1000)] + rest;
  }

  lemma DeafJoin(s: Net, name: u64, b: Option<nat>)
    requires s.now == 0 && FreshName(s, name)
    ensures Apply(s, Join(name, 42, true), b) == s.(nodes := s.nodes + [Deaf(name, Scanning, 1000)])
  {
  }

  /** A run of the timed bus, from the empty bus, that ends in a double claim. */
  predicate BreaksExclusion(steps: seq<Step>, bound: nat) {
    Run(EMPTY_BUS, steps, Some(bound)) && DoubleClaim(After(EMPTY_BUS, steps, Some(bound)))
  }

  ghost predicate NeverBreaks(bound: nat) { forall steps :: !BreaksExclusion(steps, bound) }

  /** The bound is exact: a delay of the claim timeout itself already allows a double claim,
      so mutual exclusion holds for a bound if and only if the bound is at most that. */
  lemma MutualExclusionExactly(bound: nat)
    ensures NeverBreaks(bound) <==> bound <= CLAIM_TIMEOUT_MS
  {
    if bound <= CLAIM_TIMEOUT_MS {
      forall steps
        ensures !BreaksExclusion(steps, bound)
      {
        if Run(EMPTY_BUS, steps, Some(bound)) {
          TimedMutualExclusion(steps, bound);
        }
      }
    } else {
      var steps := DeafRun(bound);
    }
  }

  // ----- The lowest NAME wins -----

  /** Nodes stay on the bus under their NAMEs. */
  predicate SameNames(s: Net, s': Net) {
    |s.nodes| <= |s'.nodes| && forall j :: 0 <= j < |s.nodes| ==> s'.nodes[j].name == s.nodes[j].name
  }

  lemma StepKeepsNames(s: Net, step: Step, bound: Option<nat>)
    requires Enabled(s, step, bound)
    ensures SameNames(s, Apply(s, step, bound))
  {
  }

  lemma {:induction false} RunKeepsNames(s: Net, steps: seq<Step>, bound: Option<nat>)
    requires Run(s, steps, bound)
    ensures SameNames(s, After(s, steps, bound))
    decreases |steps|
  {
    if steps != [] {
      StepKeepsNames(s, steps[0], bound);
      RunKeepsNames(Apply(s, steps[0], bound), steps[1..], bound);
    }
  }

  /** A node whose NAME is the lowest of all that are ever on the bus never loses an address
      it holds, until it is itself restarted. */
  lemma {:induction false} LowestNameNeverYields(s: Net, steps: seq<Step>, bound: Option<nat>, i: nat)
    requires Inv(s, false) && Run(s, steps, bound)
    requires i < |s.nodes| && Holds(s.nodes[i])
    requires Restart(i) !in steps
    requires forall n :: n in After(s, steps, bound).nodes ==> s.nodes[i].name <= n.name
    ensures i < |After(s, steps, bound).nodes| && Holds(After(s, steps, bound).nodes[i])
    ensures After(s, steps, bound).nodes[i].address == s.nodes[i].address
    decreases |steps|
  {
    RunKeepsNames(s, steps, bound);
    if steps != [] {
      var s' := Apply(s, steps[0], bound);
      StepKeepsInv(s, steps[0], bound, false);
      if steps[0].Deliver? {
        var p := s.flight[steps[0].k];
        assert PacketOk(s, p);
        assert After(s, steps, bound).nodes[p.from].name == p.name;
      }
      LowestNameNeverYields(s', steps[1..], bound, i);
    }
  }
}
