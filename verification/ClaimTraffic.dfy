/** The claim traffic dies out, and no node is displaced for ever. */
module ClaimTraffic {
  import opened Wire
  import opened AddressClaim
  import opened ClaimNetwork
  import opened ClaimSafety

  // ----- Sums -----

  function Total(ms: seq<nat>): nat {
    if ms == [] then 0 else ms[0] + Total(ms[1..])
  }

  lemma {:induction false} TotalConcat(a: seq<nat>, b: seq<nat>)
    ensures Total(a + b) == Total(a) + Total(b)
  {
    if a == [] {
      assert a + b == b;
    } else {
      TotalConcat(a[1..], b);
      assert (a + b)[1..] == a[1..] + b;
    }
  }

  lemma TotalSplit(ms: seq<nat>, i: nat)
    requires i < |ms|
    ensures Total(ms) == Total(ms[..i]) + ms[i] + Total(ms[i + 1..])
  {
    TotalConcat(ms[..i], ms[i..]);
    assert ms[..i] + ms[i..] == ms;
    assert ms[i..][1..] == ms[i + 1..];
  }

  lemma TotalUpdate(ms: seq<nat>, i: nat, v: nat)
    requires i < |ms|
    ensures Total(ms[i := v]) == Total(ms) - ms[i] + v
  {
    TotalSplit(ms, i);
    TotalSplit(ms[i := v], i);
    assert ms[i := v][..i] == ms[..i] && ms[i := v][i + 1..] == ms[i + 1..];
  }

  lemma {:induction false} TotalUniform(ms: seq<nat>, v: nat)
    requires forall m :: m in ms ==> m == v
    ensures Total(ms) == |ms| * v
  {
    if ms != [] {
      assert ms[0] in ms;
      assert forall m :: m in ms[1..] ==> m in ms;
      TotalUniform(ms[1..], v);
      assert |ms| * v == v + |ms[1..]| * v;
    }
  }

  function Pow(b: nat, e: nat): (p: nat)
    ensures b > 0 ==> p > 0
  {
    if e == 0 then 1 else
      assert b > 0 ==> b * Pow(b, e - 1) > 0;
      b * Pow(b, e - 1)
  }

  lemma {:induction false} PowGrows(b: nat, d: nat, e: nat)
    requires b > 0 && d <= e
    ensures Pow(b, d) <= Pow(b, e)
    decreases e - d
  {
    if d < e {
      PowGrows(b, d, e - 1);
    }
  }

  // ----- The three parts of the measure -----

  /** How many assignable addresses at or above `a` the node has not seen in use. */
  function Unseen(used: set<byte>, a: nat): nat
    decreases 256 - a
  {
    if a > ADDR_MAX then 0 else (if a in used then 0 else 1) + Unseen(used, a + 1)
  }

  lemma {:induction false} UnseenBound(used: set<byte>, a: nat)
    requires a <= 254
    ensures Unseen(used, a) <= 254 - a
    decreases 256 - a
  {
    if a <= ADDR_MAX {
      UnseenBound(used, a + 1);
    }
  }

  lemma {:induction false} UnseenShrinks(used: set<byte>, x: byte, a: nat)
    ensures Unseen(used + {x}, a) ==
            Unseen(used, a) - (if a <= x <= ADDR_MAX && x !in used then 1 else 0)
    decreases 256 - a
  {
    if a <= ADDR_MAX {
      UnseenShrinks(used, x, a + 1);
    }
  }

  /** First: addresses still unseen, plus one while the node has not claimed at all. */
  function Reserve(n: Node): nat {
    Unseen(n.used, 0) + if n.state == Scanning then 1 else 0
  }

  function Reserves(nodes: seq<Node>): seq<nat> {
    seq(|nodes|, i requires 0 <= i < |nodes| => Reserve(nodes[i]))
  }

  /** How many nodes have a NAME below `name`. */
  function Rank(nodes: seq<Node>, name: nat): nat {
    if nodes == [] then 0 else (if nodes[0].name < name then 1 else 0) + Rank(nodes[1..], name)
  }

  lemma {:induction false} RankMonotone(nodes: seq<Node>, low: nat, high: nat)
    requires low <= high
    ensures Rank(nodes, low) <= Rank(nodes, high)
  {
    if nodes != [] {
      RankMonotone(nodes[1..], low, high);
    }
  }

  lemma {:induction false} RankStrict(nodes: seq<Node>, i: nat, name: nat)
    requires i < |nodes| && nodes[i].name < name
    ensures Rank(nodes, nodes[i].name) < Rank(nodes, name)
  {
    if i == 0 {
      RankMonotone(nodes[1..], nodes[0].name, name);
    } else {
      RankStrict(nodes[1..], i - 1, name);
    }
  }

  lemma {:induction false} RankUpdate(nodes: seq<Node>, i: nat, n: Node, name: nat)
    requires i < |nodes| && n.name == nodes[i].name
    ensures Rank(nodes[i := n], name) == Rank(nodes, name)
  {
    if i == 0 {
      assert nodes[i := n][1..] == nodes[1..];
    } else {
      RankUpdate(nodes[1..], i - 1, n, name);
      assert nodes[i := n][1..] == nodes[1..][i - 1 := n];
    }
  }

  /** Second: a claim by a NAME with r lower ones can set off a claim from each of them,
      to every node, and so on down; that is at most (nodes + 1) to the power r. */
  function Weight(nodes: seq<Node>, p: Packet): nat {
    Pow(|nodes| + 1, Rank(nodes, p.name))
  }

  function Weights(nodes: seq<Node>, flight: seq<Packet>): seq<nat> {
    seq(|flight|, k requires 0 <= k < |flight| => Weight(nodes, flight[k]))
  }

  /** Third: nodes that have not settled. */
  function Unsettled(nodes: seq<Node>): seq<nat> {
    seq(|nodes|, i requires 0 <= i < |nodes| => if nodes[i].state == Pending then 1 else 0)
  }

  function Budget(s: Net): nat { Total(Reserves(s.nodes)) }
  function Traffic(s: Net): nat { Total(Weights(s.nodes, s.flight)) }
  function Waiting(s: Net): nat { Total(Unsettled(s.nodes)) }

  predicate Smaller(s': Net, s: Net) {
    || Budget(s') < Budget(s)
    || (Budget(s') == Budget(s) && Traffic(s') < Traffic(s))
    || (Budget(s') == Budget(s) && Traffic(s') == Traffic(s) && Waiting(s') < Waiting(s))
  }

  // ----- Every step makes it smaller -----

  /** The steps that neither start a node nor answer a request. */
  predicate Internal(step: Step) { step.Tick? || step.Deliver? || step.Wait? }

  predicate OnlyTimePassed(s: Net, s': Net) { s'.nodes == s.nodes && s'.flight == s.flight }

  lemma ActBudget(s: Net, i: nat, outcome: (Node, seq<RawFrame>), rest: seq<Packet>)
    requires i < |s.nodes|
    ensures Budget(Act(s, i, outcome, rest)) == Budget(s) - Reserve(s.nodes[i]) + Reserve(outcome.0)
  {
    assert Reserves(s.nodes[i := outcome.0]) == Reserves(s.nodes)[i := Reserve(outcome.0)];
    TotalUpdate(Reserves(s.nodes), i, Reserve(outcome.0));
  }

  lemma TrafficWithout(s: Net, k: nat)
    requires k < |s.flight|
    ensures Total(Weights(s.nodes, Without(s.flight, k))) + Weight(s.nodes, s.flight[k]) == Traffic(s)
  {
    var ws := Weights(s.nodes, s.flight);
    TotalSplit(ws, k);
    TotalConcat(ws[..k], ws[k + 1..]);
    assert Weights(s.nodes, Without(s.flight, k)) == ws[..k] + ws[k + 1..];
  }

  lemma WeightsSurvive(nodes: seq<Node>, i: nat, n: Node, flight: seq<Packet>)
    requires i < |nodes| && n.name == nodes[i].name
    ensures Weights(nodes[i := n], flight) == Weights(nodes, flight)
  {
    forall k | 0 <= k < |flight|
      ensures Weight(nodes[i := n], flight[k]) == Weight(nodes, flight[k])
    {
      RankUpdate(nodes, i, n, flight[k].name);
    }
  }

  lemma PowDominates(count: nat, low: nat, high: nat)
    requires low < high
    ensures count * Pow(count + 1, low) < Pow(count + 1, high)
  {
    PowGrows(count + 1, low + 1, high);
    var p := Pow(count + 1, low);
    assert Pow(count + 1, low + 1) == (count + 1) * p == count * p + p;
  }

  lemma UniformWeights(nodes: seq<Node>, flight: seq<Packet>, name: u64)
    requires forall p :: p in flight ==> p.name == name
    ensures Total(Weights(nodes, flight)) == |flight| * Pow(|nodes| + 1, Rank(nodes, name))
  {
    var ws := Weights(nodes, flight);
    forall w | w in ws
      ensures w == Pow(|nodes| + 1, Rank(nodes, name))
    {
      var k :| 0 <= k < |ws| && ws[k] == w;
      assert flight[k] in flight;
    }
    TotalUniform(ws, Pow(|nodes| + 1, Rank(nodes, name)));
  }

  /** One claim, heard by all, weighs less than the claim of a higher NAME that provoked it. */
  lemma ReclaimWeighsLess(s: Net, i: nat, n: Node, provoked: Packet)
    requires i < |s.nodes| && n.name == s.nodes[i].name && n.name < provoked.name
    ensures Total(Weights(s.nodes, BroadcastAll(i, s.now, [ClaimFrame(n)], |s.nodes|))) < Weight(s.nodes, provoked)
  {
    var out := BroadcastAll(i, s.now, [ClaimFrame(n)], |s.nodes|);
    ClaimBroadcast(i, s.now, n, |s.nodes|);
    BroadcastShape(i, s.now, [ClaimFrame(n)], |s.nodes|, n.name);
    UniformWeights(s.nodes, out, n.name);
    RankStrict(s.nodes, i, provoked.name);
    PowDominates(|s.nodes|, Rank(s.nodes, n.name), Rank(s.nodes, provoked.name));
  }

  lemma ActTraffic(s: Net, i: nat, outcome: (Node, seq<RawFrame>), k: nat)
    requires i < |s.nodes| && k < |s.flight| && outcome.0.name == s.nodes[i].name
    ensures Traffic(Act(s, i, outcome, Without(s.flight, k)))
            == Traffic(s) - Weight(s.nodes, s.flight[k])
               + Total(Weights(s.nodes, BroadcastAll(i, s.now, outcome.1, |s.nodes|)))
  {
    var rest := Without(s.flight, k);
    var sent := BroadcastAll(i, s.now, outcome.1, |s.nodes|);
    WeightsSurvive(s.nodes, i, outcome.0, rest + sent);
    assert Weights(s.nodes, rest + sent) == Weights(s.nodes, rest) + Weights(s.nodes, sent);
    TotalConcat(Weights(s.nodes, rest), Weights(s.nodes, sent));
    TrafficWithout(s, k);
  }

  /** A node that hears no contest changes only what it has seen. */
  lemma UncontestedReserve(n: Node, now: nat, src: byte, name: u64)
    requires !Contests(n, src, name)
    ensures Reserve(Heard(n, now, src, name).0) <= Reserve(n)
  {
    UnseenShrinks(n.used, src, 0);
  }

  lemma DefendedReserve(n: Node, now: nat, src: byte, name: u64)
    requires Contests(n, src, name) && n.name < name
    ensures Reserve(Heard(n, now, src, name).0) == Reserve(n)
  {
  }

  /** A node that loses its address has seen one more, its own. */
  lemma LostReserve(n: Node, now: nat, src: byte, name: u64)
    requires NodeOk(n) && Contests(n, src, name) && name < n.name
    ensures Reserve(Heard(n, now, src, name).0) < Reserve(n)
  {
    assert n.state != Scanning;
    assert src == n.address && (Holds(n) ==> src !in n.used);
    UnseenShrinks(n.used, src, 0);
  }

  lemma HeardReserve(n: Node, now: nat, src: byte, name: u64)
    requires NodeOk(n)
    ensures var n' := Heard(n, now, src, name).0;
            if Contests(n, src, name) && name < n.name then Reserve(n') < Reserve(n) else Reserve(n') <= Reserve(n)
  {
    if !Contests(n, src, name) {
      UncontestedReserve(n, now, src, name);
    } else if n.name < name {
      DefendedReserve(n, now, src, name);
    } else {
      LostReserve(n, now, src, name);
    }
  }

  lemma DeliverShrinks(s: Net, k: nat)
    requires WellFormed(s) && k < |s.flight| && s.flight[k].to < |s.nodes|
    ensures var p := s.flight[k];
            Smaller(Act(s, p.to, Heard(s.nodes[p.to], s.now, p.src, p.name), Without(s.flight, k)), s)
  {
    var p := s.flight[k];
    var n := s.nodes[p.to];
    var outcome := Heard(n, s.now, p.src, p.name);
    assert NodeOk(n) && PacketOk(s, p);
    HeardReserve(n, s.now, p.src, p.name);
    ActBudget(s, p.to, outcome, Without(s.flight, k));
    if !Contests(n, p.src, p.name) {
      ActTraffic(s, p.to, outcome, k);
      assert BroadcastAll(p.to, s.now, [], |s.nodes|) == [];
    } else if n.name < p.name {
      ActTraffic(s, p.to, outcome, k);
      ReclaimWeighsLess(s, p.to, outcome.0, p);
    }
  }

  lemma ScanEnds(s: Net, i: nat)
    requires i < |s.nodes| && s.nodes[i].state == Scanning && s.now >= s.nodes[i].deadline
    ensures Budget(Act(s, i, Ticked(s.nodes[i], s.now), s.flight)) < Budget(s)
  {
    var outcome := Ticked(s.nodes[i], s.now);
    ActBudget(s, i, outcome, s.flight);
    assert Reserve(outcome.0) < Reserve(s.nodes[i]);
  }

  /** A tick that sends nothing, on a node that does not scan. */
  lemma SilentTick(s: Net, i: nat, n: Node)
    requires i < |s.nodes| && n == s.nodes[i].(state := n.state) && n.state != Scanning && s.nodes[i].state != Scanning
    ensures var s' := Act(s, i, (n, []), s.flight);
            && s'.flight == s.flight && Budget(s') == Budget(s) && Traffic(s') == Traffic(s)
  {
    ActBudget(s, i, (n, []), s.flight);
    assert BroadcastAll(i, s.now, [], |s.nodes|) == [];
    WeightsSurvive(s.nodes, i, n, s.flight);
  }

  lemma ClaimSettles(s: Net, i: nat)
    requires i < |s.nodes| && s.nodes[i].state == Pending && s.now >= s.nodes[i].deadline
    ensures Smaller(Act(s, i, Ticked(s.nodes[i], s.now), s.flight), s)
  {
    var n := s.nodes[i].(state := Claimed);
    SilentTick(s, i, n);
    TotalUpdate(Unsettled(s.nodes), i, 0);
    assert Unsettled(s.nodes[i := n]) == Unsettled(s.nodes)[i := 0];
  }

  lemma TickShrinks(s: Net, i: nat)
    requires WellFormed(s) && i < |s.nodes|
    ensures var s' := Act(s, i, Ticked(s.nodes[i], s.now), s.flight);
            Smaller(s', s) || OnlyTimePassed(s, s')
  {
    var n := s.nodes[i];
    if n.state == Scanning && s.now >= n.deadline {
      ScanEnds(s, i);
    } else if n.state == Pending && s.now >= n.deadline {
      ClaimSettles(s, i);
    } else {
      assert BroadcastAll(i, s.now, [], |s.nodes|) == [];
    }
  }

  lemma InternalStepShrinks(s: Net, step: Step, bound: Option<nat>)
    requires WellFormed(s) && Enabled(s, step, bound) && Internal(step)
    ensures var s' := Apply(s, step, bound); Smaller(s', s) || OnlyTimePassed(s, s')
  {
    match step
    case Tick(i) => TickShrinks(s, i);
    case Deliver(k) => DeliverShrinks(s, k);
    case Wait(ms) =>
  }

  // ----- Main results -----

  /** An unending run in which no node is started and no request is answered. */
  ghost predicate EndlessRun(states: nat -> Net, steps: nat -> Step, bound: Option<nat>) {
    forall k: nat ::
      && Internal(steps(k)) && Enabled(states(k), steps(k), bound)
      && states(k + 1) == Apply(states(k), steps(k), bound)
  }

  /** From some moment on nothing is sent, delivered or changed any more: only time passes. */
  lemma {:induction false} TrafficEnds(states: nat -> Net, steps: nat -> Step, bound: Option<nat>, from: nat)
    returns (quiet: nat)
    requires Inv(states(from), false) && EndlessRun(states, steps, bound)
    ensures from <= quiet
    ensures forall k :: quiet <= k ==> OnlyTimePassed(states(k), states(k + 1))
    decreases Budget(states(from)), Traffic(states(from)), Waiting(states(from))
  {
    if k :| from <= k && !OnlyTimePassed(states(k), states(k + 1)) {
      // the first such k
      var first := FirstChange(states, from, k);
      SameWhileQuiet(states, steps, bound, from, first);
      InternalStepShrinks(states(first), steps(first), bound);
      StepKeepsInv(states(first), steps(first), bound, false);
      quiet := TrafficEnds(states, steps, bound, first + 1);
    } else {
      quiet := from;
    }
  }

  lemma {:induction false} FirstChange(states: nat -> Net, from: nat, k: nat) returns (first: nat)
    requires from <= k && !OnlyTimePassed(states(k), states(k + 1))
    ensures from <= first <= k && !OnlyTimePassed(states(first), states(first + 1))
    ensures forall j :: from <= j < first ==> OnlyTimePassed(states(j), states(j + 1))
    decreases k - from
  {
    if !OnlyTimePassed(states(from), states(from + 1)) {
      first := from;
    } else {
      first := FirstChange(states, from + 1, k);
    }
  }

  lemma {:induction false} SameWhileQuiet(states: nat -> Net, steps: nat -> Step, bound: Option<nat>, from: nat, upTo: nat)
    requires from <= upTo && Inv(states(from), false) && EndlessRun(states, steps, bound)
    requires forall j :: from <= j < upTo ==> OnlyTimePassed(states(j), states(j + 1))
    ensures OnlyTimePassed(states(from), states(upTo)) && Inv(states(upTo), false)
    decreases upTo - from
  {
    if from < upTo {
      SameWhileQuiet(states, steps, bound, from, upTo - 1);
      StepKeepsInv(states(upTo - 1), steps(upTo - 1), bound, false);
    }
  }

  /** No claim stays in flight for ever. */
  ghost predicate EverythingArrives(states: nat -> Net, steps: nat -> Step) {
    forall k: nat :: states(k).flight != [] ==> exists m: nat :: k <= m && steps(m).Deliver?
  }

  lemma DeliveryChanges(states: nat -> Net, steps: nat -> Step, bound: Option<nat>, k: nat)
    requires Inv(states(0), false) && EndlessRun(states, steps, bound) && steps(k).Deliver?
    ensures !OnlyTimePassed(states(k), states(k + 1))
  {
    RunPrefixInv(states, steps, bound, k);
    DeliverShrinks(states(k), steps(k).k);
  }

  lemma {:induction false} RunPrefixInv(states: nat -> Net, steps: nat -> Step, bound: Option<nat>, k: nat)
    requires Inv(states(0), false) && EndlessRun(states, steps, bound)
    ensures Inv(states(k), false)
  {
    if k > 0 {
      RunPrefixInv(states, steps, bound, k - 1);
      StepKeepsInv(states(k - 1), steps(k - 1), bound, false);
    }
  }

  ghost predicate TickedFrom(steps: nat -> Step, k: nat, i: nat) { exists m: nat :: k <= m && steps(m) == Tick(i) }

  /** Every node is ticked again and again. */
  ghost predicate TicksGoOn(states: nat -> Net, steps: nat -> Step) {
    forall k: nat, i: nat :: i < |states(k).nodes| ==> TickedFrom(steps, k, i)
  }

  ghost predicate Reaches(states: nat -> Net, t: nat) { exists k: nat :: t <= states(k).now }

  /** The clock passes every moment. */
  ghost predicate TimeGoesOn(states: nat -> Net) { forall t: nat :: Reaches(states, t) }

  lemma {:induction false} ClockRuns(states: nat -> Net, steps: nat -> Step, bound: Option<nat>, j: nat, k: nat)
    requires j <= k && EndlessRun(states, steps, bound)
    ensures states(j).now <= states(k).now
    decreases k - j
  {
    if j < k {
      ClockRuns(states, steps, bound, j, k - 1);
      assert Internal(steps(k - 1)) && states(k) == Apply(states(k - 1), steps(k - 1), bound);
    }
  }

  /** From step `k` on nothing happens any more. */
  ghost predicate Quiet(states: nat -> Net, k: nat) {
    forall j :: k <= j ==> OnlyTimePassed(states(j), states(j + 1))
  }

  lemma LaterTick(states: nat -> Net, steps: nat -> Step, bound: Option<nat>, k: nat, i: nat, t: nat) returns (m: nat)
    requires EndlessRun(states, steps, bound) && i < |states(k).nodes|
    requires TickedFrom(steps, k, i) && t <= states(k).now
    ensures k <= m && steps(m) == Tick(i) && t <= states(m).now
  {
    m :| k <= m && steps(m) == Tick(i);
    ClockRuns(states, steps, bound, k, m);
  }

  /** Some step from `k` on at `t` or later. */
  lemma LaterStep(states: nat -> Net, steps: nat -> Step, bound: Option<nat>, k: nat, t: nat) returns (m: nat)
    requires EndlessRun(states, steps, bound) && Reaches(states, t)
    ensures k <= m && t <= states(m).now
  {
    var late: nat :| t <= states(late).now;
    m := if k < late then late else k;
    ClockRuns(states, steps, bound, late, m);
  }

  predicate AtRest(n: Node) { n.state == Claimed || n.state == Failed || n.state == Disabled }

  lemma OverdueActs(s: Net, i: nat, bound: Option<nat>)
    requires i < |s.nodes| && !AtRest(s.nodes[i]) && s.nodes[i].deadline <= s.now
    ensures !OnlyTimePassed(s, Apply(s, Tick(i), bound))
  {
    var s' := Apply(s, Tick(i), bound);
    assert s'.nodes[i] == Ticked(s.nodes[i], s.now).0;
    assert s'.nodes[i].state != s.nodes[i].state;
  }

  lemma QuietStep(states: nat -> Net, steps: nat -> Step, bound: Option<nat>, k: nat, m: nat)
    requires EndlessRun(states, steps, bound) && Quiet(states, k) && k <= m
    ensures Enabled(states(m), steps(m), bound) && OnlyTimePassed(states(m), Apply(states(m), steps(m), bound))
  {
    var next := states(m + 1);
    assert Internal(steps(m));
  }

  lemma QuietNodeRests(states: nat -> Net, steps: nat -> Step, bound: Option<nat>, k: nat, i: nat)
    requires Inv(states(k), false) && EndlessRun(states, steps, bound) && Quiet(states, k)
    requires TicksGoOn(states, steps) && TimeGoesOn(states) && i < |states(k).nodes|
    ensures AtRest(states(k).nodes[i])
  {
    var t := states(k).nodes[i].deadline;
    assert Reaches(states, t);
    var late := LaterStep(states, steps, bound, k, t);
    SameWhileQuiet(states, steps, bound, k, late);
    assert TickedFrom(steps, late, i);
    var m := LaterTick(states, steps, bound, late, i, t);
    SameWhileQuiet(states, steps, bound, k, m);
    QuietStep(states, steps, bound, k, m);
    if !AtRest(states(k).nodes[i]) {
      OverdueActs(states(m), i, bound);
    }
  }

  /** If ticks and time do not stop, then once the bus is quiet every node owns an address, has
      failed, or, if it only listens, is disabled. */
  lemma EveryNodeSettles(states: nat -> Net, steps: nat -> Step, bound: Option<nat>, quiet: nat)
    requires Inv(states(0), false) && EndlessRun(states, steps, bound) && Quiet(states, quiet)
    requires TicksGoOn(states, steps) && TimeGoesOn(states)
    ensures forall k, i :: quiet <= k && 0 <= i < |states(k).nodes| ==> AtRest(states(k).nodes[i])
  {
    forall k, i | quiet <= k && 0 <= i < |states(k).nodes|
      ensures AtRest(states(k).nodes[i])
    {
      RunPrefixInv(states, steps, bound, k);
      QuietNodeRests(states, steps, bound, k, i);
    }
  }

  /** If moreover every claim is delivered at some time, the bus converges: from some moment on
      no claim is in flight, the addresses held are assignable and pairwise distinct, and, if
      ticks and time do not stop, every node that wants an address owns one or has failed. */
  lemma Converges(states: nat -> Net, steps: nat -> Step, bound: Option<nat>)
    returns (settled: nat)
    requires Inv(states(0), false) && EndlessRun(states, steps, bound) && EverythingArrives(states, steps)
    ensures forall k :: settled <= k ==> states(k).flight == [] && AddressesDistinct(states(k))
    ensures TicksGoOn(states, steps) && TimeGoesOn(states) ==>
              forall k, i :: settled <= k && 0 <= i < |states(k).nodes| ==> AtRest(states(k).nodes[i])
  {
    settled := TrafficEnds(states, steps, bound, 0);
    forall k | settled <= k
      ensures states(k).flight == [] && AddressesDistinct(states(k))
    {
      RunPrefixInv(states, steps, bound, k);
      if states(k).flight != [] {
        var m: nat :| k <= m && steps(m).Deliver?;
        DeliveryChanges(states, steps, bound, m);
      }
      InvDistinct(states(k));
    }
    if TicksGoOn(states, steps) && TimeGoesOn(states) {
      EveryNodeSettles(states, steps, bound, settled);
    }
  }

  /** Does this step make node `j` lose the address it holds to a lower NAME? */
  predicate Loses(s: Net, step: Step, j: nat)
    requires step.Deliver? ==> step.k < |s.flight|
  {
    && step.Deliver? && j < |s.nodes|
    && var p := s.flight[step.k];
       p.to == j && Contests(s.nodes[j], p.src, p.name) && p.name < s.nodes[j].name
  }

  function Losses(s: Net, steps: seq<Step>, bound: Option<nat>, j: nat): nat
    requires Run(s, steps, bound)
    decreases |steps|
  {
    if steps == [] then 0
    else (if Loses(s, steps[0], j) then 1 else 0) + Losses(Apply(s, steps[0], bound), steps[1..], bound, j)
  }

  lemma HeardSpends(n: Node, now: nat, src: byte, name: u64)
    requires NodeOk(n)
    ensures Unseen(Heard(n, now, src, name).0.used, 0)
            + (if Contests(n, src, name) && name < n.name then 1 else 0) <= Unseen(n.used, 0)
  {
    UnseenShrinks(n.used, src, 0);
  }

  lemma StepSpends(s: Net, step: Step, bound: Option<nat>, j: nat)
    requires WellFormed(s) && Enabled(s, step, bound) && j < |s.nodes|
    ensures j < |Apply(s, step, bound).nodes|
    ensures Unseen(Apply(s, step, bound).nodes[j].used, 0) + (if Loses(s, step, j) then 1 else 0)
            <= Unseen(s.nodes[j].used, 0)
  {
    StepKeepsNames(s, step, bound);
    if step.Deliver? {
      var p := s.flight[step.k];
      HeardSpends(s.nodes[p.to], s.now, p.src, p.name);
    } else {
      assert Apply(s, step, bound).nodes[j].used == s.nodes[j].used;
    }
  }

  /** In any run at all, with starts and answers, a node loses an address at most once for
      each assignable address it had not yet seen in use: at most 254 times. */
  lemma {:induction false} LossesAreBounded(s: Net, steps: seq<Step>, bound: Option<nat>, j: nat)
    requires Inv(s, false) && Run(s, steps, bound) && j < |s.nodes|
    ensures Losses(s, steps, bound, j) <= Unseen(s.nodes[j].used, 0) <= 254
    decreases |steps|
  {
    UnseenBound(s.nodes[j].used, 0);
    if steps != [] {
      StepSpends(s, steps[0], bound, j);
      StepKeepsInv(s, steps[0], bound, false);
      LossesAreBounded(Apply(s, steps[0], bound), steps[1..], bound, j);
    }
  }
}
