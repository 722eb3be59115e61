/** Feeding a sequence of inputs to a machine, one at a time. */
module Runs {

  function State<S, I, O>(step: (S, I) -> (S, O), s: S, xs: seq<I>): S
    decreases |xs|
  {
    if xs == [] then s else State(step, step(s, xs[0]).0, xs[1..])
  }

  function Outputs<S, I, O>(step: (S, I) -> (S, O), s: S, xs: seq<I>): (out: seq<O>)
    ensures |out| == |xs|
    decreases |xs|
  {
    if xs == [] then [] else [step(s, xs[0]).1] + Outputs(step, step(s, xs[0]).0, xs[1..])
  }

  lemma {:induction false} Concat<S, I, O>(step: (S, I) -> (S, O), s: S, first: seq<I>, second: seq<I>)
    ensures State(step, s, first + second) == State(step, State(step, s, first), second)
    ensures Outputs(step, s, first + second) == Outputs(step, s, first) + Outputs(step, State(step, s, first), second)
    decreases |first|
  {
    if first == [] {
      assert first + second == second;
    } else {
      Concat(step, step(s, first[0]).0, first[1..], second);
      assert (first + second)[1..] == first[1..] + second;
    }
  }

  lemma One<S, I, O>(step: (S, I) -> (S, O), s: S, x: I)
    ensures State(step, s, [x]) == step(s, x).0
    ensures Outputs(step, s, [x]) == [step(s, x).1]
  {
    assert [x][1..] == [];
  }

  lemma Snoc<S, I, O>(step: (S, I) -> (S, O), s: S, xs: seq<I>, x: I)
    ensures State(step, s, xs + [x]) == step(State(step, s, xs), x).0
    ensures Outputs(step, s, xs + [x]) == Outputs(step, s, xs) + [step(State(step, s, xs), x).1]
  {
    Concat(step, s, xs, [x]);
    One(step, State(step, s, xs), x);
  }
}
