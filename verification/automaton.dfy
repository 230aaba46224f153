/** The states an automaton reaches: `step` takes one event, or refuses it. */
module Automaton {
  import opened Options

  function Run<S, E>(step: (S, E) -> Option<S>, s: S, es: seq<E>): Option<S>
    decreases |es|
  {
    if es == [] then Some(s) else
    match Run(step, s, es[..|es| - 1])
    case None => None
    case Some(last) => step(last, es[|es| - 1])
  }

  lemma RunThen<S, E>(step: (S, E) -> Option<S>, s: S, es: seq<E>, e: E)
    ensures Run(step, s, es + [e]) == (if Run(step, s, es).Some? then step(Run(step, s, es).value, e) else None)
  {
    assert (es + [e])[..|es|] == es;
  }

  lemma {:induction false} RunJoins<S, E>(step: (S, E) -> Option<S>, s: S, a: seq<E>, b: seq<E>)
    ensures Run(step, s, a + b) == (if Run(step, s, a).Some? then Run(step, Run(step, s, a).value, b) else None)
    decreases |b|
  {
    if b == [] { assert a + b == a; }
    else {
      RunJoins(step, s, a, b[..|b| - 1]);
      assert (a + b)[..|a + b| - 1] == a + b[..|b| - 1];
    }
  }
}
