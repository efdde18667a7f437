/** Runs of events through a step function, shared by the two editor panes' debounce
    machines. */
module Traces {
  /** The state reached by applying the events one after the other, first to last. */
  function Run<S, E>(step: (S, E) -> S, s: S, events: seq<E>): S
    decreases |events|
  {
    if events == [] then s else Run(step, step(s, events[0]), events[1..])
  }

  /** Running two runs of events one after the other is running their concatenation. */
  lemma {:induction false} RunAppend<S, E>(step: (S, E) -> S, s: S, a: seq<E>, b: seq<E>)
    ensures Run(step, s, a + b) == Run(step, Run(step, s, a), b)
    decreases |a|
  {
    if a != [] {
      assert (a + b)[1..] == a[1..] + b;
      RunAppend(step, step(s, a[0]), a[1..], b);
    } else {
      assert a + b == b;
    }
  }
}
