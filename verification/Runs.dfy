/** Runs of a state machine, whose steps are possible or not. */
module Runs {
  import opened Options

  /** The state after a sequence of events, if each is possible where it happens. */
  function Run<S, E>(start: S, step: (S, E) -> Option<S>, events: seq<E>): Option<S> {
    if events == [] then Some(start)
    else
      var before := Run(start, step, events[..|events| - 1]);
      if before.Some? then step(before.value, events[|events| - 1]) else None
  }

  lemma {:induction false} PrefixRuns<S, E>(start: S, step: (S, E) -> Option<S>, events: seq<E>, k: nat)
    requires k <= |events| && Run(start, step, events).Some?
    ensures Run(start, step, events[..k]).Some?
    ensures k < |events|
            ==> Run(start, step, events[..k + 1]) == step(Run(start, step, events[..k]).value, events[k]) != None
    decreases |events| - k
  {
    if k < |events| {
      assert events[..k + 1][..k] == events[..k];
      if k + 1 < |events| {
        PrefixRuns(start, step, events, k + 1);
      } else {
        assert events[..k + 1] == events;
      }
    } else {
      assert events[..k] == events;
    }
  }

  /** The state before event `k`. */
  function Before<S, E>(start: S, step: (S, E) -> Option<S>, events: seq<E>, k: nat): S
    requires k <= |events| && Run(start, step, events).Some?
  {
    PrefixRuns(start, step, events, k);
    Run(start, step, events[..k]).value
  }

  lemma NextState<S, E>(start: S, step: (S, E) -> Option<S>, events: seq<E>, k: nat, s: S, t: S)
    requires k < |events| && Run(start, step, events[..k]) == Some(s) && step(s, events[k]) == Some(t)
    ensures Run(start, step, events[..k + 1]) == Some(t)
  {
    assert events[..k + 1][..k] == events[..k];
  }
}
