/** The lock around the log: a compare-and-swap that is given up after a second. */
module LogLock {
  import opened Options
  import Runs

  // ---------------------------------------------------------------- the retry loop

  /** How a call of `pgprtdbg_log_lock` ends: with the lock, by timeout, or not yet. */
  datatype Outcome = Acquired | TimedOut | StillTrying

  /** What attempt `i` meets: whether the lock is free, and the time in seconds after its sleep. */
  datatype Attempt = Attempt(free: bool, time: int)

  /**
   `pgprtdbg_log_lock`. The caller gets the lock at the first attempt that finds it free, unless a clock
   reading a second or more after the start came before; in that case it returns without the lock.
   */
  method Lock(start: int, attempts: seq<Attempt>) returns (outcome: Outcome, used: nat)
    ensures used <= |attempts|
    ensures forall i :: 0 <= i < used - 1 ==> !attempts[i].free && attempts[i].time - start < 1
    ensures outcome.Acquired? ==> used > 0 && attempts[used - 1].free
    ensures outcome.TimedOut? ==> used > 0 && !attempts[used - 1].free && attempts[used - 1].time - start >= 1
    ensures outcome.StillTrying?
            <==> forall i :: 0 <= i < |attempts| ==> !attempts[i].free && attempts[i].time - start < 1
  {
    used := 0;
    while used < |attempts|
      invariant used <= |attempts|
      invariant forall i :: 0 <= i < used ==> !attempts[i].free && attempts[i].time - start < 1
    {
      var a := attempts[used];
      used := used + 1;
      if a.free {
        return Acquired, used;
      }
      if a.time - start >= 1 {
        return TimedOut, used;
      }
    }
    outcome := StillTrying;
  }

  // ---------------------------------------------------------------- any number of processes

  /** `inUse` is the lock word; `inside` are the processes between the return of lock and unlock; `refused`
      are those whose last attempt found the word in use and that have not returned from lock. */
  datatype State = State(inUse: bool, inside: set<int>, refused: set<int>)

  const START := State(false, {}, {})

  /** An attempt finds the word free and takes it; an attempt finds it in use; a refused process looks at the
      clock after its sleep and returns without the lock; a process unlocks; a process ends inside. */
  datatype Event = Acquire(p: int) | Refused(p: int) | TimeOut(p: int) | Unlock(p: int) | Quit(p: int)

  /** The attempt, the sleep and the look at the clock are separate steps: what a timeout finds of the word
      is not what the last attempt found. */
  predicate Enabled(s: State, e: Event) {
    match e
    case Acquire(p) => p !in s.inside && !s.inUse
    case Refused(p) => p !in s.inside && s.inUse
    case TimeOut(p) => p in s.refused
    case Unlock(p) => p in s.inside
    case Quit(p) => p in s.inside
  }

  function Apply(s: State, e: Event): State {
    match e
    case Acquire(p) => State(true, s.inside + {p}, s.refused - {p})
    case Refused(p) => s.(refused := s.refused + {p})
    case TimeOut(p) => State(s.inUse, s.inside + {p}, s.refused - {p})
    case Unlock(p) => State(false, s.inside - {p}, s.refused)
    case Quit(p) => s.(inside := s.inside - {p})
  }

  function Step(s: State, e: Event): Option<State> {
    if Enabled(s, e) then Some(Apply(s, e)) else None
  }

  /** The state after a sequence of events, if each is possible where it happens. */
  function Run(events: seq<Event>): Option<State> {
    Runs.Run(START, Step, events)
  }

  /** The state before event `k`. */
  function Before(events: seq<Event>, k: nat): State
    requires k <= |events| && Run(events).Some?
  {
    Runs.Before(START, Step, events, k)
  }

  /** At most one process is inside, at every point of the run. */
  predicate Exclusive(events: seq<Event>)
    requires Run(events).Some?
  {
    forall k :: 0 <= k <= |events| ==> |Before(events, k).inside| <= 1
  }

  /** No process gives up waiting while another one is inside. */
  predicate Patient(events: seq<Event>)
    requires Run(events).Some?
  {
    forall k :: 0 <= k < |events| && events[k].TimeOut? ==> Before(events, k).inside == {}
  }

  /** At `j` a process returns by timeout although the word is free, and up to `k` it neither unlocks nor ends. */
  predicate InsideUnlocked(events: seq<Event>, j: int, k: int)
    requires Run(events).Some?
  {
    && 0 <= j < k <= |events| && events[j].TimeOut? && !Before(events, j).inUse
    && forall i :: j < i < k ==> events[i] != Unlock(events[j].p) && events[i] != Quit(events[j].p)
  }

  /** Nobody acquires the word between a timeout that returned on a free word and that process's unlock or end. */
  ghost predicate NoneOvertakes(events: seq<Event>)
    requires Run(events).Some?
  {
    forall j, k :: InsideUnlocked(events, j, k) && k < |events| ==> !events[k].Acquire?
  }

  // ---------------------------------------------------------------- when processes exclude each other

  lemma Shrinks(s: set<int>, p: int)
    requires p in s && |s| <= 1
    ensures s - {p} == {}
  {
    assert s == (s - {p}) + {p};
  }

  lemma Joins(s: set<int>, p: int)
    requires p !in s && |s + {p}| <= 1
    ensures s == {}
  {
    assert |s + {p}| == |s| + 1;
  }

  /** While the word is free, a process that is inside came in by a timeout on a free word. */
  ghost predicate FreeIsExplained(events: seq<Event>, k: nat)
    requires Run(events).Some? && k <= |events|
  {
    var s := Before(events, k);
    s.inside != {} && !s.inUse ==> exists j :: InsideUnlocked(events, j, k) && events[j].p in s.inside
  }

  /** Both conditions keep a second process out. */
  lemma {:induction false} ConditionsExclude(events: seq<Event>, k: nat)
    requires Run(events).Some? && Patient(events) && NoneOvertakes(events) && k <= |events|
    ensures |Before(events, k).inside| <= 1 && FreeIsExplained(events, k)
  {
    hide Runs.Run, FreeIsExplained, InsideUnlocked, NoneOvertakes;
    if k == 0 {
      StartIsExplained(events);
    } else {
      ConditionsExclude(events, k - 1);
      Runs.PrefixRuns(START, Step, events, k - 1);
      var s, e := Before(events, k - 1), events[k - 1];
      if e.Unlock? || e.Quit? {
        Shrinks(s.inside, e.p);
      } else if e.TimeOut? {
        assert s.inside + {e.p} == {e.p};
      } else if e.Acquire? {
        AcquiresAlone(events, k - 1);
        assert s.inside + {e.p} == {e.p};
      }
      StepIsExplained(events, k);
    }
  }

  lemma StartIsExplained(events: seq<Event>)
    requires Run(events).Some?
    ensures Before(events, 0) == START && FreeIsExplained(events, 0)
  {
    assert events[..0] == [];
  }

  /** Nobody overtakes, so the word is only acquired while nobody is inside. */
  lemma AcquiresAlone(events: seq<Event>, k: nat)
    requires Run(events).Some? && k < |events| && events[k].Acquire?
    requires NoneOvertakes(events) && FreeIsExplained(events, k) && !Before(events, k).inUse
    ensures Before(events, k).inside == {}
  {
  }

  lemma StepIsExplained(events: seq<Event>, k: nat)
    requires Run(events).Some? && 0 < k <= |events| && FreeIsExplained(events, k - 1)
    requires |Before(events, k - 1).inside| <= 1 && |Before(events, k).inside| <= 1
    ensures FreeIsExplained(events, k)
  {
    hide Runs.Run;
    Runs.PrefixRuns(START, Step, events, k - 1);
    var s, e := Before(events, k - 1), events[k - 1];
    if e.Unlock? || e.Quit? {
      Shrinks(s.inside, e.p);
    } else if e.TimeOut? {
      assert !s.inUse ==> InsideUnlocked(events, k - 1, k);
    }
  }

  /** A process that came in stays inside until it unlocks or ends. */
  lemma {:induction false} StaysInside(events: seq<Event>, j: nat, k: nat)
    requires Run(events).Some? && InsideUnlocked(events, j, k)
    ensures events[j].p in Before(events, k).inside
  {
    Runs.PrefixRuns(START, Step, events, k - 1);
    if j + 1 < k {
      assert InsideUnlocked(events, j, k - 1);
      StaysInside(events, j, k - 1);
    }
  }

  /**
   The processes exclude each other throughout a run exactly when none of them gives up waiting while another
   is inside, and none acquires the word between a timeout that returned on a free word and that process's
   unlock or end.
   */
  lemma ExclusionIsPatience(events: seq<Event>)
    requires Run(events).Some?
    ensures Exclusive(events) <==> Patient(events) && NoneOvertakes(events)
  {
    if Patient(events) && NoneOvertakes(events) {
      forall k | 0 <= k <= |events|
        ensures |Before(events, k).inside| <= 1
      {
        ConditionsExclude(events, k);
      }
    }
    if Exclusive(events) {
      forall k | 0 <= k < |events| && events[k].TimeOut?
        ensures Before(events, k).inside == {}
      {
        RefusedAreOutside(events, k);
        Runs.PrefixRuns(START, Step, events, k);
        assert |Before(events, k + 1).inside| <= 1;
        Joins(Before(events, k).inside, events[k].p);
      }
      forall j, k | InsideUnlocked(events, j, k) && k < |events|
        ensures !events[k].Acquire?
      {
        StaysInside(events, j, k);
        Runs.PrefixRuns(START, Step, events, k);
        if events[k].Acquire? {
          assert |Before(events, k + 1).inside| <= 1;
          Joins(Before(events, k).inside, events[k].p);
        }
      }
    }
  }

  lemma {:induction false} RefusedAreOutside(events: seq<Event>, k: nat)
    requires Run(events).Some? && k <= |events|
    ensures Before(events, k).inside !! Before(events, k).refused
  {
    if k > 0 {
      RefusedAreOutside(events, k - 1);
      Runs.PrefixRuns(START, Step, events, k - 1);
    }
  }

  /** Patience alone is not enough. The second process is refused and sleeps, the holder unlocks, the second
      one returns by timeout with nobody inside and the word free, and a third one acquires it. */
  lemma PatienceIsNotEnough()
    ensures var events := [Acquire(1), Refused(2), Unlock(1), TimeOut(2), Acquire(3)];
            Run(events) == Some(State(true, {2, 3}, {})) && Patient(events)
  {
    var events := [Acquire(1), Refused(2), Unlock(1), TimeOut(2), Acquire(3)];
    var s1, s2 := State(true, {1}, {}), State(true, {1}, {2});
    var s3, s4 := State(false, {}, {2}), State(false, {2}, {});
    assert events[..0] == [];
    assert Apply(START, events[0]) == s1 && Apply(s1, events[1]) == s2;
    assert Apply(s4, events[4]) == State(true, {2, 3}, {});
    Runs.NextState(START, Step, events, 0, START, s1);
    Runs.NextState(START, Step, events, 1, s1, s2);
    Runs.NextState(START, Step, events, 2, s2, s3);
    Runs.NextState(START, Step, events, 3, s3, s4);
    Runs.NextState(START, Step, events, 4, s4, State(true, {2, 3}, {}));
    assert events[..5] == events && Before(events, 3) == s3;
  }

  // ---------------------------------------------------------------- the lock word

  /** Without timeouts, and without a process that ends inside, the lock word is in use exactly while one
      process is inside. */
  lemma {:induction false} LockWordIsExact(events: seq<Event>)
    requires Run(events).Some? && forall e :: e in events ==> !e.TimeOut? && !e.Quit?
    ensures var s := Run(events).value; |s.inside| <= 1 && (s.inUse <==> |s.inside| == 1)
  {
    if events != [] {
      var before := events[..|events| - 1];
      LockWordIsExact(before);
      var e := events[|events| - 1];
      assert e in events;
      if e.Unlock? {
        Shrinks(Run(before).value.inside, e.p);
      }
    }
  }

  /** Once the word is in use, only an unlock frees it: until one, nobody acquires. A worker that ends inside,
      as `fe_zero` does on an unknown request, never unlocks, so all others have to wait for their timeout. */
  lemma {:induction false} OnlyUnlockFrees(events: seq<Event>, k: nat)
    requires Run(events).Some? && k <= |events|
    requires Run(events[..k]).Some? && Run(events[..k]).value.inUse
    requires forall i :: k <= i < |events| ==> !events[i].Unlock?
    ensures Run(events).value.inUse
    ensures forall i :: k <= i < |events| ==> !events[i].Acquire?
  {
    if k < |events| {
      var before := events[..|events| - 1];
      assert before[..k] == events[..k];
      OnlyUnlockFrees(before, k);
      assert forall i :: k <= i < |before| ==> before[i] == events[i];
    } else {
      assert events[..k] == events;
    }
  }

  /** A holder that ends inside leaves the word in use with nobody inside. */
  lemma QuitAbandonsTheWord(p: int)
    ensures Run([Acquire(p), Quit(p)]) == Some(State(true, {}, {}))
  {
    var events := [Acquire(p), Quit(p)];
    assert events[..0] == [] && events[..2] == events;
    assert Apply(START, events[0]) == State(true, {p}, {});
    Runs.NextState(START, Step, events, 0, START, State(true, {p}, {}));
    Runs.NextState(START, Step, events, 1, State(true, {p}, {}), State(true, {}, {}));
  }
}
