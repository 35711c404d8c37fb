/**
 The bookkeeping that the acceptor and its workers share: the pid table, the number of active
 connections and the traffic counters, in any interleaving of any number of workers.
 */
module Connections {
  import opened Constants
  import opened Framing
  import opened Options
  import Runs
  import opened Counters

  const MAX_COUNTERS := 1000
  const USHORT_RANGE := 0x1_0000

  // ---------------------------------------------------------------- the pid table

  /** The first place from `i` on that holds `v`, or the length of the table. */
  function FirstIndex(pids: seq<int>, v: int, i: nat): (r: nat)
    requires i <= |pids|
    ensures i <= r <= |pids|
    ensures r < |pids| ==> pids[r] == v
    ensures forall k :: i <= k < r ==> pids[k] != v
    decreases |pids| - i
  {
    if i == |pids| || pids[i] == v then i else FirstIndex(pids, v, i + 1)
  }

  /** The table after its first `old` has become `new'`; it stays as it is when there is none. */
  function Replace(pids: seq<int>, was: int, now: int): seq<int> {
    Put(pids, FirstIndex(pids, was, 0), now)
  }

  function Put(pids: seq<int>, i: nat, v: int): seq<int> {
    if i < |pids| then pids[i := v] else pids
  }

  // ---------------------------------------------------------------- workers

  /** How far a worker is: looking for a free place from `next` on; having found one; registered, or without
      a place; connected and counted; out of its event loop and looking for its place from `next` on; having
      found it; out of the table. */
  datatype Stage =
    | Looking(next: nat)
    | Found(place: nat)
    | Claimed
    | Serving
    | Seeking(connected: bool, next: nat)
    | Clearing(connected: bool, place: nat)
    | Released(connected: bool)

  /** `client` numbers the accepted clients; `slot` is the place of the table the worker has stored its pid in
      and not cleared, if any. */
  datatype Worker = Worker(client: nat, stage: Stage, slot: Option<nat>) {
    /** Between the increment and the decrement of the number of connections. */
    predicate Counted() {
      match stage
      case Serving => true
      case Seeking(c, _) => c
      case Clearing(c, _) => c
      case Released(c) => c
      case _ => false
    }
  }

  /** The index of the counters of the `client`th accepted client: those past the limit share the last. */
  function CounterIndex(client: nat): nat {
    if client < MAX_COUNTERS then client else MAX_COUNTERS
  }

  /** A read handled by the worker of a client. */
  datatype Reading = Reading(client: nat, side: Side, bytes: nat)

  /** The shared memory, the live workers by pid, and what has happened: how many clients were accepted,
      which reads were handled, and how many workers left by `exit(1)`
      or crashed. */
  datatype System = System(active: nat, pids: seq<int>, clientNumber: nat, counters: seq<Tally>,
                           workers: map<int, Worker>,
                           accepted: nat, readings: seq<Reading>, aborted: nat)

  function Init(): System {
    System(0, seq(MAX_CONNECTIONS, _ => 0), 0, seq(MAX_COUNTERS + 1, _ => ZERO), map[], 0, [], 0)
  }

  /** `Look` and `Store` are the accesses of the loop that claims a place, `Seek` and `Clear` those of the loop
      that gives it up. */
  datatype Event =
    | Accept(pid: int)
    | Look(pid: int)
    | Store(pid: int)
    | Connect(pid: int)
    | ConnectFails(pid: int)
    | Read(pid: int, side: Side, bytes: nat)
    | Finish(pid: int)
    | Seek(pid: int)
    | Clear(pid: int)
    | Leave(pid: int)
    | Abort(pid: int)

  /** The acceptor takes another client. */
  predicate MayAccept(active: nat) {
    active <= MAX_CONNECTIONS
  }

  /** The kernel gives a new worker a positive pid that no live worker has. `Abort` is an end without the clean-up
      of `pgprtdbg_worker`: `exit(1)` in `fe_zero`, or a crash. */
  predicate Enabled(s: System, e: Event) {
    match e
    case Accept(p) => MayAccept(s.active) && p > 0 && p !in s.workers
    case Look(p) => p in s.workers && s.workers[p].stage.Looking?
    case Store(p) => p in s.workers && s.workers[p].stage.Found?
    case Connect(p) => p in s.workers && s.workers[p].stage.Claimed?
    case ConnectFails(p) => p in s.workers && s.workers[p].stage.Claimed?
    case Read(p, _, _) => p in s.workers && s.workers[p].stage.Serving?
    case Finish(p) => p in s.workers && s.workers[p].stage.Serving?
    case Seek(p) => p in s.workers && s.workers[p].stage.Seeking?
    case Clear(p) => p in s.workers && s.workers[p].stage.Clearing?
    case Leave(p) => p in s.workers && s.workers[p].stage.Released?
    case Abort(p) => p in s.workers && s.workers[p].stage.Serving?
  }

  /** What a look at a place of the table leads to. */
  function Looked(pids: seq<int>, next: nat): Stage {
    if next >= |pids| then Claimed else if pids[next] == 0 then Found(next) else Looking(next + 1)
  }

  function Sought(pids: seq<int>, p: int, connected: bool, next: nat): Stage {
    if next >= |pids| then Released(connected)
    else if pids[next] == p then Clearing(connected, next)
    else Seeking(connected, next + 1)
  }

  /** Each access to the shared table is a step. */
  function Apply(s: System, e: Event): (t: System)
    requires Enabled(s, e)
  {
    match e
    case Accept(p) =>
      s.(workers := s.workers[p := Worker(s.accepted, Looking(0), None)],
         accepted := s.accepted + 1,
         clientNumber := if s.clientNumber < MAX_COUNTERS then s.clientNumber + 1 else s.clientNumber)
    case Look(p) =>
      s.(workers := s.workers[p := s.workers[p].(stage := Looked(s.pids, s.workers[p].stage.next))])
    case Store(p) =>
      var i := s.workers[p].stage.place;
      s.(workers := s.workers[p := s.workers[p].(stage := Claimed, slot := Some(i))], pids := Put(s.pids, i, p))
    case Connect(p) =>
      s.(workers := s.workers[p := s.workers[p].(stage := Serving)], active := (s.active + 1) % USHORT_RANGE)
    case ConnectFails(p) =>
      s.(workers := s.workers[p := s.workers[p].(stage := Seeking(false, 0))])
    case Read(p, side, n) =>
      var c := s.workers[p].client;
      s.(counters := Count(s.counters, CounterIndex(c), side, n), readings := s.readings + [Reading(c, side, n)])
    case Finish(p) =>
      s.(workers := s.workers[p := s.workers[p].(stage := Seeking(true, 0))])
    case Seek(p) =>
      var stage := s.workers[p].stage;
      s.(workers := s.workers[p := s.workers[p].(stage := Sought(s.pids, p, stage.connected, stage.next))])
    case Clear(p) =>
      var stage := s.workers[p].stage;
      s.(workers := s.workers[p := s.workers[p].(stage := Released(stage.connected), slot := None)],
         pids := Put(s.pids, stage.place, 0))
    case Leave(p) =>
      s.(workers := s.workers - {p},
         active := if s.workers[p].stage.connected then (s.active - 1) % USHORT_RANGE else s.active)
    case Abort(p) =>
      s.(workers := s.workers - {p}, aborted := s.aborted + 1)
  }

  function Count(counters: seq<Tally>, i: nat, side: Side, n: nat): seq<Tally> {
    if i < |counters| then
      counters[i := if side.Client? then counters[i].Sent(n) else counters[i].Received(n)]
    else counters
  }

  function Step(s: System, e: Event): Option<System> {
    if Enabled(s, e) then Some(Apply(s, e)) else None
  }

  /** The state after a sequence of events, if each is possible where it happens. */
  function Run(events: seq<Event>): Option<System> {
    Runs.Run(Init(), Step, events)
  }

  // ---------------------------------------------------------------- the number of connections

  function CountedPids(workers: map<int, Worker>): set<int> {
    set p | p in workers && workers[p].Counted()
  }

  /** The counter is the number of workers between their increment and their decrement, plus those that
      left in between by `exit(1)` or crashed, in 16 bits. */
  predicate ActiveInv(s: System) {
    s.active == (|CountedPids(s.workers)| + s.aborted) % USHORT_RANGE
  }

  lemma CountedAfterPut(workers: map<int, Worker>, p: int, w: Worker)
    ensures var c, d := CountedPids(workers), CountedPids(workers[p := w]);
            |d| == |c| + (if w.Counted() then 1 else 0) - (if p in c then 1 else 0)
  {
    var c, d := CountedPids(workers), CountedPids(workers[p := w]);
    var others := c - {p};
    assert d == if w.Counted() then others + {p} else others;
    assert p in c ==> c == others + {p};
    assert p !in c ==> c == others;
  }

  lemma CountedAfterDrop(workers: map<int, Worker>, p: int)
    ensures var c, d := CountedPids(workers), CountedPids(workers - {p});
            |d| == |c| - (if p in c then 1 else 0)
  {
    var c, d := CountedPids(workers), CountedPids(workers - {p});
    assert d == c - {p};
    assert p in c ==> c == d + {p};
  }

  lemma ActiveStep(s: System, e: Event)
    requires Enabled(s, e) && ActiveInv(s)
    ensures ActiveInv(Apply(s, e))
  {
    hide CountedPids;
    assert forall p :: p in CountedPids(s.workers) <==> p in s.workers && s.workers[p].Counted() by {
      CountedMeaning(s.workers);
    }
    var t := Apply(s, e);
    if e.Leave? || e.Abort? {
      CountedAfterDrop(s.workers, e.pid);
    } else if !e.Read? {
      CountedAfterPut(s.workers, e.pid, t.workers[e.pid]);
      assert t.workers == s.workers[e.pid := t.workers[e.pid]];
    }
  }

  lemma CountedMeaning(workers: map<int, Worker>)
    ensures forall p :: p in CountedPids(workers) <==> p in workers && workers[p].Counted()
  {
  }

  // ---------------------------------------------------------------- the pid table and the workers

  /** A place that is not free belongs to a live worker that stored itself there, and a worker that stored
      itself in a place is still there. */
  predicate Live(s: System) {
    && (forall i :: 0 <= i < |s.pids| && s.pids[i] != 0
          ==> s.pids[i] in s.workers && s.workers[s.pids[i]].slot == Some(i))
    && (forall p :: p in s.workers && s.workers[p].slot.Some?
          ==> s.workers[p].slot.value < |s.pids| && s.pids[s.workers[p].slot.value] == p)
  }

  /** How far a worker is fits the place it has. */
  predicate StageFits(w: Worker, size: nat) {
    match w.stage
    case Looking(_) => w.slot.None?
    case Found(i) => w.slot.None? && i < size
    case Seeking(_, next) => w.slot.Some? ==> next <= w.slot.value
    case Clearing(_, i) => w.slot == Some(i) && i < size
    case Released(_) => w.slot.None?
    case _ => true
  }

  predicate TableInv(s: System) {
    && |s.pids| == MAX_CONNECTIONS && Live(s)
    && (forall p :: p in s.workers ==> p > 0)
    && (forall p :: p in s.workers ==> StageFits(s.workers[p], |s.pids|))
  }

  /** The steps that do no harm to the table: not a store into a place that has been taken since it was found
      free, and not an exit of a worker that has a place. */
  predicate Harmless(s: System, e: Event) {
    match e
    case Store(p) =>
      p in s.workers && s.workers[p].stage.Found? && s.workers[p].stage.place < |s.pids|
      ==> s.pids[s.workers[p].stage.place] == 0
    case Abort(p) => p in s.workers ==> s.workers[p].slot.None?
    case _ => true
  }

  lemma HarmlessStep(s: System, e: Event)
    requires Enabled(s, e) && TableInv(s) && Harmless(s, e)
    ensures TableInv(Apply(s, e))
  {
    hide Live;
    HarmlessKeepsLive(s, e);
  }

  lemma HarmlessKeepsLive(s: System, e: Event)
    requires Enabled(s, e) && TableInv(s) && Harmless(s, e)
    ensures Live(Apply(s, e))
  {
    assert forall p :: p in s.workers ==> StageFits(s.workers[p], |s.pids|);
  }

  /** One step of a harmful kind and shutdown goes wrong: a worker with a place gets no signal, or a process
      that is gone gets one. */
  lemma HarmfulStep(s: System, e: Event)
    requires Enabled(s, e) && TableInv(s) && !Harmless(s, e)
    ensures !Live(Apply(s, e)) && !ShutdownIsRight(Apply(s, e))
  {
    hide Signalled;
    var t := Apply(s, e);
    SignalledIsUsedAll(t.pids);
    match e
    case Store(p) =>
      var i := s.workers[p].stage.place;
      var q := s.pids[i];
      assert s.workers[q].slot == Some(i) && q != p;
      assert q in t.workers && t.workers[q].slot == Some(i) && t.pids[i] == p;
      assert q !in t.pids;
    case Abort(p) =>
      var i := s.workers[p].slot.value;
      assert t.pids[i] == p && p in t.pids;
  }

  // ---------------------------------------------------------------- the counters

  /** The bytes that the worker of `client` has read in one direction, and how many reads that took. */
  function Bytes(readings: seq<Reading>, client: nat, side: Side): nat {
    if readings == [] then 0
    else
      var r := readings[|readings| - 1];
      Bytes(readings[..|readings| - 1], client, side) + if r.client == client && r.side == side then r.bytes else 0
  }

  function Reads(readings: seq<Reading>, client: nat, side: Side): nat {
    if readings == [] then 0
    else
      var r := readings[|readings| - 1];
      Reads(readings[..|readings| - 1], client, side) + if r.client == client && r.side == side then 1 else 0
  }

  function Sums(readings: seq<Reading>, client: nat): Tally {
    Tally(Reads(readings, client, Client) % 0x1_0000_0000, Bytes(readings, client, Client) % 0x1_0000_0000_0000_0000,
          Reads(readings, client, Server) % 0x1_0000_0000, Bytes(readings, client, Server) % 0x1_0000_0000_0000_0000)
  }

  predicate CounterInv(s: System) {
    && |s.counters| == MAX_COUNTERS + 1
    && s.clientNumber == CounterIndex(s.accepted)
    && (forall p :: p in s.workers ==> s.workers[p].client < s.accepted)
    && (forall k :: 0 <= k < MAX_COUNTERS ==> s.counters[k] == Sums(s.readings, k))
  }

  lemma SumsStep(readings: seq<Reading>, r: Reading, client: nat)
    ensures var before, after := Sums(readings, client), Sums(readings + [r], client);
            if r.client != client then after == before
            else if r.side.Client? then after == before.Sent(r.bytes)
            else after == before.Received(r.bytes)
  {
    assert (readings + [r])[..|readings|] == readings;
    AddModulo(Reads(readings, client, r.side), 1, UINT32_RANGE);
    AddModulo(Bytes(readings, client, r.side), r.bytes, UINT64_RANGE);
  }

  lemma CounterStep(s: System, e: Event)
    requires Enabled(s, e) && CounterInv(s)
    ensures CounterInv(Apply(s, e))
  {
    hide Sums;
    if e.Read? {
      var reading := Reading(s.workers[e.pid].client, e.side, e.bytes);
      forall k | 0 <= k < MAX_COUNTERS
        ensures Apply(s, e).counters[k] == Sums(s.readings + [reading], k)
      {
        SumsStep(s.readings, reading, k);
      }
    }
  }

  // ---------------------------------------------------------------- every run

  lemma {:induction false} EveryRun(events: seq<Event>)
    requires Run(events).Some?
    ensures var s := Run(events).value; ActiveInv(s) && CounterInv(s)
  {
    hide ActiveInv, CounterInv, Apply, Enabled;
    if events == [] {
      InitHolds();
    } else {
      var before, e := events[..|events| - 1], events[|events| - 1];
      EveryRun(before);
      ActiveStep(Run(before).value, e);
      CounterStep(Run(before).value, e);
    }
  }

  lemma InitHolds()
    ensures ActiveInv(Init()) && CounterInv(Init())
  {
    assert CountedPids(map[]) == {};
  }

  /** With fewer than 65536 workers, `active_connections` is the number of workers between their increment
      and their decrement exactly when the number of workers that left through `exit(1)` or crashed is a multiple
      of 65536; so it is in every run without such an exit. */
  lemma ActiveConnectionsCount(events: seq<Event>)
    requires Run(events).Some? && |CountedPids(Run(events).value.workers)| < 65536
    ensures var s := Run(events).value;
            s.active == |CountedPids(s.workers)| <==> s.aborted % 65536 == 0
  {
    hide CountedPids, CounterInv, Runs.Run;
    EveryRun(events);
  }

  // ---------------------------------------------------------------- when the pid table is right

  /** The state before event `k`. */
  function Before(events: seq<Event>, k: nat): System
    requires k <= |events| && Run(events).Some?
  {
    Runs.Before(Init(), Step, events, k)
  }

  /** No store hits a place that was taken after it had been found free, and no worker with a place leaves
      through `exit(1)` or crashes. */
  predicate Undisturbed(events: seq<Event>)
    requires Run(events).Some?
  {
    forall k :: 0 <= k < |events| ==> Harmless(Before(events, k), events[k])
  }

  lemma {:induction false} UndisturbedKeepsTable(events: seq<Event>, k: nat)
    requires Run(events).Some? && k <= |events|
    requires forall i :: 0 <= i < k ==> Harmless(Before(events, i), events[i])
    ensures TableInv(Before(events, k))
  {
    hide TableInv, Apply, Enabled, Harmless;
    if k == 0 {
      EmptyTable();
    } else {
      UndisturbedKeepsTable(events, k - 1);
      Runs.PrefixRuns(Init(), Step, events, k - 1);
      HarmlessStep(Before(events, k - 1), events[k - 1]);
    }
  }

  lemma EmptyTable()
    ensures TableInv(Init())
  {
  }

  /** The first disturbance of a run shows in the state behind it. */
  lemma DisturbanceShows(events: seq<Event>)
    requires Run(events).Some? && !Undisturbed(events)
    ensures exists k :: 0 <= k <= |events| && !Live(Before(events, k)) && !ShutdownIsRight(Before(events, k))
  {
    hide TableInv, Live, ShutdownIsRight, Apply, Enabled, Harmless;
    var k :| 0 <= k < |events| && !Harmless(Before(events, k), events[k]);
    var first := FirstDisturbance(events, k);
    UndisturbedKeepsTable(events, first);
    Runs.PrefixRuns(Init(), Step, events, first);
    HarmfulStep(Before(events, first), events[first]);
    assert Before(events, first + 1) == Apply(Before(events, first), events[first]);
  }

  lemma {:induction false} FirstDisturbance(events: seq<Event>, k: nat) returns (first: nat)
    requires Run(events).Some? && k < |events| && !Harmless(Before(events, k), events[k])
    ensures first < |events| && !Harmless(Before(events, first), events[first])
    ensures forall i :: 0 <= i < first ==> Harmless(Before(events, i), events[i])
  {
    hide Harmless;
    if i: nat :| i < k && !Harmless(Before(events, i), events[i]) {
      first := FirstDisturbance(events, i);
    } else {
      first := k;
    }
  }

  /**
   When the pid table is right. In every run, each used place belongs at all times to a live worker that
   stored itself there, and each worker that did is still there, exactly when no store hits a place that was
   taken after it had been found free and no worker with a place leaves through `exit(1)`
   or crashes.
   */
  lemma PidTableIsLive(events: seq<Event>)
    requires Run(events).Some?
    ensures (forall k :: 0 <= k <= |events| ==> Live(Before(events, k))) <==> Undisturbed(events)
  {
    hide Live, Apply, Enabled, Harmless;
    if Undisturbed(events) {
      forall k | 0 <= k <= |events|
        ensures Live(Before(events, k))
      {
        UndisturbedKeepsTable(events, k);
      }
    } else {
      DisturbanceShows(events);
    }
  }

  /** In a live table no pid is there twice. */
  lemma LiveTableIsDistinct(s: System)
    requires Live(s)
    ensures forall i, j :: 0 <= i < j < |s.pids| && s.pids[i] != 0 ==> s.pids[i] != s.pids[j]
  {
  }

  lemma FirstState(events: seq<Event>)
    ensures Run(events[..0]) == Some(Init())
  {
  }

  /** A worker that has claimed the first place and serves its client. */
  function ServingState(p: int): System {
    Init().(active := 1, pids := Init().pids[0 := p], clientNumber := 1, accepted := 1,
            workers := map[p := Worker(0, Serving, Some(0))])
  }

  lemma ServingRun(events: seq<Event>, p: int)
    requires p > 0 && |events| >= 4 && events[..4] == [Accept(p), Look(p), Store(p), Connect(p)]
    ensures Run(events[..4]) == Some(ServingState(p))
  {
    hide Runs.Run;
    var s1 := Init().(clientNumber := 1, accepted := 1, workers := map[p := Worker(0, Looking(0), None)]);
    var s2 := s1.(workers := map[p := Worker(0, Found(0), None)]);
    var s3 := s1.(workers := map[p := Worker(0, Claimed, Some(0))], pids := Init().pids[0 := p]);
    assert map[][p := Worker(0, Looking(0), None)] == s1.workers;
    assert forall i :: 0 <= i < 4 ==> events[i] == events[..4][i];
    FirstState(events);
    assert Apply(s1, Look(p)) == s2 && Apply(s2, Store(p)) == s3 && Apply(s3, Connect(p)) == ServingState(p);
    Runs.NextState(Init(), Step, events, 0, Init(), s1);
    Runs.NextState(Init(), Step, events, 1, s1, s2);
    Runs.NextState(Init(), Step, events, 2, s2, s3);
    Runs.NextState(Init(), Step, events, 3, s3, ServingState(p));
  }

  /** A worker that leaves through `exit(1)` or crashes stays in the table and in the count for good. */
  lemma AbortLeavesTraces(p: int)
    requires p > 0
    ensures var run := Run([Accept(p), Look(p), Store(p), Connect(p), Abort(p)]);
            run.Some? && run.value.workers == map[] && run.value.active == 1
            && |run.value.pids| > 0 && run.value.pids[0] == p
  {
    hide Runs.Run;
    var events := [Accept(p), Look(p), Store(p), Connect(p), Abort(p)];
    var s := ServingState(p);
    ServingRun(events, p);
    Runs.NextState(Init(), Step, events, 4, s, Apply(s, Abort(p)));
    assert events[..5] == events && s.workers - {p} == map[];
  }

  /** Two workers that look before either stores: the first to store serves without a place in the table. */
  lemma OverlappingClaimsLoseAWorker(p: int, q: int)
    requires p > 0 && q > 0 && p != q
    ensures var run := Run([Accept(p), Accept(q), Look(p), Look(q), Store(p), Store(q)]);
            run.Some? && p in run.value.workers && run.value.workers[p].slot == Some(0)
            && p !in run.value.pids && q in run.value.pids
  {
    hide Runs.Run;
    var events := [Accept(p), Accept(q), Look(p), Look(q), Store(p), Store(q)];
    var s1 := Init().(clientNumber := 1, accepted := 1, workers := map[p := Worker(0, Looking(0), None)]);
    var s2 := s1.(clientNumber := 2, accepted := 2, workers := s1.workers[q := Worker(1, Looking(0), None)]);
    var s3 := s2.(workers := s2.workers[p := Worker(0, Found(0), None)]);
    var s4 := s3.(workers := s3.workers[q := Worker(1, Found(0), None)]);
    var s5 := s4.(workers := s4.workers[p := Worker(0, Claimed, Some(0))], pids := s4.pids[0 := p]);
    var s6 := s5.(workers := s5.workers[q := Worker(1, Claimed, Some(0))], pids := s5.pids[0 := q]);
    assert map[][p := Worker(0, Looking(0), None)] == s1.workers;
    FirstState(events);
    Runs.NextState(Init(), Step, events, 0, Init(), s1);
    Runs.NextState(Init(), Step, events, 1, s1, s2);
    Runs.NextState(Init(), Step, events, 2, s2, s3);
    Runs.NextState(Init(), Step, events, 3, s3, s4);
    Runs.NextState(Init(), Step, events, 4, s4, s5);
    Runs.NextState(Init(), Step, events, 5, s5, s6);
    assert events[..6] == events;
    assert s6.pids[0] == q && forall i :: 0 < i < |s6.pids| ==> s6.pids[i] == 0;
  }

  // ---------------------------------------------------------------- what the loops of one worker come to

  /** The rest of the claiming loop of worker `p`, with no step of another process in between. */
  function ClaimAlone(s: System, p: int): System
    requires p in s.workers && |s.pids| == MAX_CONNECTIONS
    decreases if s.workers[p].stage.Looking? then 2 + MAX_CONNECTIONS - Clip(s.workers[p].stage.next, MAX_CONNECTIONS)
              else if s.workers[p].stage.Found? then 1 else 0
  {
    if s.workers[p].stage.Looking? then ClaimAlone(Apply(s, Look(p)), p)
    else if s.workers[p].stage.Found? then ClaimAlone(Apply(s, Store(p)), p)
    else s
  }

  function Clip(n: nat, max: nat): nat {
    if n < max then n else max
  }

  /** Left alone, the accesses of a claim are the scan and the store of `ClaimSlot`. */
  lemma {:induction false} ClaimIsReplace(s: System, p: int)
    requires p in s.workers && s.workers[p].stage.Looking? && |s.pids| == MAX_CONNECTIONS
    requires s.workers[p].stage.next <= MAX_CONNECTIONS && s.workers[p].slot.None?
    ensures var t, i := ClaimAlone(s, p), FirstIndex(s.pids, 0, s.workers[p].stage.next);
            && t.pids == Put(s.pids, i, p) && p in t.workers && t.workers[p].stage.Claimed?
            && t.workers[p].slot == if i < |s.pids| then Some(i) else None
    decreases MAX_CONNECTIONS - s.workers[p].stage.next
  {
    var next := s.workers[p].stage.next;
    if next < MAX_CONNECTIONS && s.pids[next] != 0 {
      ClaimIsReplace(Apply(s, Look(p)), p);
    } else if next < MAX_CONNECTIONS {
      var t := Apply(s, Look(p));
      assert ClaimAlone(s, p) == ClaimAlone(t, p) == ClaimAlone(Apply(t, Store(p)), p) == Apply(t, Store(p));
    } else {
      assert ClaimAlone(s, p) == Apply(s, Look(p));
    }
  }

  /** The rest of the loop that gives the place up. */
  function ReleaseAlone(s: System, p: int): System
    requires p in s.workers && |s.pids| == MAX_CONNECTIONS
    decreases if s.workers[p].stage.Seeking? then 2 + MAX_CONNECTIONS - Clip(s.workers[p].stage.next, MAX_CONNECTIONS)
              else if s.workers[p].stage.Clearing? then 1 else 0
  {
    if s.workers[p].stage.Seeking? then ReleaseAlone(Apply(s, Seek(p)), p)
    else if s.workers[p].stage.Clearing? then ReleaseAlone(Apply(s, Clear(p)), p)
    else s
  }

  /** Left alone, its accesses are the scan and the store of `ReleaseSlot`. */
  lemma {:induction false} ReleaseIsReplace(s: System, p: int)
    requires p in s.workers && s.workers[p].stage.Seeking? && |s.pids| == MAX_CONNECTIONS
    requires s.workers[p].stage.next <= MAX_CONNECTIONS
    ensures var t, i := ReleaseAlone(s, p), FirstIndex(s.pids, p, s.workers[p].stage.next);
            t.pids == Put(s.pids, i, 0) && p in t.workers && t.workers[p].stage.Released?
    decreases MAX_CONNECTIONS - s.workers[p].stage.next
  {
    var next := s.workers[p].stage.next;
    if next < MAX_CONNECTIONS && s.pids[next] != p {
      ReleaseIsReplace(Apply(s, Seek(p)), p);
    } else if next < MAX_CONNECTIONS {
      var t := Apply(s, Seek(p));
      assert ReleaseAlone(s, p) == ReleaseAlone(t, p) == ReleaseAlone(Apply(t, Clear(p)), p) == Apply(t, Clear(p));
    } else {
      assert ReleaseAlone(s, p) == Apply(s, Seek(p));
    }
  }

  // ---------------------------------------------------------------- the counters in every run

  /** Every index is inside the array of 1001 counters; the first 1000 clients have counters of their own;
      the statistics cover `clientNumber` entries, none of them shared; and each holds the number of reads
      and the number of bytes its worker handled in each direction, in the width of the field. */
  lemma CountersAreSums(events: seq<Event>)
    requires Run(events).Some?
    ensures var s := Run(events).value;
            && (forall p :: p in s.workers ==> CounterIndex(s.workers[p].client) < |s.counters|)
            && |s.counters| == 1001 && (forall i, j :: 0 <= i < j && i < 1000 ==> CounterIndex(i) != CounterIndex(j))
            && s.clientNumber == (if s.accepted < 1000 then s.accepted else 1000) < |s.counters|
            && s.clientNumber <= s.accepted
            && (forall k :: 0 <= k < s.clientNumber ==> s.counters[k] == Sums(s.readings, k))
  {
    hide Sums;
    EveryRun(events);
  }

  // ---------------------------------------------------------------- the code on the shared memory

  class SharedMemory {
    const pids: array<int>
    const counters: array<Tally>
    var active: nat

    ghost predicate Valid()
      reads this
    {
      pids.Length == MAX_CONNECTIONS && counters.Length == MAX_COUNTERS + 1
    }

    constructor ()
      ensures Valid() && pids[..] == Init().pids && counters[..] == Init().counters && active == 0
    {
      pids := new int[MAX_CONNECTIONS](_ => 0);
      counters := new Tally[MAX_COUNTERS + 1](_ => ZERO);
      active := 0;
    }

    /** The loop with which a worker enters the table. */
    method ClaimSlot(pid: int)
      requires Valid()
      modifies pids
      ensures pids[..] == Replace(old(pids[..]), 0, pid)
    {
      var i := 0;
      while i < MAX_CONNECTIONS
        invariant 0 <= i <= pids.Length && pids[..] == old(pids[..])
        invariant FirstIndex(pids[..], 0, 0) == FirstIndex(pids[..], 0, i)
      {
        if pids[i] == 0 {
          pids[i] := pid;
          break;
        }
        i := i + 1;
      }
    }

    /** The loop with which it leaves the table. */
    method ReleaseSlot(pid: int)
      requires Valid()
      modifies pids
      ensures pids[..] == Replace(old(pids[..]), pid, 0)
    {
      var i := 0;
      while i < MAX_CONNECTIONS
        invariant 0 <= i <= pids.Length && pids[..] == old(pids[..])
        invariant FirstIndex(pids[..], pid, 0) == FirstIndex(pids[..], pid, i)
      {
        if pids[i] == pid {
          pids[i] := 0;
          break;
        }
        i := i + 1;
      }
    }

    /** The shutdown loop: the pids that are sent a signal, in table order. */
    method Signals() returns (killed: seq<int>)
      requires Valid()
      ensures killed == Signalled(pids[..])
    {
      killed := [];
      for i := 0 to MAX_CONNECTIONS
        invariant killed == Signalled(pids[..i])
      {
        assert pids[..i + 1][..i] == pids[..i];
        if pids[i] != 0 {
          killed := killed + [pids[i]];
        }
      }
      assert pids[..MAX_CONNECTIONS] == pids[..];
    }

    /** The entry behind the index of a client, as `pgprtdbg_counter_get` finds it, after a read. */
    method CountRead(client: nat, side: Side, n: nat)
      requires Valid()
      modifies counters
      ensures counters[..] == Count(old(counters[..]), CounterIndex(client), side, n)
    {
      var i := CounterIndex(client);
      counters[i] := if side.Client? then counters[i].Sent(n) else counters[i].Received(n);
    }
  }

  /** `accept_cb`. A connection is left alone while too many are active; `arrives` tells that the event is no error
      and `accept` gives a socket. Otherwise a worker is forked with
      the present client number, which stops at the index of the shared last counter. */
  class Acceptor {
    var clientNumber: nat
    ghost var accepted: nat

    ghost predicate Valid()
      reads this
    {
      clientNumber == CounterIndex(accepted)
    }

    constructor ()
      ensures Valid() && accepted == 0
    {
      clientNumber, accepted := 0, 0;
    }

    method AcceptClient(active: nat, arrives: bool) returns (forked: bool, number: nat)
      requires Valid()
      modifies this
      ensures Valid() && (forked <==> active <= 1000 && arrives)
      ensures if forked then accepted == old(accepted) + 1 && number == CounterIndex(old(accepted))
              else accepted == old(accepted) && clientNumber == old(clientNumber)
    {
      if !MayAccept(active) {
        return false, 0;
      }
      if !arrives {
        return false, 0;
      }
      forked, number := true, clientNumber;
      if clientNumber < MAX_COUNTERS {
        clientNumber := clientNumber + 1;
      }
      accepted := accepted + 1;
    }
  }

  function Signalled(pids: seq<int>): seq<int> {
    if pids == [] then []
    else
      var before, p := Signalled(pids[..|pids| - 1]), pids[|pids| - 1];
      if p != 0 then before + [p] else before
  }

  lemma {:induction false} SignalledIsUsed(pids: seq<int>, p: int)
    ensures p in Signalled(pids) <==> p in pids && p != 0
  {
    if pids != [] {
      SignalledIsUsed(pids[..|pids| - 1], p);
      assert pids == pids[..|pids| - 1] + [pids[|pids| - 1]];
    }
  }

  lemma {:induction false} SignalledOnce(pids: seq<int>)
    requires forall i, j :: 0 <= i < j < |pids| && pids[i] != 0 ==> pids[i] != pids[j]
    ensures forall i, j :: 0 <= i < j < |Signalled(pids)| ==> Signalled(pids)[i] != Signalled(pids)[j]
  {
    if pids != [] {
      var front, last := pids[..|pids| - 1], pids[|pids| - 1];
      SignalledOnce(front);
      SignalledIsUsed(front, last);
      assert forall i :: 0 <= i < |front| ==> front[i] == pids[i];
    }
  }

  lemma SignalledIsUsedAll(pids: seq<int>)
    ensures forall p :: p in Signalled(pids) <==> p in pids && p != 0
  {
    forall p
      ensures p in Signalled(pids) <==> p in pids && p != 0
    {
      SignalledIsUsed(pids, p);
    }
  }

  /** Shutdown at this point signals live workers only, each once, and among them every worker that has
      stored itself in the table and not left it. */
  predicate ShutdownIsRight(s: System) {
    var killed := Signalled(s.pids);
    && (forall p :: p in killed ==> p in s.workers)
    && (forall i, j :: 0 <= i < j < |killed| ==> killed[i] != killed[j])
    && (forall p :: p in s.workers && s.workers[p].slot.Some? ==> p in killed)
  }

  lemma LiveTableShutsDown(s: System)
    requires TableInv(s)
    ensures ShutdownIsRight(s)
  {
    hide Signalled;
    SignalledIsUsedAll(s.pids);
    LiveTableIsDistinct(s);
    SignalledOnce(s.pids);
  }

  /** In every run shutdown would at all times signal exactly the live workers it should, each once, exactly
      when no store hits a place that was taken after it had been found free and no worker with a place
      leaves through `exit(1)` or crashes. */
  lemma ShutdownSignalsLiveWorkers(events: seq<Event>)
    requires Run(events).Some?
    ensures (forall k :: 0 <= k <= |events| ==> ShutdownIsRight(Before(events, k))) <==> Undisturbed(events)
  {
    hide ShutdownIsRight, TableInv, Apply, Enabled, Harmless;
    if Undisturbed(events) {
      forall k | 0 <= k <= |events|
        ensures ShutdownIsRight(Before(events, k))
      {
        UndisturbedKeepsTable(events, k);
        LiveTableShutsDown(Before(events, k));
      }
    } else {
      DisturbanceShows(events);
    }
  }
}
