/** The one trace file that all workers append to, under its semaphore. */
module TraceFile {
  import opened Bytes
  import opened Framing
  import opened Options
  import opened SharedStream
  import ClientStream
  import Protocol
  import ServerStream
  import TraceLines

  // ---------------------------------------------------------------- the lines of one worker

  /** The two sockets of a worker. */
  datatype Ends = Ends(client: int, server: int) {
    predicate Valid() {
      FitsInt32(client) && FitsInt32(server)
    }

    function From(side: Side): int {
      if side.Client? then client else server
    }

    function To(side: Side): int {
      if side.Client? then server else client
    }

    function Lines(sockets: bool, side: Side, fs: seq<Frame>): seq<string> {
      Protocol.LinesOf(sockets, side, From(side), To(side), fs)
    }

    /** The lines that `pgprtdbg_client` or `pgprtdbg_server` writes for one read, after those of `calls`, up to the
        first round that removes nothing. */
    function LinesOfCall(sockets: bool, calls: seq<Call>, call: Call): seq<string> {
      var d := Drain(call.side, Shared(calls).buffer + call.chunk);
      Lines(sockets, call.side, d.frames) + Protocol.SpinLines(sockets, call.side, From(call.side), To(call.side), d)
    }

    /** The line that the last call writes in every round, if it spins on a packet with a kind. */
    function SpinLines(sockets: bool, calls: seq<Call>): seq<string> {
      if calls == [] then []
      else
        var t, side := Shared(calls), calls[|calls| - 1].side;
        Protocol.SpinLines(sockets, side, From(side), To(side), Drained([], t.buffer, t.failed))
    }

    /** The lines of a log: one for each tagged packet of either direction, in the order of parsing. */
    function LinesOfLog(sockets: bool, log: seq<Traced>): seq<string> {
      if log == [] then []
      else
        var last := log[|log| - 1];
        LinesOfLog(sockets, log[..|log| - 1]) + Lines(sockets, last.side, [last.frame])
    }

    lemma {:induction false} LinesOfTag(sockets: bool, log: seq<Traced>, side: Side, fs: seq<Frame>)
      ensures LinesOfLog(sockets, log + Tag(side, fs)) == LinesOfLog(sockets, log) + Lines(sockets, side, fs)
    {
      hide Protocol.LinesOf;
      if fs == [] {
        assert log + Tag(side, fs) == log;
        Protocol.NoLines(sockets, side, From(side), To(side));
      } else {
        var front, last := fs[..|fs| - 1], fs[|fs| - 1];
        LinesOfTag(sockets, log, side, front);
        var longer := log + Tag(side, fs);
        assert longer[..|longer| - 1] == log + Tag(side, front);
        assert fs == front + [last];
        Protocol.LinesOfNext(sockets, side, From(side), To(side), front, last);
      }
    }

    lemma SpinLinesOfNextCall(sockets: bool, calls: seq<Call>, call: Call)
      requires Shared(calls).failed.None?
      ensures SpinLines(sockets, calls) == []
      ensures SpinLines(sockets, calls + [call])
           == Protocol.SpinLines(sockets, call.side, From(call.side), To(call.side),
                                 Drain(call.side, Shared(calls).buffer + call.chunk))
    {
      hide Drain, TraceLines.Line;
      OneMore(calls, call);
    }

    /** One more read adds its lines to those of the run. */
    lemma LinesOfNextCall(sockets: bool, calls: seq<Call>, call: Call)
      requires Shared(calls).failed.None?
      ensures LinesOfLog(sockets, Shared(calls + [call]).log) + SpinLines(sockets, calls + [call])
           == LinesOfLog(sockets, Shared(calls).log) + LinesOfCall(sockets, calls, call)
    {
      hide Drain, Shared, Tag, Protocol.LinesOf, Protocol.SpinLines, SpinLines, LinesOfLog;
      OneMore(calls, call);
      SpinLinesOfNextCall(sockets, calls, call);
      var t, d := Shared(calls), Drain(call.side, Shared(calls).buffer + call.chunk);
      LinesOfTag(sockets, t.log, call.side, d.frames);
      var before, written, line := LinesOfLog(sockets, t.log), Lines(sockets, call.side, d.frames),
                                   SpinLines(sockets, calls + [call]);
      assert before + written + line == before + (written + line);
    }
  }

  /** The last read of a run left its loop spinning on a packet with a kind. */
  predicate SpinsOnPacket(calls: seq<Call>) {
    var t := Shared(calls);
    t.failed == Some(Spin) && t.buffer != [] && t.buffer[0] != 0
  }

  lemma SpinLinesMeaning(sockets: bool, ends: Ends, calls: seq<Call>)
    ensures |ends.SpinLines(sockets, calls)| == if SpinsOnPacket(calls) then 1 else 0
  {
  }

  /** A worker: its sockets, the reads it has traced, the lines of the last one that are still to be written, and
      how many more rounds that one has spun for. */
  datatype Writer = Writer(ends: Ends, calls: seq<Call>, queue: seq<string>, spins: nat)

  /** A line ends in its only newline. */
  predicate IsLine(l: string) {
    l != "" && l[|l| - 1] == '\n' && TraceLines.Free(l[..|l| - 1], '\n')
  }

  predicate AreLines(ls: seq<string>) {
    forall i :: 0 <= i < |ls| ==> IsLine(ls[i])
  }

  /** The lines of `output_write` are lines in this sense. */
  lemma TraceLinesAreLines(sockets: bool, id: char, from: int, to: int, kind: int)
    requires FitsInt32(from) && FitsInt32(to) && TraceLines.IsSignedChar(kind) && id in {'C', 'S'}
    ensures var l := TraceLines.Line(sockets, id, from, to, kind); IsLine(l) && l[0] == id
  {
    TraceLines.LineIsWhole(sockets, id, from, to, kind);
  }

  function Id(side: Side): char {
    if side.Client? then 'C' else 'S'
  }

  lemma {:induction false} LinesAreLines(sockets: bool, side: Side, from: int, to: int, fs: seq<Frame>)
    requires FitsInt32(from) && FitsInt32(to)
    ensures var ls := Protocol.LinesOf(sockets, side, from, to, fs);
            AreLines(ls) && forall i :: 0 <= i < |ls| ==> ls[i] != "" && ls[i][0] == Id(side)
  {
    hide TraceLines.Line, IsLine;
    if fs != [] {
      var f := fs[|fs| - 1];
      LinesAreLines(sockets, side, from, to, fs[..|fs| - 1]);
      if f.Tagged? {
        TraceLinesAreLines(sockets, Id(side), from, to, Protocol.KindOf(f));
        assert TraceLines.Line(sockets, Id(side), from, to, Protocol.KindOf(f)) != "" by {
          NotEmpty(TraceLines.Line(sockets, Id(side), from, to, Protocol.KindOf(f)));
        }
      }
    }
  }

  lemma NotEmpty(l: string)
    ensures IsLine(l) ==> l != ""
  {
  }

  // ---------------------------------------------------------------- any number of workers

  /** A line and the worker that wrote it. */
  datatype Entry = Entry(worker: int, line: string)

  /** `file` is its text; `holder` has the semaphore and has put `put` characters of its next line; `done` are
      the lines completed, in the order of the file. */
  datatype State = State(file: string, holder: Option<int>, put: nat, writers: map<int, Writer>, done: seq<Entry>)

  /** A worker starts with its sockets; is called with a read; goes round once more in a loop that spins; waits for
      the semaphore and gets it; puts one character; posts the semaphore. */
  datatype Event =
    | Start(w: int, ends: Ends)
    | Read(w: int, call: Call)
    | Round(w: int)
    | Wait(w: int)
    | Put(w: int)
    | Post(w: int)

  /** The worker has the semaphore and a line to write. */
  predicate Holds(s: State, w: int) {
    s.holder == Some(w) && w in s.writers && s.writers[w].queue != []
  }

  /** A worker whose loop failed is not called again. */
  predicate Enabled(s: State, e: Event) {
    match e
    case Start(w, ends) => w !in s.writers && ends.Valid()
    case Read(w, _) => w in s.writers && s.writers[w].queue == [] && Shared(s.writers[w].calls).failed.None?
    case Round(w) => w in s.writers && s.writers[w].queue == [] && SpinsOnPacket(s.writers[w].calls)
    case Wait(w) => w in s.writers && s.writers[w].queue != [] && s.holder.None?
    case Put(w) => Holds(s, w) && s.put < |s.writers[w].queue[0]|
    case Post(w) => Holds(s, w) && s.put == |s.writers[w].queue[0]|
  }

  function Apply(sockets: bool, s: State, e: Event): State
    requires Enabled(s, e)
  {
    match e
    case Start(w, ends) => s.(writers := s.writers[w := Writer(ends, [], [], 0)])
    case Read(w, call) =>
      var v := s.writers[w];
      s.(writers := s.writers[w := Writer(v.ends, v.calls + [call], v.ends.LinesOfCall(sockets, v.calls, call), 0)])
    case Round(w) =>
      var v := s.writers[w];
      s.(writers := s.writers[w := v.(queue := v.ends.SpinLines(sockets, v.calls), spins := v.spins + 1)])
    case Wait(w) => s.(holder := Some(w), put := 0)
    case Put(w) => s.(file := s.file + [s.writers[w].queue[0][s.put]], put := s.put + 1)
    case Post(w) =>
      var v := s.writers[w];
      s.(holder := None, put := 0, writers := s.writers[w := v.(queue := v.queue[1..])],
         done := s.done + [Entry(w, v.queue[0])])
  }

  function Run(sockets: bool, events: seq<Event>): Option<State> {
    if events == [] then Some(State("", None, 0, map[], []))
    else
      var before, e := Run(sockets, events[..|events| - 1]), events[|events| - 1];
      if before.Some? && Enabled(before.value, e) then Some(Apply(sockets, before.value, e)) else None
  }

  function Text(entries: seq<Entry>): string {
    if entries == [] then "" else Text(entries[..|entries| - 1]) + entries[|entries| - 1].line
  }

  /** The lines of one worker. */
  function Of(entries: seq<Entry>, w: int): seq<string> {
    if entries == [] then []
    else
      var before, last := Of(entries[..|entries| - 1], w), entries[|entries| - 1];
      if last.worker == w then before + [last.line] else before
  }

  predicate HolderInv(s: State) {
    s.holder.Some? ==> s.holder.value in s.writers && s.writers[s.holder.value].queue != []
                       && s.put <= |s.writers[s.holder.value].queue[0]|
  }

  /** The part of a line that the holder has put so far. */
  function Partial(s: State): string
    requires HolderInv(s)
  {
    if s.holder.Some? then s.writers[s.holder.value].queue[0][..s.put] else ""
  }

  predicate TextInv(s: State) {
    && HolderInv(s) && s.file == Text(s.done) + Partial(s)
    && (forall w :: w in s.writers ==> AreLines(s.writers[w].queue))
    && (forall w :: w in s.writers ==> s.writers[w].ends.Valid())
    && (forall e :: e in s.done ==> IsLine(e.line))
  }

  /** The lines of a worker's run: those of its log, and once for each round the one it spins on. */
  function LinesOfRun(sockets: bool, v: Writer): seq<string> {
    v.ends.LinesOfLog(sockets, Shared(v.calls).log) + Protocol.Repeated(v.ends.SpinLines(sockets, v.calls), 1 + v.spins)
  }

  /** They are those completed, followed by those still to be written. */
  predicate OrderInv(sockets: bool, s: State, w: int) {
    if w in s.writers then LinesOfRun(sockets, s.writers[w]) == Of(s.done, w) + s.writers[w].queue
    else Of(s.done, w) == []
  }

  ghost predicate Inv(sockets: bool, s: State) {
    TextInv(s) && forall w :: OrderInv(sockets, s, w)
  }

  lemma OfNext(entries: seq<Entry>, e: Entry, w: int)
    ensures Of(entries + [e], w) == Of(entries, w) + (if e.worker == w then [e.line] else [])
    ensures Text(entries + [e]) == Text(entries) + e.line
  {
    assert (entries + [e])[..|entries|] == entries;
  }

  lemma SpinLinesAreLines(sockets: bool, side: Side, from: int, to: int, d: Drained)
    requires FitsInt32(from) && FitsInt32(to)
    ensures AreLines(Protocol.SpinLines(sockets, side, from, to, d))
  {
    hide IsLine, TraceLines.Line;
    if d.rest != [] {
      TraceLinesAreLines(sockets, Id(side), from, to, SignedByte(d.rest[0]));
    }
  }

  lemma NothingShared()
    ensures Shared([]) == Tracing([], [], None)
  {
  }

  lemma StepKeepsText(sockets: bool, s: State, e: Event)
    requires Enabled(s, e) && TextInv(s)
    ensures TextInv(Apply(sockets, s, e))
  {
    hide IsLine, Text, Drain, Protocol.LinesOf, Protocol.SpinLines;
    NothingShared();
    match e
    case Read(w, call) =>
      var ends, d := s.writers[w].ends, Drain(call.side, Shared(s.writers[w].calls).buffer + call.chunk);
      LinesAreLines(sockets, call.side, ends.From(call.side), ends.To(call.side), d.frames);
      SpinLinesAreLines(sockets, call.side, ends.From(call.side), ends.To(call.side), d);
    case Round(w) =>
      var v := s.writers[w];
      var t, side := Shared(v.calls), v.calls[|v.calls| - 1].side;
      SpinLinesAreLines(sockets, side, v.ends.From(side), v.ends.To(side), Drained([], t.buffer, t.failed));
    case Put(w) =>
      var line := s.writers[w].queue[0];
      assert line[..s.put + 1] == line[..s.put] + [line[s.put]];
      assert Text(s.done) + (line[..s.put] + [line[s.put]]) == Text(s.done) + line[..s.put] + [line[s.put]];
    case Post(w) =>
      var line := s.writers[w].queue[0];
      assert line[..s.put] == line;
      OfNext(s.done, Entry(w, line), w);
    case _ =>
  }

  lemma NothingTraced(sockets: bool, ends: Ends)
    ensures LinesOfRun(sockets, Writer(ends, [], [], 0)) == []
  {
    Protocol.NothingRepeated();
  }

  /** A read adds the lines of its call to those of the run. */
  lemma ReadAddsLines(sockets: bool, v: Writer, call: Call)
    requires Shared(v.calls).failed.None?
    ensures LinesOfRun(sockets, Writer(v.ends, v.calls + [call], [], 0))
         == LinesOfRun(sockets, v) + v.ends.LinesOfCall(sockets, v.calls, call)
  {
    hide Shared, Ends.LinesOfLog, Ends.LinesOfCall, Ends.SpinLines;
    v.ends.LinesOfNextCall(sockets, v.calls, call);
    v.ends.SpinLinesOfNextCall(sockets, v.calls, call);
    Protocol.NothingRepeated();
    var line := v.ends.SpinLines(sockets, v.calls + [call]);
    assert Protocol.Repeated(line, 0) + line == line;
    assert v.ends.LinesOfLog(sockets, Shared(v.calls).log) + [] == v.ends.LinesOfLog(sockets, Shared(v.calls).log);
  }

  lemma RoundAddsLine(sockets: bool, v: Writer)
    ensures LinesOfRun(sockets, v.(spins := v.spins + 1)) == LinesOfRun(sockets, v) + v.ends.SpinLines(sockets, v.calls)
  {
    hide Shared, Ends.LinesOfLog, Ends.SpinLines;
    var line := v.ends.SpinLines(sockets, v.calls);
    var before := v.ends.LinesOfLog(sockets, Shared(v.calls).log);
    var lines := Protocol.Repeated(line, 1 + v.spins);
    assert before + (lines + line) == before + lines + line;
  }

  lemma SameRun(sockets: bool, v: Writer, queue: seq<string>)
    ensures LinesOfRun(sockets, v.(queue := queue)) == LinesOfRun(sockets, v)
  {
  }

  lemma StepKeepsOrder(sockets: bool, s: State, e: Event, u: int)
    requires Enabled(s, e) && OrderInv(sockets, s, u)
    ensures OrderInv(sockets, Apply(sockets, s, e), u)
  {
    hide LinesOfRun, Shared, Of, Text, IsLine, Ends.LinesOfCall, Ends.SpinLines;
    match e
    case Start(w, ends) =>
      NothingTraced(sockets, ends);
    case Read(w, call) =>
      var v := s.writers[w];
      ReadAddsLines(sockets, v, call);
      var queue := v.ends.LinesOfCall(sockets, v.calls, call);
      SameRun(sockets, Writer(v.ends, v.calls + [call], [], 0), queue);
      assert Of(s.done, w) + [] == Of(s.done, w);
    case Round(w) =>
      var v := s.writers[w];
      RoundAddsLine(sockets, v);
      SameRun(sockets, v.(spins := v.spins + 1), v.ends.SpinLines(sockets, v.calls));
      assert Of(s.done, w) + [] == Of(s.done, w);
    case Post(w) =>
      var queue := s.writers[w].queue;
      OfNext(s.done, Entry(w, queue[0]), u);
      SameRun(sockets, s.writers[w], queue[1..]);
      assert Of(s.done, w) + ([queue[0]] + queue[1..]) == Of(s.done, w) + [queue[0]] + queue[1..];
      assert [queue[0]] + queue[1..] == queue;
    case _ =>
  }

  lemma StepKeepsInv(sockets: bool, s: State, e: Event)
    requires Enabled(s, e) && Inv(sockets, s)
    ensures Inv(sockets, Apply(sockets, s, e))
  {
    hide TextInv, OrderInv, Apply;
    StepKeepsText(sockets, s, e);
    forall w
      ensures OrderInv(sockets, Apply(sockets, s, e), w)
    {
      StepKeepsOrder(sockets, s, e, w);
    }
  }

  lemma {:induction false} EveryRunKeepsInv(sockets: bool, events: seq<Event>)
    requires Run(sockets, events).Some?
    ensures Inv(sockets, Run(sockets, events).value)
  {
    hide Apply, Enabled;
    if events != [] {
      var before, e := events[..|events| - 1], events[|events| - 1];
      EveryRunKeepsInv(sockets, before);
      StepKeepsInv(sockets, Run(sockets, before).value, e);
    }
  }

  /**
   In every interleaving of any number of workers the file is a sequence of whole lines, followed by at
   most the beginning of the line of the worker that holds the semaphore. The lines of each worker, in the
   order of the file and with those it has still to write, are those of the tagged packets that its run on the
   shared buffer has traced, in the order of parsing, and behind them, once for each round, the line of a
   packet of size zero that it spins on.
   */
  lemma FileIsWholeLines(sockets: bool, events: seq<Event>)
    requires Run(sockets, events).Some?
    ensures var s := Run(sockets, events).value;
            && HolderInv(s) && s.file == Text(s.done) + Partial(s)
            && (s.holder.None? ==> s.file == Text(s.done))
            && (forall e :: e in s.done ==> IsLine(e.line))
            && (forall w :: w in s.writers ==> LinesOfRun(sockets, s.writers[w]) == Of(s.done, w) + s.writers[w].queue)
  {
    EveryRunKeepsInv(sockets, events);
    var s := Run(sockets, events).value;
    assert Text(s.done) + "" == Text(s.done);
    forall w | w in s.writers
      ensures LinesOfRun(sockets, s.writers[w]) == Of(s.done, w) + s.writers[w].queue
    {
      assert OrderInv(sockets, s, w);
    }
  }

  lemma RepeatedLength(line: seq<string>, n: nat)
    ensures |Protocol.Repeated(line, n)| == |line| * n
  {
    if n > 0 {
      RepeatedLength(line, n - 1);
    }
  }

  /** The lines of a worker are exactly those of the tagged packets it has traced, in every run, if and only if it
      does not spin on a packet of size zero. */
  lemma LinesAreOfPackets(sockets: bool, events: seq<Event>, w: int)
    requires Run(sockets, events).Some? && w in Run(sockets, events).value.writers
    ensures var s := Run(sockets, events).value;
            var v := s.writers[w];
            Of(s.done, w) + v.queue == v.ends.LinesOfLog(sockets, Shared(v.calls).log) <==> !SpinsOnPacket(v.calls)
  {
    hide Shared, Of, Text, IsLine, Run, Inv, Ends.LinesOfLog, Ends.SpinLines, SpinsOnPacket, Protocol.Repeated;
    FileIsWholeLines(sockets, events);
    var v := Run(sockets, events).value.writers[w];
    var line, log := v.ends.SpinLines(sockets, v.calls), v.ends.LinesOfLog(sockets, Shared(v.calls).log);
    SpinLinesMeaning(sockets, v.ends, v.calls);
    RepeatedLength(line, 1 + v.spins);
    assert line == [] ==> Protocol.Repeated(line, 1 + v.spins) == [] && log + [] == log;
  }

  // ---------------------------------------------------------------- a run that spins

  lemma AfterEvent(sockets: bool, events: seq<Event>, s: State, e: Event)
    requires Run(sockets, events) == Some(s) && Enabled(s, e)
    ensures Run(sockets, events + [e]) == Some(Apply(sockets, s, e))
  {
    hide Enabled, Apply;
    assert (events + [e])[..|events|] == events;
  }

  /** The holder puts its line up to character `k`. */
  lemma {:induction false} PutsUpTo(sockets: bool, events: seq<Event>, s: State, w: int, k: nat)
    returns (more: seq<Event>)
    requires Run(sockets, events) == Some(s) && s.holder == Some(w) && s.put == 0
    requires w in s.writers && s.writers[w].queue != [] && k <= |s.writers[w].queue[0]|
    ensures Run(sockets, more) == Some(s.(file := s.file + s.writers[w].queue[0][..k], put := k))
    decreases k
  {
    hide Run;
    var line := s.writers[w].queue[0];
    if k == 0 {
      more := events;
      assert s.file + line[..0] == s.file;
    } else {
      more := PutsUpTo(sockets, events, s, w, k - 1);
      AfterEvent(sockets, more, s.(file := s.file + line[..k - 1], put := k - 1), Put(w));
      assert s.file + line[..k - 1] + [line[k - 1]] == s.file + line[..k];
      more := more + [Put(w)];
    }
  }

  /** A worker writes the next of its lines. */
  lemma WritesLine(sockets: bool, events: seq<Event>, s: State, w: int) returns (more: seq<Event>)
    requires Run(sockets, events) == Some(s) && s.holder.None? && s.put == 0
    requires w in s.writers && s.writers[w].queue != []
    ensures var v := s.writers[w];
            Run(sockets, more) == Some(s.(file := s.file + v.queue[0], done := s.done + [Entry(w, v.queue[0])],
                                          writers := s.writers[w := v.(queue := v.queue[1..])]))
  {
    hide Run;
    var line := s.writers[w].queue[0];
    var held := s.(holder := Some(w), put := 0);
    AfterEvent(sockets, events, s, Event.Wait(w));
    more := PutsUpTo(sockets, events + [Event.Wait(w)], held, w, |line|);
    assert line[..|line|] == line;
    AfterEvent(sockets, more, held.(file := s.file + line, put := |line|), Post(w));
    more := more + [Post(w)];
  }

  /** A packet of kind `H` with length -1. */
  const EMPTY_FLUSH: seq<Byte> := [72, 255, 255, 255, 255]

  lemma FlushSpins()
    ensures Drain(Client, EMPTY_FLUSH) == Drained([], EMPTY_FLUSH, Some(Spin))
    ensures Shared([]) == Tracing([], [], None)
    ensures Shared([Call(Client, EMPTY_FLUSH)]) == Tracing([], EMPTY_FLUSH, Some(Spin))
  {
    assert Int32At(EMPTY_FLUSH, 1) == -1;
    assert [Call(Client, EMPTY_FLUSH)][..0] == [] && [] + EMPTY_FLUSH == EMPTY_FLUSH;
    assert Shared([]).log + Tag(Client, []) == [];
  }

  lemma FlushLine(ends: Ends)
    ensures Protocol.SpinLines(false, Client, ends.From(Client), ends.To(Client), Drained([], EMPTY_FLUSH, Some(Spin)))
         == ["C,H\n"]
  {
    assert TraceLines.KindText(72) == "H";
    assert TraceLines.Fields(false, 'C', ends.From(Client), ends.To(Client), 72) == "C,H\n";
  }

  function Copies(line: string, n: nat): string {
    if n == 0 then "" else Copies(line, n - 1) + line
  }

  /** The state in which one worker has written its line `n` times. */
  function Filled(w: int, ends: Ends, n: nat): State
    requires n > 0
  {
    State(Copies("C,H\n", n), None, 0, map[w := Writer(ends, [Call(Client, EMPTY_FLUSH)], [], n - 1)],
          seq(n, _ => Entry(w, "C,H\n")))
  }

  lemma FlushArrives(w: int, ends: Ends) returns (events: seq<Event>, s: State)
    requires ends.Valid()
    ensures Run(false, events) == Some(s)
    ensures s == State("", None, 0, map[w := Writer(ends, [Call(Client, EMPTY_FLUSH)], ["C,H\n"], 0)], [])
  {
    hide Run, Drain, Shared, Protocol.SpinLines;
    var call := Call(Client, EMPTY_FLUSH);
    var empty, started := State("", None, 0, map[], []), State("", None, 0, map[w := Writer(ends, [], [], 0)], []);
    NothingRun(false);
    FlushSpins();
    FlushLine(ends);
    AfterEvent(false, [], empty, Start(w, ends));
    assert empty.writers[w := Writer(ends, [], [], 0)] == started.writers;
    AfterEvent(false, [] + [Start(w, ends)], started, Read(w, call));
    events := [] + [Start(w, ends)] + [Read(w, call)];
    assert [] + EMPTY_FLUSH == EMPTY_FLUSH && [] + [call] == [call];
    assert ends.LinesOfCall(false, [], call) == ["C,H\n"] by {
      Protocol.NoLines(false, Client, ends.From(Client), ends.To(Client));
      assert [] + ["C,H\n"] == ["C,H\n"];
    }
    s := Apply(false, started, Read(w, call));
    assert s.writers == map[w := Writer(ends, [call], ["C,H\n"], 0)];
  }

  lemma NothingRun(sockets: bool)
    ensures Run(sockets, []) == Some(State("", None, 0, map[], []))
  {
  }

  lemma {:induction false} FlushFills(w: int, ends: Ends, n: nat) returns (events: seq<Event>)
    requires ends.Valid() && n > 0
    ensures Run(false, events) == Some(Filled(w, ends, n))
  {
    hide Run, Drain, Shared, Protocol.SpinLines;
    var call, s := Call(Client, EMPTY_FLUSH), Filled(w, ends, n);
    var v := Writer(ends, [call], ["C,H\n"], n - 1);
    var ready: State;
    if n == 1 {
      events, ready := FlushArrives(w, ends);
    } else {
      events := FlushFills(w, ends, n - 1);
      FlushSpins();
      FlushLine(ends);
      var before := Filled(w, ends, n - 1);
      AfterEvent(false, events, before, Round(w));
      ready := Apply(false, before, Round(w));
      events := events + [Round(w)];
      assert ready.writers == map[w := v];
    }
    events := WritesLine(false, events, ready, w);
    assert ready.writers[w].queue[1..] == [];
    assert ready.writers[w := v.(queue := [])] == s.writers;
    assert ready.done + [Entry(w, "C,H\n")] == s.done;
    assert ready.file + "C,H\n" == s.file by {
      assert n == 1 ==> Copies("C,H\n", 0) == "";
    }
  }

  /** A client that sends these five bytes fills the file: its line is written any number of times, although its
      run traces no packet at all. */
  lemma EmptyFlushFillsTheFile(w: int, ends: Ends, n: nat)
    requires ends.Valid() && n > 0
    ensures exists events :: Run(false, events) == Some(Filled(w, ends, n))
    ensures ends.LinesOfLog(false, Shared(Filled(w, ends, n).writers[w].calls).log) == []
  {
    var events := FlushFills(w, ends, n);
    FlushSpins();
  }

  // ---------------------------------------------------------------- the file and the packets of a connection

  /** The lines of one direction. */
  function SideLines(ls: seq<string>, side: Side): seq<string> {
    if ls == [] then []
    else
      var before, last := SideLines(ls[..|ls| - 1], side), ls[|ls| - 1];
      if last != "" && last[0] == Id(side) then before + [last] else before
  }

  lemma SideLinesNext(ls: seq<string>, l: string, x: Side)
    ensures SideLines(ls + [l], x) == SideLines(ls, x) + (if l != "" && l[0] == Id(x) then [l] else [])
  {
    assert (ls + [l])[..|ls|] == ls;
  }

  lemma SideLinesOfFrame(sockets: bool, ends: Ends, ls: seq<string>, side: Side, f: Frame, x: Side)
    requires ends.Valid()
    ensures SideLines(ls + ends.Lines(sockets, side, [f]), x)
         == SideLines(ls, x) + (if x == side then ends.Lines(sockets, side, [f]) else [])
  {
    hide SideLines, TraceLines.Line;
    Protocol.OneLine(sockets, side, ends.From(side), ends.To(side), f);
    LinesAreLines(sockets, side, ends.From(side), ends.To(side), [f]);
    var more := ends.Lines(sockets, side, [f]);
    if f.Tagged? {
      assert more == [more[0]];
      SideLinesNext(ls, more[0], x);
    } else {
      assert ls + more == ls;
    }
  }

  lemma {:induction false} SideLinesOfLog(sockets: bool, ends: Ends, log: seq<Traced>, x: Side)
    requires ends.Valid()
    ensures SideLines(ends.LinesOfLog(sockets, log), x) == ends.Lines(sockets, x, SideFrames(log, x))
  {
    hide Protocol.LinesOf;
    Protocol.NoLines(sockets, x, ends.From(x), ends.To(x));
    if log != [] {
      var front, last := log[..|log| - 1], log[|log| - 1];
      SideLinesOfLog(sockets, ends, front, x);
      SideLinesOfFrame(sockets, ends, ends.LinesOfLog(sockets, front), last.side, last.frame, x);
      Protocol.LinesOfNext(sockets, x, ends.From(x), ends.To(x), SideFrames(front, x), last.frame);
    }
  }

  /**
   From the packets of a connection to the file. Both directions of a worker carry conforming packets and are
   read as the loops need. When it has nothing left to write, its client lines in the file are the lines of
   the client's tagged packets and its server lines those of the server's, each in the order in which they
   were sent, whatever other workers do.
   */
  lemma FileShowsConnection(sockets: bool, events: seq<Event>, w: int, sent: seq<Frame>, received: seq<Frame>)
    requires Run(sockets, events).Some? && w in Run(sockets, events).value.writers
    requires var v := Run(sockets, events).value.writers[w];
             && v.queue == [] && SwitchesClean(v.calls)
             && AllConform(Client, sent) && Flatten(SideChunks(v.calls, Client)) == FrameBytes(sent)
             && AllConform(Server, received) && Flatten(SideChunks(v.calls, Server)) == FrameBytes(received)
             && ClientStream.ReadsSpareStartup(sent, SideChunks(v.calls, Client))
             && ServerStream.ReadsRespect(received, SideChunks(v.calls, Server))
    ensures var s := Run(sockets, events).value;
            var ends := s.writers[w].ends;
            && SideLines(Of(s.done, w), Client) == ends.Lines(sockets, Client, sent)
            && SideLines(Of(s.done, w), Server) == ends.Lines(sockets, Server, received)
            && Protocol.AllShow(sockets, SideLines(Of(s.done, w), Client), 'C', ends.client, ends.server, sent)
            && Protocol.AllShow(sockets, SideLines(Of(s.done, w), Server), 'S', ends.server, ends.client, received)
  {
    hide Protocol.AllShow, Protocol.LinesOf, Run, Drain, FeedAll, SwitchesClean, Conforms, Int32At;
    EveryRunKeepsInv(sockets, events);
    var s := Run(sockets, events).value;
    var v := s.writers[w];
    ConnectionIsTraced(v.calls, sent, received);
    LinesAreOfPackets(sockets, events, w);
    assert Of(s.done, w) + [] == Of(s.done, w);
    SideLinesOfLog(sockets, v.ends, Shared(v.calls).log, Client);
    SideLinesOfLog(sockets, v.ends, Shared(v.calls).log, Server);
    Protocol.LinesShow(sockets, Client, v.ends.client, v.ends.server, sent);
    Protocol.LinesShow(sockets, Server, v.ends.server, v.ends.client, received);
  }
}
