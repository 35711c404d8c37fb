/**
 The forwarding state machine of one worker: `pipeline_client` and `pipeline_server` as transitions
 against whatever the sockets do.
 */
module Forwarding {
  import opened Bytes
  import opened Framing
  import opened IntegerCodec
  import opened Options
  import opened SharedStream
  import opened Writing
  import Counters
  import Protocol
  import Wire

  const SUCCESS := 0
  const FAILURE := 1
  const CLIENT_FAILURE := 2
  const SERVER_FAILURE := 3
  const SERVER_FATAL := 4

  /** What a `read` finds: these bytes are waiting (none at the end of the stream), or an error. */
  datatype ReadResult = Received(bytes: seq<Byte>) | ReadFailed

  /** A byte sent to the client: passed on from the server, or part of a refusal the worker makes up. */
  datatype Delivered = Relayed(b: Byte) | Injected(b: Byte)

  function Mark(s: seq<Byte>): seq<Delivered> {
    seq(|s|, i requires 0 <= i < |s| => Relayed(s[i]))
  }

  function MarkInjected(s: seq<Byte>): seq<Delivered> {
    seq(|s|, i requires 0 <= i < |s| => Injected(s[i]))
  }

  function RelayedBytes(out: seq<Delivered>): seq<Byte> {
    if out == [] then []
    else
      var before, last := RelayedBytes(out[..|out| - 1]), out[|out| - 1];
      if last.Relayed? then before + [last.b] else before
  }

  function InjectedBytes(out: seq<Delivered>): seq<Byte> {
    if out == [] then []
    else
      var before, last := InjectedBytes(out[..|out| - 1]), out[|out| - 1];
      if last.Injected? then before + [last.b] else before
  }

  /** The state of a worker, with what it has read from and written to each side. `halted`: it is inside
      a call that has not come back, it has left its memory, or the process is gone. `clientFired` and
      `serverFired`: the callback has run in this turn of the event loop. */
  datatype State = State(running: bool, exitCode: int, halted: bool, memory: seq<Byte>,
                         tracing: Tracing, tally: Counters.Tally,
                         clientIn: seq<Byte>, serverOut: seq<Byte>,
                         serverIn: seq<Byte>, clientOut: seq<Delivered>,
                         calls: seq<Call>, clientFired: bool, serverFired: bool)

  function Init(memory: seq<Byte>): State {
    State(true, FAILURE, false, memory, Tracing([], [], None), Counters.ZERO, [], [], [], [], [], false, false)
  }

  function Zeros(n: nat): seq<Byte> {
    seq(n, _ => 0)
  }

  /** Leaving the event loop after a read that brought nothing: the message memory is cleared. */
  function Stop(s: State, exitCode: int): State {
    s.(memory := Zeros(|s.memory|), running := false, exitCode := exitCode)
  }

  /** The part of `pipeline_client` before its write: the bytes are in the message memory, have been
      traced and counted, and refusals may have gone to the client. */
  function ClientGot(s: State, chunk: seq<Byte>, a: Protocol.Answered): State
    requires |chunk| <= |s.memory|
  {
    s.(memory := chunk + s.memory[|chunk|..],
       tracing := Protocol.Cutting(s.tracing, a),
       tally := s.tally.Sent(|chunk|),
       clientIn := s.clientIn + chunk,
       clientOut := s.clientOut + MarkInjected(a.sent),
       calls := s.calls + [Call(Client, chunk)])
  }

  /** Its write to the server, and what follows. */
  function ClientPut(s: State, chunk: seq<Byte>, writes: seq<WriteResult>): State
    requires chunk != []
  {
    var d := Deliver(|chunk|, 0, writes);
    var u := s.(serverOut := s.serverOut + chunk[..d.sent]);
    if d.status.Blocked? then u.(halted := true)
    else if d.status.Error? then u.(running := false, exitCode := SERVER_FAILURE)
    else if SignedByte(chunk[0]) == 'X' as int then u.(running := false, exitCode := SUCCESS)
    else u
  }

  /** `pipeline_client`. If the tracing loop spins, the call is observed after `spins` more rounds of it. */
  function OnClient(s: State, r: ReadResult, writes: seq<WriteResult>, refusals: seq<seq<WriteResult>>,
                    spins: nat): State {
    var s := s.(clientFired := true);
    if r.ReadFailed? then Stop(s, CLIENT_FAILURE)
    else
      var n := Min(|r.bytes|, |s.memory|);
      if n == 0 then Stop(s, CLIENT_FAILURE)
      else
        var chunk := r.bytes[..n];
        var a := Protocol.Lasting(s.tracing.buffer + chunk, refusals, spins);
        var t := ClientGot(s, chunk, a);
        if a.stuck || t.tracing.failed.Some? then t.(halted := true) else ClientPut(t, chunk, writes)
  }

  predicate Matches(memory: seq<Byte>, o: nat, s: string) {
    o + |s| <= |memory| && forall i :: 0 <= i < |s| ==> memory[o + i] == s[i] as int
  }

  /** The severity check on an ErrorResponse, at fixed offsets of the message memory. */
  predicate IsFatal(memory: seq<Byte>) {
    (Matches(memory, 6, "FATAL") || Matches(memory, 6, "PANIC")) && !Matches(memory, 20, "0A000")
  }

  /** `strncmp` runs past the end of the memory: it finds no difference up to there. */
  predicate Overruns(memory: seq<Byte>, o: nat, s: string) {
    o + |s| > |memory| && forall i :: 0 <= i < |s| && o + i < |memory| ==> memory[o + i] == s[i] as int
  }

  /** One of the comparisons of the severity check does. */
  predicate LooksOutside(memory: seq<Byte>) {
    || Overruns(memory, 6, "FATAL")
    || (!Matches(memory, 6, "FATAL") && Overruns(memory, 6, "PANIC"))
    || Overruns(memory, 20, "0A000")
  }

  /** A memory of 25 bytes is what the severity check needs: with fewer there is a content on which it reads
      past the end. */
  lemma SeverityCheckNeeds25(n: nat)
    ensures (forall memory: seq<Byte> :: |memory| == n ==> !LooksOutside(memory)) <==> n >= 25
  {
    if n < 25 {
      var memory: seq<Byte> := seq(n, i requires 0 <= i < n => if i < 20 then 0 else "0A000"[i - 20] as int);
      assert Overruns(memory, 20, "0A000");
    }
  }

  function ServerGot(s: State, chunk: seq<Byte>): State
    requires |chunk| <= |s.memory|
  {
    s.(memory := chunk + s.memory[|chunk|..],
       tracing := Step(s.tracing, Call(Server, chunk)),
       tally := s.tally.Received(|chunk|),
       serverIn := s.serverIn + chunk,
       calls := s.calls + [Call(Server, chunk)])
  }

  function ServerPut(s: State, chunk: seq<Byte>, writes: seq<WriteResult>): State
    requires chunk != []
  {
    var d := Deliver(|chunk|, 0, writes);
    var u := s.(clientOut := s.clientOut + Mark(chunk[..d.sent]));
    if d.status.Blocked? then u.(halted := true)
    else if d.status.Error? then u.(running := false, exitCode := CLIENT_FAILURE)
    else if SignedByte(chunk[0]) == 'E' as int && LooksOutside(u.memory) then u.(halted := true)
    else if SignedByte(chunk[0]) == 'E' as int && IsFatal(u.memory) then
      u.(running := false, exitCode := SERVER_FATAL)
    else u
  }

  /** `pipeline_server`. At the end of the server's stream the exit code stays as it is. */
  function OnServer(s: State, r: ReadResult, writes: seq<WriteResult>): State {
    var s := s.(serverFired := true);
    if r.ReadFailed? then Stop(s, SERVER_FAILURE)
    else
      var n := Min(|r.bytes|, |s.memory|);
      if n == 0 then Stop(s, s.exitCode)
      else
        var chunk := r.bytes[..n];
        var t := ServerGot(s, chunk);
        if t.tracing.failed.Some? then t.(halted := true) else ServerPut(t, chunk, writes)
  }

  /** `sigquit_cb`. */
  function OnQuit(s: State): State {
    s.(running := false, exitCode := FAILURE)
  }

  // ---------------------------------------------------------------- what ends a worker

  /** The bytes are the characters of the text. */
  predicate Spells(bytes: seq<Byte>, text: string) {
    |bytes| == |text| && forall i :: 0 <= i < |text| ==> bytes[i] == text[i] as int
  }

  /** An ErrorResponse with its severity, in both forms, and its code first, as servers send it. */
  function ErrorPacket(severity: seq<Byte>, code: seq<Byte>, more: seq<Wire.ErrorField>): seq<Byte> {
    var fs := [Wire.ErrorField('S' as int, severity), Wire.ErrorField('V' as int, severity),
               Wire.ErrorField('C' as int, code)] + more;
    Wire.Packet('E' as int, Wire.ErrorFields(fs) + [0])
  }

  lemma ErrorLayout(severity: seq<Byte>, code: seq<Byte>, more: seq<Wire.ErrorField>)
    requires |severity| == 5 && |code| == 5
    ensures var p := ErrorPacket(severity, code, more);
            |p| >= 27 && p[0] == 'E' as int && p[6..11] == severity && p[20..25] == code
  {
    hide Wire.Packet;
    var s, v, c := Wire.ErrorField('S' as int, severity), Wire.ErrorField('V' as int, severity),
                   Wire.ErrorField('C' as int, code);
    var rest := Wire.ErrorFields(more) + [0];
    var body := Wire.ErrorFields([s, v, c] + more) + [0];
    FirstField(s, [v, c] + more);
    FirstField(v, [c] + more);
    FirstField(c, more);
    assert [s] + ([v, c] + more) == [s, v, c] + more && [v] + ([c] + more) == [v, c] + more;
    assert body == s.Encode() + v.Encode() + c.Encode() + rest;
    assert body[1..6] == severity && body[15..20] == code;
    PacketSlices('E' as int, body);
  }

  lemma PacketSlices(kind: Byte, body: seq<Byte>)
    requires |body| >= 22
    ensures var p := Wire.Packet(kind, body);
            |p| >= 27 && p[0] == kind && p[6..11] == body[1..6] && p[20..25] == body[15..20]
  {
    hide EncodeInt;
    var p := Wire.Packet(kind, body);
    assert p[5..] == body && p[5..][1..6] == p[6..11] && p[5..][15..20] == p[20..25];
  }

  lemma FirstField(f: Wire.ErrorField, fs: seq<Wire.ErrorField>)
    ensures Wire.ErrorFields([f] + fs) == f.Encode() + Wire.ErrorFields(fs)
  {
    assert ([f] + fs)[1..] == fs;
  }

  lemma MatchIsSpelling(memory: seq<Byte>, o: nat, text: string)
    requires o + |text| <= |memory|
    ensures Matches(memory, o, text) <==> Spells(memory[o..o + |text|], text)
  {
    var part := memory[o..o + |text|];
    assert forall i :: 0 <= i < |text| ==> part[i] == memory[o + i];
  }

  lemma SeverityIsText(memory: seq<Byte>, severity: seq<Byte>, code: seq<Byte>)
    requires |memory| >= 25 && memory[6..11] == severity && memory[20..25] == code
    ensures !LooksOutside(memory)
    ensures IsFatal(memory)
            <==> (Spells(severity, "FATAL") || Spells(severity, "PANIC")) && !Spells(code, "0A000")
  {
    hide Matches;
    MatchIsSpelling(memory, 6, "FATAL");
    MatchIsSpelling(memory, 6, "PANIC");
    MatchIsSpelling(memory, 20, "0A000");
  }

  /**
   An error of the server that arrives in one read, whatever follows it, and is passed on in full, ends the worker
   exactly when its severity is FATAL or PANIC and its code is not 0A000. The worker then reports a fatal error
   of the server.
   */
  lemma SeverityDecides(s: State, severity: seq<Byte>, code: seq<Byte>, more: seq<Wire.ErrorField>,
                        behind: seq<Byte>, writes: seq<WriteResult>)
    requires !s.halted && s.running && |severity| == 5 && |code| == 5
    requires var chunk := ErrorPacket(severity, code, more) + behind;
             && |chunk| <= |s.memory| && Taken(writes) >= |chunk|
             && Step(s.tracing, Call(Server, chunk)).failed.None?
    ensures var chunk := ErrorPacket(severity, code, more) + behind;
            var t := OnServer(s, Received(chunk), writes);
            && !t.halted && t.clientOut == s.clientOut + Mark(chunk)
            && (!t.running <==> (Spells(severity, "FATAL") || Spells(severity, "PANIC")) && !Spells(code, "0A000"))
            && t.exitCode == if t.running then s.exitCode else 4
  {
    hide ErrorPacket, Step, Deliver, LooksOutside, IsFatal, Spells, Mark;
    var p := ErrorPacket(severity, code, more);
    var chunk := p + behind;
    ErrorLayout(severity, code, more);
    SentIsTaken(|chunk|, 0, writes);
    OkMeansAll(|chunk|, 0, writes);
    var memory := chunk + s.memory[|chunk|..];
    assert memory[6..11] == p[6..11] && memory[20..25] == p[20..25];
    SeverityIsText(memory, severity, code);
    assert chunk[..|chunk|] == chunk && chunk[0] == 'E' as int;
  }

  /** Any other read of the server that is passed on in full leaves the worker running. */
  lemma OthersGoOn(s: State, chunk: seq<Byte>, writes: seq<WriteResult>)
    requires !s.halted && chunk != [] && chunk[0] != 'E' as int && |chunk| <= |s.memory| && Taken(writes) >= |chunk|
    requires Step(s.tracing, Call(Server, chunk)).failed.None?
    ensures var t := OnServer(s, Received(chunk), writes);
            !t.halted && t.running == s.running && t.exitCode == s.exitCode && t.clientOut == s.clientOut + Mark(chunk)
  {
    hide Step, Deliver, LooksOutside, IsFatal, Mark;
    SentIsTaken(|chunk|, 0, writes);
    OkMeansAll(|chunk|, 0, writes);
    assert chunk[..|chunk|] == chunk;
  }

  /** A read of the client that is passed on in full ends the worker exactly when it begins with a Terminate, and the
      worker then reports success. */
  lemma TerminateEnds(s: State, chunk: seq<Byte>, writes: seq<WriteResult>, refusals: seq<seq<WriteResult>>, spins: nat)
    requires !s.halted && s.running && 0 < |chunk| <= |s.memory| && Taken(writes) >= |chunk|
    requires var a := Protocol.Lasting(s.tracing.buffer + chunk, refusals, spins); !a.stuck && a.drained.failed.None?
    ensures var t := OnClient(s, Received(chunk), writes, refusals, spins);
            && !t.halted && t.serverOut == s.serverOut + chunk
            && (!t.running <==> chunk[0] == 'X' as int)
            && t.exitCode == if t.running then s.exitCode else 0
  {
    hide Deliver, Protocol.Lasting;
    SentIsTaken(|chunk|, 0, writes);
    OkMeansAll(|chunk|, 0, writes);
    assert chunk[..|chunk|] == chunk;
  }

  /** How a worker reports what went wrong: 2 for the client's socket, 3 for the server's, and 1, as it started, when
      the server has closed its side or a signal ends the worker. */
  lemma ExitCodes(s: State, memory: seq<Byte>, chunk: seq<Byte>, writes: seq<WriteResult>,
                  refusals: seq<seq<WriteResult>>, spins: nat)
    requires s == Init(memory) && 0 < |chunk| <= |memory| && Taken(writes) < |chunk| && Broken in writes
    ensures var t := OnQuit(s); !t.running && t.exitCode == 1
    ensures var t := OnClient(s, ReadFailed, writes, refusals, spins); !t.running && t.exitCode == 2
    ensures var t := OnClient(s, Received([]), writes, refusals, spins); !t.running && t.exitCode == 2
    ensures var t := OnServer(s, ReadFailed, writes); !t.running && t.exitCode == 3
    ensures var t := OnServer(s, Received([]), writes); !t.running && t.exitCode == 1
    ensures var t := OnClient(s, Received(chunk), writes, refusals, spins);
            t.halted || (!t.running && t.exitCode == 3 && t.serverOut == chunk[..Taken(writes)])
    ensures var t := OnServer(s, Received(chunk), writes);
            t.halted || (!t.running && t.exitCode == 2 && t.clientOut == Mark(chunk[..Taken(writes)]))
  {
    hide Deliver, Protocol.Lasting, Step, LooksOutside, IsFatal, Mark;
    SentIsTaken(|chunk|, 0, writes);
    assert chunk[..|chunk|] == chunk;
    assert [] + chunk[..Taken(writes)] == chunk[..Taken(writes)];
    assert [] + Mark(chunk[..Taken(writes)]) == Mark(chunk[..Taken(writes)]);
  }

  // ---------------------------------------------------------------- runs

  /** A new turn of the event loop, one of the two callbacks with what its sockets do, or the signal that ends
      the worker. */
  datatype Event =
    | Turn
    | ClientReady(read: ReadResult, writes: seq<WriteResult>, refusals: seq<seq<WriteResult>>, spins: nat)
    | ServerReady(read: ReadResult, writes: seq<WriteResult>)
    | Quit

  /** The event loop turns while `running` is set, and in one turn each callback runs at most once;
      so the other callback may still run in the turn in which one cleared `running`. */
  predicate Enabled(s: State, e: Event) {
    !s.halted &&
    match e
    case Turn => s.running
    case ClientReady(_, _, _, _) => !s.clientFired
    case ServerReady(_, _) => !s.serverFired
    case Quit => true
  }

  function Apply(s: State, e: Event): State {
    match e
    case Turn => s.(clientFired := false, serverFired := false)
    case ClientReady(r, w, f, n) => OnClient(s, r, w, f, n)
    case ServerReady(r, w) => OnServer(s, r, w)
    case Quit => OnQuit(s)
  }

  predicate IsRun(memory: seq<Byte>, events: seq<Event>) {
    events == [] ||
    (IsRun(memory, events[..|events| - 1]) && Enabled(After(memory, events[..|events| - 1]), events[|events| - 1]))
  }

  function After(memory: seq<Byte>, events: seq<Event>): State {
    if events == [] then Init(memory)
    else Apply(After(memory, events[..|events| - 1]), events[|events| - 1])
  }

  // ---------------------------------------------------------------- what every run keeps

  /** The trace is of the bytes read. Only a refusal whose write has not come back leaves it in between. */
  predicate TraceIsOf(s: State) {
    s.tracing == Shared(s.calls) || (s.halted && s.tracing.log <= Shared(s.calls).log)
  }

  /** Nothing is lost, changed, repeated or reordered on the way, in either direction; while a direction
      can still go on, nothing is missing in it either; and the trace is of exactly the bytes read. */
  predicate Inv(s: State) {
    && s.serverOut <= s.clientIn
    && RelayedBytes(s.clientOut) <= s.serverIn
    && (!s.halted && (s.running || !s.clientFired) ==> s.serverOut == s.clientIn)
    && (!s.halted && (s.running || !s.serverFired) ==> RelayedBytes(s.clientOut) == s.serverIn)
    && TraceIsOf(s)
    && Flatten(SideChunks(s.calls, Client)) == s.clientIn
    && Flatten(SideChunks(s.calls, Server)) == s.serverIn
    && (!s.halted ==> s.tracing.failed.None?)
    && (s.running ==> s.exitCode == FAILURE)
  }

  lemma {:induction false} RelayedOfMark(out: seq<Delivered>, s: seq<Byte>)
    ensures RelayedBytes(out + Mark(s)) == RelayedBytes(out) + s
    ensures InjectedBytes(out + Mark(s)) == InjectedBytes(out)
  {
    if s == [] {
      assert out + Mark(s) == out;
    } else {
      var front := s[..|s| - 1];
      RelayedOfMark(out, front);
      assert (out + Mark(s))[..|out + Mark(s)| - 1] == out + Mark(front);
      assert RelayedBytes(out) + front + [s[|s| - 1]] == RelayedBytes(out) + s;
    }
  }

  lemma {:induction false} RelayedOfInjected(out: seq<Delivered>, s: seq<Byte>)
    ensures RelayedBytes(out + MarkInjected(s)) == RelayedBytes(out)
    ensures InjectedBytes(out + MarkInjected(s)) == InjectedBytes(out) + s
  {
    if s == [] {
      assert out + MarkInjected(s) == out;
    } else {
      var front := s[..|s| - 1];
      RelayedOfInjected(out, front);
      assert (out + MarkInjected(s))[..|out + MarkInjected(s)| - 1] == out + MarkInjected(front);
      assert InjectedBytes(out) + front + [s[|s| - 1]] == InjectedBytes(out) + s;
    }
  }

  lemma OneMoreCall(calls: seq<Call>, side: Side, chunk: seq<Byte>)
    ensures Shared(calls + [Call(side, chunk)]) == Step(Shared(calls), Call(side, chunk))
    ensures Flatten(SideChunks(calls + [Call(side, chunk)], side)) == Flatten(SideChunks(calls, side)) + chunk
    ensures forall x :: x != side ==> SideChunks(calls + [Call(side, chunk)], x) == SideChunks(calls, x)
  {
    hide Step;
    OneMore(calls, Call(side, chunk));
    var own := SideChunks(calls, side);
    assert (own + [chunk])[..|own|] == own;
  }

  /** Between the read and the write of a callback: `chunk` is still to be sent on. */
  predicate Between(s: State, fromClient: seq<Byte>, fromServer: seq<Byte>) {
    && s.serverOut + fromClient <= s.clientIn
    && RelayedBytes(s.clientOut) + fromServer <= s.serverIn
    && (!s.halted && (fromClient != [] || s.running || !s.clientFired) ==> s.serverOut + fromClient == s.clientIn)
    && (!s.halted && (fromServer != [] || s.running || !s.serverFired)
        ==> RelayedBytes(s.clientOut) + fromServer == s.serverIn)
    && s.tracing.log <= Shared(s.calls).log
    && Flatten(SideChunks(s.calls, Client)) == s.clientIn
    && Flatten(SideChunks(s.calls, Server)) == s.serverIn
    && (s.running ==> s.exitCode == FAILURE)
  }

  /** The trace after a loop with its answers. */
  lemma AnsweringTraces(t: Tracing, chunk: seq<Byte>, refusals: seq<seq<WriteResult>>, spins: nat)
    requires t.failed.None?
    ensures var a := Protocol.Lasting(t.buffer + chunk, refusals, spins);
            var u := Step(t, Call(Client, chunk));
            && (!a.stuck ==> Protocol.Cutting(t, a) == u)
            && Protocol.Cutting(t, a).log <= u.log
  {
    hide Drain, Protocol.Lasting;
    var a, fs := Protocol.Lasting(t.buffer + chunk, refusals, spins), Drain(Client, t.buffer + chunk).frames;
    Protocol.LastingIsDraining(t.buffer + chunk, refusals, spins);
    assert a.drained.frames <= fs ==> Tag(Client, a.drained.frames) == Tag(Client, fs)[..|a.drained.frames|];
  }

  lemma ClientGotKeeps(s: State, chunk: seq<Byte>, refusals: seq<seq<WriteResult>>, spins: nat)
    requires Inv(s) && !s.halted && !s.clientFired && 0 < |chunk| <= |s.memory|
    ensures var a := Protocol.Lasting(s.tracing.buffer + chunk, refusals, spins);
            var t := ClientGot(s.(clientFired := true), chunk, a);
            Between(t, chunk, []) && (!a.stuck ==> t.tracing == Shared(t.calls))
  {
    hide Step, Shared, Protocol.Lasting, Protocol.Cutting;
    var a := Protocol.Lasting(s.tracing.buffer + chunk, refusals, spins);
    AnsweringTraces(s.tracing, chunk, refusals, spins);
    OneMoreCall(s.calls, Client, chunk);
    RelayedOfInjected(s.clientOut, a.sent);
    assert RelayedBytes(s.clientOut) + [] == RelayedBytes(s.clientOut);
  }

  lemma ClientPutKeeps(s: State, chunk: seq<Byte>, writes: seq<WriteResult>)
    requires Between(s, chunk, []) && !s.halted && s.clientFired && chunk != []
    requires s.tracing.failed.None? && s.tracing == Shared(s.calls)
    ensures Inv(ClientPut(s, chunk, writes))
  {
    hide Shared, Deliver, RelayedBytes, SideChunks, Flatten;
    OkMeansAll(|chunk|, 0, writes);
    var d := Deliver(|chunk|, 0, writes);
    assert s.serverOut + chunk[..d.sent] <= s.serverOut + chunk;
    assert RelayedBytes(s.clientOut) + [] == RelayedBytes(s.clientOut);
  }

  lemma ClientStuckKeeps(s: State, chunk: seq<Byte>)
    requires Between(s, chunk, [])
    ensures Inv(s.(halted := true))
  {
    hide Shared;
    assert s.serverOut <= s.serverOut + chunk;
    assert RelayedBytes(s.clientOut) + [] == RelayedBytes(s.clientOut);
  }

  lemma ClientKeepsInv(s: State, r: ReadResult, writes: seq<WriteResult>, refusals: seq<seq<WriteResult>>,
                       spins: nat)
    requires Inv(s) && !s.halted && !s.clientFired
    ensures Inv(OnClient(s, r, writes, refusals, spins))
  {
    if r.Received? && Min(|r.bytes|, |s.memory|) > 0 {
      hide Between, Inv, Protocol.Lasting, ClientGot, ClientPut, Shared;
      var chunk := r.bytes[..Min(|r.bytes|, |s.memory|)];
      var a := Protocol.Lasting(s.tracing.buffer + chunk, refusals, spins);
      ClientGotKeeps(s, chunk, refusals, spins);
      var t := ClientGot(s.(clientFired := true), chunk, a);
      GotGoesOn(s, chunk, a);
      if a.stuck || t.tracing.failed.Some? {
        ClientStuckKeeps(t, chunk);
      } else {
        ClientPutKeeps(t, chunk, writes);
      }
    }
  }

  lemma GotGoesOn(s: State, chunk: seq<Byte>, a: Protocol.Answered)
    requires |chunk| <= |s.memory| && !s.halted
    ensures var t := ClientGot(s.(clientFired := true), chunk, a); !t.halted && t.clientFired
    ensures var t := ServerGot(s.(serverFired := true), chunk); !t.halted && t.serverFired
  {
  }

  lemma ServerGotKeeps(s: State, chunk: seq<Byte>)
    requires Inv(s) && !s.halted && !s.serverFired && 0 < |chunk| <= |s.memory|
    ensures var t := ServerGot(s.(serverFired := true), chunk); Between(t, [], chunk) && t.tracing == Shared(t.calls)
  {
    hide Step, Shared;
    OneMoreCall(s.calls, Server, chunk);
    assert s.serverOut + [] == s.serverOut;
  }

  lemma ServerPutKeeps(s: State, chunk: seq<Byte>, writes: seq<WriteResult>)
    requires Between(s, [], chunk) && !s.halted && s.serverFired && chunk != []
    requires s.tracing.failed.None? && s.tracing == Shared(s.calls)
    ensures Inv(ServerPut(s, chunk, writes))
  {
    hide Shared, Deliver, IsFatal, LooksOutside, RelayedBytes, Mark, SideChunks, Flatten;
    OkMeansAll(|chunk|, 0, writes);
    var d := Deliver(|chunk|, 0, writes);
    RelayedOfMark(s.clientOut, chunk[..d.sent]);
    assert RelayedBytes(s.clientOut) + chunk[..d.sent] <= RelayedBytes(s.clientOut) + chunk;
    assert s.serverOut + [] == s.serverOut;
  }

  lemma ServerStuckKeeps(s: State, chunk: seq<Byte>)
    requires Between(s, [], chunk)
    ensures Inv(s.(halted := true))
  {
    hide Shared;
    assert RelayedBytes(s.clientOut) <= RelayedBytes(s.clientOut) + chunk;
    assert s.serverOut + [] == s.serverOut;
  }

  lemma ServerKeepsInv(s: State, r: ReadResult, writes: seq<WriteResult>)
    requires Inv(s) && !s.halted && !s.serverFired
    ensures Inv(OnServer(s, r, writes))
  {
    if r.Received? && Min(|r.bytes|, |s.memory|) > 0 {
      hide Between, Inv, ServerGot, ServerPut, Step;
      var chunk := r.bytes[..Min(|r.bytes|, |s.memory|)];
      ServerGotKeeps(s, chunk);
      var t := ServerGot(s.(serverFired := true), chunk);
      GotGoesOn(s, chunk, Protocol.Answered(Drained([], [], None), [], false, 0));
      if t.tracing.failed.Some? {
        ServerStuckKeeps(t, chunk);
      } else {
        ServerPutKeeps(t, chunk, writes);
      }
    }
  }

  lemma {:induction false} EveryRunKeepsInv(memory: seq<Byte>, events: seq<Event>)
    requires IsRun(memory, events)
    ensures Inv(After(memory, events))
  {
    hide Inv;
    if events == [] {
      InitInv(memory);
    } else {
      var before, e := events[..|events| - 1], events[|events| - 1];
      EveryRunKeepsInv(memory, before);
      var s := After(memory, before);
      match e
      case Turn => TurnKeepsInv(s);
      case ClientReady(r, w, f, n) => ClientKeepsInv(s, r, w, f, n);
      case ServerReady(r, w) => ServerKeepsInv(s, r, w);
      case Quit => QuitKeepsInv(s);
    }
  }

  lemma InitInv(memory: seq<Byte>)
    ensures Inv(Init(memory))
  {
  }

  lemma QuitKeepsInv(s: State)
    requires Inv(s)
    ensures Inv(OnQuit(s))
  {
  }

  lemma TurnKeepsInv(s: State)
    requires Inv(s) && s.running
    ensures Inv(s.(clientFired := false, serverFired := false))
  {
  }

  /**
   The proxy is transparent. In every run, against any short, stalled or failed reads and writes, what the
   server got is a prefix of what the client sent, and what the client got, refusals aside, is a prefix
   of what the server sent; between the callbacks of a running worker both are complete. The trace is
   that of the bytes read.
   */
  lemma ProxyIsTransparent(memory: seq<Byte>, events: seq<Event>)
    requires IsRun(memory, events)
    ensures var s := After(memory, events);
            && s.serverOut <= s.clientIn && RelayedBytes(s.clientOut) <= s.serverIn
            && (s.running && !s.halted ==> s.serverOut == s.clientIn && RelayedBytes(s.clientOut) == s.serverIn)
            && TraceIsOf(s) && (!s.halted ==> s.tracing == Shared(s.calls))
            && Flatten(SideChunks(s.calls, Client)) == s.clientIn
            && Flatten(SideChunks(s.calls, Server)) == s.serverIn
  {
    EveryRunKeepsInv(memory, events);
  }

  // ---------------------------------------------------------------- refusals

  /** How many protocol version 2 requests the calls of a run have answered. */
  function Asked(calls: seq<Call>): nat {
    if calls == [] then 0
    else
      var before, last := calls[..|calls| - 1], calls[|calls| - 1];
      Asked(before) + if last.side.Client? then Protocol.Refusals(Client, Shared(before).buffer + last.chunk) else 0
  }

  /** The last read of a run left the loop spinning on a request. */
  predicate SpinsOnRequest(calls: seq<Call>) {
    var t := Shared(calls);
    t.failed == Some(Spin) && Protocol.AsksProtocol2(Client, t.buffer)
  }

  /** How many more rounds the calls of a run have been seen to spin for. */
  function Spun(events: seq<Event>): nat {
    if events == [] then 0
    else
      var last := events[|events| - 1];
      Spun(events[..|events| - 1]) + if last.ClientReady? then last.spins else 0
  }

  /** The bytes added towards the client, `spun` rounds of spinning aside, are at most 21 for each request. */
  predicate InjectionInv(s: State, spun: nat) {
    && |InjectedBytes(s.clientOut)| <= 21 * (Asked(s.calls) + spun)
    && (!SpinsOnRequest(s.calls) ==> |InjectedBytes(s.clientOut)| <= 21 * Asked(s.calls))
    && (!s.halted ==> !SpinsOnRequest(s.calls))
    && (Asked(s.calls) == 0 ==> InjectedBytes(s.clientOut) == [])
  }

  /** In every run at most 21 bytes are added towards the client for each request for protocol version 2 and for
      each further round of a loop that spins on one; for each request alone, unless the run ends in a loop
      that spins on one. */
  lemma {:induction false} InjectionsAreAnswers(memory: seq<Byte>, events: seq<Event>)
    requires IsRun(memory, events)
    ensures InjectionInv(After(memory, events), Spun(events))
  {
    hide Inv, InjectionInv;
    if events == [] {
      InitInjects(memory);
    } else {
      var before, e := events[..|events| - 1], events[|events| - 1];
      InjectionsAreAnswers(memory, before);
      EveryRunKeepsInv(memory, before);
      var s := After(memory, before);
      match e
      case Turn => NothingInjected(s, Apply(s, e), Spun(before));
      case Quit => NothingInjected(s, Apply(s, e), Spun(before));
      case ClientReady(r, w, f, n) => ClientInjects(s, Spun(before), r, w, f, n);
      case ServerReady(r, w) => ServerInjectsNothing(s, Spun(before), r, w);
    }
  }

  lemma InitInjects(memory: seq<Byte>)
    ensures InjectionInv(Init(memory), 0)
  {
  }

  lemma NothingInjected(s: State, t: State, spun: nat)
    requires InjectionInv(s, spun) && (s.halted ==> t.halted)
    requires t.clientOut == s.clientOut && t.calls == s.calls
    ensures InjectionInv(t, spun)
  {
  }

  lemma ClientPutSendsToServer(t: State, chunk: seq<Byte>, writes: seq<WriteResult>)
    requires chunk != []
    ensures var u := ClientPut(t, chunk, writes); u.clientOut == t.clientOut && u.calls == t.calls
  {
  }

  lemma ClientGotInjects(s: State, spun: nat, chunk: seq<Byte>, refusals: seq<seq<WriteResult>>, spins: nat)
    requires |chunk| <= |s.memory| && !s.halted && s.tracing == Shared(s.calls) && s.tracing.failed.None?
    requires InjectionInv(s, spun)
    ensures var a := Protocol.Lasting(s.tracing.buffer + chunk, refusals, spins);
            var t := ClientGot(s, chunk, a);
            && InjectionInv(t.(halted := true), spun + spins)
            && (!a.stuck && t.tracing.failed.None? ==> InjectionInv(t, spun + spins))
  {
    hide Shared, Drain, Protocol.Refusals, Protocol.Lasting, Protocol.AsksProtocol2;
    var b := s.tracing.buffer + chunk;
    var a := Protocol.Lasting(b, refusals, spins);
    Protocol.LastingIsDraining(b, refusals, spins);
    RelayedOfInjected(s.clientOut, a.sent);
    OneMore(s.calls, Call(Client, chunk));
    AskedNext(s.calls, chunk);
    Protocol.SpinsAreCounted(b);
  }

  lemma AskedNext(calls: seq<Call>, chunk: seq<Byte>)
    ensures Asked(calls + [Call(Client, chunk)])
         == Asked(calls) + Protocol.Refusals(Client, Shared(calls).buffer + chunk)
  {
    hide Shared, Protocol.Refusals;
    assert (calls + [Call(Client, chunk)])[..|calls|] == calls;
  }

  lemma ClientInjects(s: State, spun: nat, r: ReadResult, writes: seq<WriteResult>, refusals: seq<seq<WriteResult>>,
                      spins: nat)
    requires Inv(s) && !s.halted && InjectionInv(s, spun)
    ensures InjectionInv(OnClient(s, r, writes, refusals, spins), spun + spins)
  {
    hide Step, Shared, ClientPut, ClientGot, Protocol.Lasting, Protocol.Refusals, Asked, InjectedBytes, SpinsOnRequest;
    if r.Received? && Min(|r.bytes|, |s.memory|) > 0 {
      var chunk := r.bytes[..Min(|r.bytes|, |s.memory|)];
      var a := Protocol.Lasting(s.tracing.buffer + chunk, refusals, spins);
      var t := ClientGot(s.(clientFired := true), chunk, a);
      ClientGotInjects(s.(clientFired := true), spun, chunk, refusals, spins);
      ClientPutSendsToServer(t, chunk, writes);
      GotGoesOn(s, chunk, a);
      if a.stuck || t.tracing.failed.Some? {
        assert OnClient(s, r, writes, refusals, spins) == t.(halted := true);
      } else {
        NothingInjected(t, ClientPut(t, chunk, writes), spun + spins);
      }
    }
  }

  lemma ServerPutInjectsNothing(t: State, chunk: seq<Byte>, writes: seq<WriteResult>)
    requires chunk != []
    ensures var u := ServerPut(t, chunk, writes);
            InjectedBytes(u.clientOut) == InjectedBytes(t.clientOut) && u.calls == t.calls
  {
    hide Deliver, IsFatal, LooksOutside, InjectedBytes, RelayedBytes, Mark;
    RelayedOfMark(t.clientOut, chunk[..Deliver(|chunk|, 0, writes).sent]);
  }

  lemma ServerGotInjects(s: State, spun: nat, chunk: seq<Byte>)
    requires |chunk| <= |s.memory| && !s.halted && s.tracing == Shared(s.calls) && s.tracing.failed.None?
    requires InjectionInv(s, spun)
    ensures InjectionInv(ServerGot(s, chunk), spun)
  {
    hide Step, Shared, Protocol.Refusals, InjectedBytes, Protocol.AsksProtocol2;
    OneMore(s.calls, Call(Server, chunk));
    assert (s.calls + [Call(Server, chunk)])[..|s.calls|] == s.calls;
    ServerSpinsOnPackets(s.tracing, chunk);
  }

  lemma SameInjections(s: State, t: State, spun: nat)
    requires InjectionInv(s, spun) && InjectedBytes(t.clientOut) == InjectedBytes(s.clientOut)
    requires t.calls == s.calls && (s.halted ==> t.halted)
    ensures InjectionInv(t, spun)
  {
  }

  /** The server's side adds nothing, and does not leave a request for the client's loop to spin on. */
  lemma ServerInjectsNothing(s: State, spun: nat, r: ReadResult, writes: seq<WriteResult>)
    requires Inv(s) && !s.halted && InjectionInv(s, spun)
    ensures InjectionInv(OnServer(s, r, writes), spun)
  {
    hide Shared, ServerGot, ServerPut, InjectionInv, InjectedBytes;
    var fired := s.(serverFired := true);
    SameInjections(s, fired, spun);
    if r.Received? && Min(|r.bytes|, |s.memory|) > 0 {
      var chunk := r.bytes[..Min(|r.bytes|, |s.memory|)];
      var t := ServerGot(fired, chunk);
      ServerGotInjects(fired, spun, chunk);
      GotGoesOn(s, chunk, Protocol.Answered(Drained([], [], None), [], false, 0));
      ServerPutInjectsNothing(t, chunk, writes);
      SameInjections(t, t.(halted := true), spun);
      SameInjections(t, ServerPut(t, chunk, writes), spun);
    } else {
      SameInjections(fired, OnServer(s, r, writes), spun);
    }
  }

  /** The server's loop only spins on a packet with a kind. */
  lemma ServerSpinsOnPackets(t: Tracing, chunk: seq<Byte>)
    requires t.failed.None?
    ensures var u := Step(t, Call(Server, chunk));
            u.failed == Some(Spin) ==> !Protocol.AsksProtocol2(Client, u.buffer)
  {
    hide Drain, Int32At;
    var b := t.buffer + chunk;
    if Drain(Server, b).failed == Some(Spin) {
      FailureIsAtRest(Server, b);
    }
  }

  /** Without protocol version 2 requests nothing is added on the way to the client: it gets exactly what
      the server sent, as far as it got. */
  lemma NothingIsInjected(memory: seq<Byte>, events: seq<Event>)
    requires IsRun(memory, events) && Asked(After(memory, events).calls) == 0
    ensures var s := After(memory, events);
            && s.clientOut == Mark(RelayedBytes(s.clientOut))
            && (s.running && !s.halted ==> s.clientOut == Mark(s.serverIn))
  {
    var s := After(memory, events);
    InjectionsAreAnswers(memory, events);
    EveryRunKeepsInv(memory, events);
    AllRelayed(s.clientOut);
  }

  lemma {:induction false} AllRelayed(out: seq<Delivered>)
    requires InjectedBytes(out) == []
    ensures out == Mark(RelayedBytes(out))
  {
    if out != [] {
      var front, last := out[..|out| - 1], out[|out| - 1];
      AllRelayed(front);
      assert out == front + [last];
      assert Mark(RelayedBytes(front) + [last.b]) == Mark(RelayedBytes(front)) + [last];
    }
  }

  /** A request for protocol version 2 with length 0. */
  const EMPTY_REQUEST: seq<Byte> := [0, 0, 0, 0, 0, 2, 0, 0]

  /** A worker with eight bytes of memory whose first read is this request. */
  lemma EmptyRequestRun(results: seq<seq<WriteResult>>, n: nat)
    ensures var events := [ClientReady(Received(EMPTY_REQUEST), [], results, n)];
            var a := Protocol.Lasting(EMPTY_REQUEST, results, n);
            var s := Init(Zeros(8)).(clientFired := true);
            IsRun(Zeros(8), events) && After(Zeros(8), events) == ClientGot(s, EMPTY_REQUEST, a).(halted := true)
  {
    hide Protocol.Lasting, Protocol.Cutting, Shared, Deliver;
    var request := EMPTY_REQUEST;
    var event := ClientReady(Received(request), [], results, n);
    Protocol.EmptyRequestSpins();
    Protocol.LastingIsDraining(request, results, n);
    assert [event][..0] == [] && After(Zeros(8), []) == Init(Zeros(8)) && IsRun(Zeros(8), []);
    assert request[..8] == request && [] + request == request;
    assert Protocol.Cutting(Init(Zeros(8)).tracing, Protocol.Lasting(request, results, n)).failed
        == Protocol.Lasting(request, results, n).drained.failed by {
      CuttingFails(Init(Zeros(8)).tracing, Protocol.Lasting(request, results, n));
    }
  }

  lemma CuttingFails(t: Tracing, a: Protocol.Answered)
    ensures Protocol.Cutting(t, a).failed == a.drained.failed
  {
  }

  lemma FirstRead(s: State, chunk: seq<Byte>, a: Protocol.Answered)
    requires |chunk| <= |s.memory| && s.calls == [] && s.clientOut == []
    ensures ClientGot(s, chunk, a).calls == [Call(Client, chunk)]
    ensures ClientGot(s, chunk, a).clientOut == MarkInjected(a.sent)
  {
    hide MarkInjected, Protocol.Cutting;
    assert [] + [Call(Client, chunk)] == [Call(Client, chunk)] && [] + MarkInjected(a.sent) == MarkInjected(a.sent);
  }

  lemma FirstAsked(chunk: seq<Byte>)
    ensures Asked([Call(Client, chunk)]) == Protocol.Refusals(Client, chunk)
  {
    hide Protocol.Refusals, Shared, Asked;
    NothingShared();
    AskedNext([], chunk);
    assert [] + [Call(Client, chunk)] == [Call(Client, chunk)] && [] + chunk == chunk;
  }

  lemma FirstInjected(s: seq<Byte>)
    ensures InjectedBytes(MarkInjected(s)) == s
  {
    RelayedOfInjected([], s);
    assert [] + MarkInjected(s) == MarkInjected(s) && [] + s == s;
  }

  lemma EmptyRequestIsAnswered(results: seq<seq<WriteResult>>, n: nat)
    ensures var t := After(Zeros(8), [ClientReady(Received(EMPTY_REQUEST), [], results, n)]);
            Asked(t.calls) == 1 && |InjectedBytes(t.clientOut)| == |Protocol.Lasting(EMPTY_REQUEST, results, n).sent|
  {
    hide Protocol.Lasting, Protocol.Refusals, InjectedBytes, MarkInjected, ClientGot, IsRun, After, Asked;
    var a := Protocol.Lasting(EMPTY_REQUEST, results, n);
    Protocol.EmptyRequestSpins();
    EmptyRequestRun(results, n);
    FirstRead(Init(Zeros(8)).(clientFired := true), EMPTY_REQUEST, a);
    FirstAsked(EMPTY_REQUEST);
    FirstInjected(a.sent);
  }

  /** The other half: a client that sends an empty request as its first eight bytes gets 21 bytes in every round
      of the loop that spins on it. */
  lemma EmptyRequestIsAnsweredForever(n: nat)
    ensures exists events :: IsRun(Zeros(8), events) && Asked(After(Zeros(8), events).calls) == 1
                             && |InjectedBytes(After(Zeros(8), events).clientOut)| == 21 * (1 + n)
  {
    hide Protocol.Lasting, Protocol.Refusals, Protocol.SpinsOnRequest, InjectedBytes, Asked, IsRun, After;
    Protocol.EmptyRequestSpins();
    Protocol.SpinningRefusesForever(EMPTY_REQUEST, n);
    var results :| |Protocol.Lasting(EMPTY_REQUEST, results, n).sent|
                   == 21 * (Protocol.Refusals(Client, EMPTY_REQUEST) + n);
    EmptyRequestIsAnswered(results, n);
    EmptyRequestRun(results, n);
    assert IsRun(Zeros(8), [ClientReady(Received(EMPTY_REQUEST), [], results, n)]);
  }

  lemma NothingShared()
    ensures Shared([]) == Tracing([], [], None) && Asked([]) == 0 && InjectedBytes([]) == []
  {
  }

  // ---------------------------------------------------------------- the counters

  /** The counters of a worker are its traffic, in the width of their fields. */
  predicate TallyInv(s: State) {
    && s.tally.sentMessages == |SideChunks(s.calls, Client)| % 0x1_0000_0000
    && s.tally.sentBytes == |s.clientIn| % 0x1_0000_0000_0000_0000
    && s.tally.rcvdMessages == |SideChunks(s.calls, Server)| % 0x1_0000_0000
    && s.tally.rcvdBytes == |s.serverIn| % 0x1_0000_0000_0000_0000
  }

  lemma GotKeepsTally(s: State, chunk: seq<Byte>, a: Protocol.Answered)
    requires TallyInv(s) && |chunk| <= |s.memory|
    ensures TallyInv(ClientGot(s, chunk, a)) && TallyInv(ServerGot(s, chunk))
  {
    hide Step, Protocol.Cutting, MarkInjected;
    OneMore(s.calls, Call(Client, chunk));
    OneMore(s.calls, Call(Server, chunk));
    Counters.AddModulo(|SideChunks(s.calls, Client)|, 1, Counters.UINT32_RANGE);
    Counters.AddModulo(|SideChunks(s.calls, Server)|, 1, Counters.UINT32_RANGE);
    Counters.AddModulo(|s.clientIn|, |chunk|, Counters.UINT64_RANGE);
    Counters.AddModulo(|s.serverIn|, |chunk|, Counters.UINT64_RANGE);
  }

  lemma PutKeepsTally(s: State, chunk: seq<Byte>, writes: seq<WriteResult>)
    requires TallyInv(s) && chunk != []
    ensures TallyInv(ClientPut(s, chunk, writes)) && TallyInv(ServerPut(s, chunk, writes))
  {
    hide Deliver, IsFatal, LooksOutside, SideChunks;
  }

  lemma HaltingKeepsTally(s: State)
    requires TallyInv(s)
    ensures TallyInv(s.(halted := true)) && TallyInv(s.(clientFired := true)) && TallyInv(s.(serverFired := true))
    ensures TallyInv(s.(clientFired := false, serverFired := false)) && TallyInv(OnQuit(s))
    ensures forall code :: TallyInv(Stop(s.(clientFired := true), code))
                           && TallyInv(Stop(s.(serverFired := true), code))
  {
  }

  lemma CallbacksKeepTally(s: State, r: ReadResult, writes: seq<WriteResult>, refusals: seq<seq<WriteResult>>,
                           spins: nat)
    requires TallyInv(s)
    ensures TallyInv(OnClient(s, r, writes, refusals, spins)) && TallyInv(OnServer(s, r, writes))
  {
    hide TallyInv, ClientGot, ServerGot, ClientPut, ServerPut, Stop, Protocol.Lasting;
    HaltingKeepsTally(s);
    if r.Received? && Min(|r.bytes|, |s.memory|) > 0 {
      var chunk := r.bytes[..Min(|r.bytes|, |s.memory|)];
      var a := Protocol.Lasting(s.tracing.buffer + chunk, refusals, spins);
      var c, v := s.(clientFired := true), s.(serverFired := true);
      GotKeepsTally(c, chunk, a);
      GotKeepsTally(v, chunk, a);
      HaltingKeepsTally(ClientGot(c, chunk, a));
      HaltingKeepsTally(ServerGot(v, chunk));
      PutKeepsTally(ClientGot(c, chunk, a), chunk, writes);
      PutKeepsTally(ServerGot(v, chunk), chunk, writes);
    }
  }

  /** In every run the counters hold the number of reads and of bytes of each direction, modulo the width of
      their fields. */
  lemma {:induction false} CountersAreTraffic(memory: seq<Byte>, events: seq<Event>)
    requires IsRun(memory, events)
    ensures TallyInv(After(memory, events))
  {
    hide TallyInv;
    if events == [] {
      InitTally(memory);
    } else {
      var before, e := events[..|events| - 1], events[|events| - 1];
      CountersAreTraffic(memory, before);
      var s := After(memory, before);
      match e
      case Turn => HaltingKeepsTally(s);
      case ClientReady(r, w, f, n) => CallbacksKeepTally(s, r, w, f, n);
      case ServerReady(r, w) => CallbacksKeepTally(s, r, w, [], 0);
      case Quit => HaltingKeepsTally(s);
    }
  }

  lemma InitTally(memory: seq<Byte>)
    ensures TallyInv(Init(memory))
  {
  }
}
