/** The two callbacks of pipeline.c on the worker's globals, its message memory and its tracer. */
module Pipeline {
  import opened Bytes
  import opened Framing
  import opened SharedStream
  import opened Writing
  import opened Forwarding
  import Counters
  import Protocol

  datatype ReadStatus = ReadOk | ReadZero | ReadError

  class Worker {
    var running: bool
    var exitCode: int
    const clientFd: int
    const serverFd: int
    const memory: array<Byte>
    const tracer: Protocol.Tracer
    const counter: Counters.EventCounter

    // what the sockets have seen, and the state of the event loop
    ghost var halted: bool
    ghost var clientIn: seq<Byte>
    ghost var serverOut: seq<Byte>
    ghost var serverIn: seq<Byte>
    ghost var clientOut: seq<Delivered>
    ghost var calls: seq<Call>
    ghost var clientFired: bool
    ghost var serverFired: bool

    ghost predicate Valid()
      reads this, tracer
    {
      tracer.Valid() && tracer.data != memory
    }

    ghost function View(): State
      reads this, memory, tracer, tracer.data, counter
    {
      State(running, exitCode, halted, memory[..], tracer.View(), counter.Values(),
            clientIn, serverOut, serverIn, clientOut, calls, clientFired, serverFired)
    }

    /** A worker as `pgprtdbg_worker` sets it up. The message memory has the configured buffer size. */
    constructor (clientFd: int, serverFd: int, bufferSize: nat, sockets: bool, counter: Counters.EventCounter)
      requires counter.Values() == Counters.ZERO
      ensures Valid() && View() == Init(Zeros(bufferSize)) && this.counter == counter
      ensures this.clientFd == clientFd && this.serverFd == serverFd
      ensures tracer.sockets == sockets && tracer.output == []
      ensures fresh(memory) && fresh(tracer)
    {
      this.clientFd, this.serverFd, this.counter := clientFd, serverFd, counter;
      running, exitCode := true, FAILURE;
      memory := new Byte[bufferSize](_ => 0);
      tracer := new Protocol.Tracer(sockets);
      halted, clientFired, serverFired := false, false, false;
      clientIn, serverOut, serverIn, clientOut, calls := [], [], [], [], [];
    }

    /** `read_message` on a non-blocking socket: the bytes land at the start of the memory, what is behind
        them stays; a read that brings nothing clears the memory. */
    method ReadMessage(r: ReadResult) returns (status: ReadStatus, n: nat)
      modifies memory
      ensures match r
              case ReadFailed => status == ReadError
              case Received(bytes) => n == Min(|bytes|, memory.Length) && status == if n > 0 then ReadOk else ReadZero
      ensures if status.ReadOk? then memory[..] == r.bytes[..n] + old(memory[n..]) && n <= memory.Length
              else memory[..] == Zeros(memory.Length)
    {
      n := 0;
      match r
      case ReadFailed =>
        status := ReadError;
        MemoryFree();
      case Received(bytes) =>
        n := Min(|bytes|, memory.Length);
        if n > 0 {
          forall i | 0 <= i < n {
            memory[i] := bytes[i];
          }
          status := ReadOk;
        } else {
          status := ReadZero;
          MemoryFree();
        }
    }

    /** `pgprtdbg_memory_free`. */
    method MemoryFree()
      modifies memory
      ensures memory[..] == Zeros(memory.Length)
    {
      forall i | 0 <= i < memory.Length {
        memory[i] := 0;
      }
    }

    /** The bytes just read are traced and counted, and requests for protocol version 2 are refused. */
    method TraceClient(n: nat, ghost chunk: seq<Byte>, refusals: seq<seq<WriteResult>>, spins: nat)
      returns (stuck: bool)
      requires Valid() && tracer.failed.None? && 0 < n <= memory.Length && memory[..n] == chunk
      modifies this`clientIn, this`clientOut, this`calls, tracer, counter
      ensures Valid()
      ensures var a := Protocol.Lasting(old(tracer.Buffer()) + chunk, refusals, spins);
              && View() == ClientGot(old(View()), chunk, a) && stuck == a.stuck
              && tracer.output == old(tracer.output)
                                + Protocol.LinesOfLoop(tracer.sockets, Client, clientFd, serverFd, a.drained, spins)
    {
      hide Protocol.Lasting, Protocol.Cutting, Protocol.LinesOfLoop;
      assert chunk + memory[n..] == memory[..];
      var refused;
      refused, stuck := tracer.Client(clientFd, serverFd, memory, n, counter, refusals, spins);
      clientIn, calls := clientIn + chunk, calls + [Call(Client, chunk)];
      clientOut := clientOut + MarkInjected(refused);
    }

    method PassToServer(n: nat, ghost chunk: seq<Byte>, writes: seq<WriteResult>)
      requires Valid() && 0 < n <= memory.Length && memory[..n] == chunk
      modifies this`serverOut, this`halted, this`exitCode, this`running
      ensures Valid() && View() == ClientPut(old(View()), chunk, writes)
    {
      hide Deliver;
      assert memory[0] == chunk[0];
      var written, sent := WriteMessage(memory[..n], writes);
      assert sent == chunk[..|sent|];
      serverOut := serverOut + sent;
      match written
      case Blocked =>
        halted := true;
      case Error =>
        exitCode := SERVER_FAILURE;
        running := false;
      case Ok =>
        if SignedByte(memory[0]) == 'X' as int {
          exitCode := SUCCESS;
          running := false;
        }
    }

    method PipelineClient(r: ReadResult, writes: seq<WriteResult>, refusals: seq<seq<WriteResult>>, spins: nat)
      requires Valid() && !halted && tracer.failed.None?
      modifies this, memory, tracer, counter
      ensures Valid() && View() == OnClient(old(View()), r, writes, refusals, spins)
      ensures var n := if r.Received? then Min(|r.bytes|, memory.Length) else 0;
              tracer.output == old(tracer.output) + if n == 0 then [] else
                var a := Protocol.Lasting(old(tracer.Buffer()) + r.bytes[..n], refusals, spins);
                Protocol.LinesOfLoop(tracer.sockets, Client, clientFd, serverFd, a.drained, spins)
    {
      hide Deliver, Protocol.Lasting, Protocol.Cutting, Protocol.LinesOfLoop;
      ghost var before := View();
      clientFired := true;
      var status, n := ReadMessage(r);
      if status.ReadOk? {
        ghost var chunk := r.bytes[..n];
        assert memory[..n] == chunk;
        ghost var s := before.(clientFired := true);
        ghost var a := Protocol.Lasting(s.tracing.buffer + chunk, refusals, spins);
        assert memory[n..] == s.memory[n..];
        assert ClientGot(View(), chunk, a) == ClientGot(s, chunk, a);
        var stuck := TraceClient(n, chunk, refusals, spins);
        if stuck || tracer.failed.Some? {
          halted := true;
          return;
        }
        PassToServer(n, chunk, writes);
      } else {
        exitCode := CLIENT_FAILURE;
        running := false;
      }
    }

    /** `strncmp(msg->data + o, s, |s|)` finds no difference, or none up to the end of the memory. */
    method Compare(o: nat, s: string) returns (same: bool, outside: bool)
      requires s != ""
      ensures outside <==> Overruns(memory[..], o, s)
      ensures !outside ==> (same <==> Matches(memory[..], o, s))
    {
      var i := 0;
      while i < |s|
        invariant i <= |s| && (i == 0 || o + i <= memory.Length)
        invariant forall k :: 0 <= k < i ==> memory[o + k] == s[k] as int
      {
        if o + i >= memory.Length {
          return false, true;
        }
        if memory[o + i] != s[i] as int {
          return false, false;
        }
        i := i + 1;
      }
      same, outside := true, false;
    }

    /** The severity check on an ErrorResponse. */
    method CheckSeverity() returns (fatal: bool, outside: bool)
      ensures outside <==> LooksOutside(memory[..])
      ensures !outside ==> (fatal <==> IsFatal(memory[..]))
    {
      hide Overruns, Matches;
      fatal, outside := Compare(6, "FATAL");
      if !outside && !fatal {
        fatal, outside := Compare(6, "PANIC");
      }
      if !outside {
        var unsupported;
        unsupported, outside := Compare(20, "0A000");
        fatal := fatal && !unsupported;
      }
    }

    method TraceServer(n: nat, ghost chunk: seq<Byte>, spins: nat)
      requires Valid() && tracer.failed.None? && 0 < n <= memory.Length && memory[..n] == chunk
      modifies this`serverIn, this`calls, tracer, counter
      ensures Valid() && View() == ServerGot(old(View()), chunk)
      ensures var d := Drain(Server, old(tracer.Buffer()) + chunk);
              tracer.output == old(tracer.output)
                             + Protocol.LinesOfLoop(tracer.sockets, Server, serverFd, clientFd, d, spins)
    {
      hide Step, Drain, Protocol.LinesOfLoop;
      assert chunk + memory[n..] == memory[..];
      tracer.Server(serverFd, clientFd, memory, n, counter, spins);
      serverIn, calls := serverIn + chunk, calls + [Call(Server, chunk)];
    }

    method PassToClient(n: nat, ghost chunk: seq<Byte>, writes: seq<WriteResult>)
      requires Valid() && 0 < n <= memory.Length && memory[..n] == chunk
      modifies this`clientOut, this`halted, this`exitCode, this`running
      ensures Valid() && View() == ServerPut(old(View()), chunk, writes)
    {
      hide Deliver, IsFatal, LooksOutside, Mark;
      assert memory[0] == chunk[0];
      var written, sent := WriteMessage(memory[..n], writes);
      assert sent == chunk[..|sent|];
      clientOut := clientOut + Mark(sent);
      match written
      case Blocked =>
        halted := true;
      case Error =>
        exitCode := CLIENT_FAILURE;
        running := false;
      case Ok =>
        if SignedByte(memory[0]) == 'E' as int {
          var fatal, outside := CheckSeverity();
          if outside {
            halted := true;
          } else if fatal {
            exitCode := SERVER_FATAL;
            running := false;
          }
        }
    }

    method PipelineServer(r: ReadResult, writes: seq<WriteResult>, spins: nat)
      requires Valid() && !halted && tracer.failed.None?
      modifies this, memory, tracer, counter
      ensures Valid() && View() == OnServer(old(View()), r, writes)
      ensures var n := if r.Received? then Min(|r.bytes|, memory.Length) else 0;
              tracer.output == old(tracer.output) + if n == 0 then [] else
                var d := Drain(Server, old(tracer.Buffer()) + r.bytes[..n]);
                Protocol.LinesOfLoop(tracer.sockets, Server, serverFd, clientFd, d, spins)
    {
      hide Step, Drain, Deliver, IsFatal, LooksOutside, Protocol.LinesOfLoop;
      ghost var before := View();
      serverFired := true;
      var status, n := ReadMessage(r);
      if status.ReadOk? {
        ghost var chunk := r.bytes[..n];
        assert memory[..n] == chunk;
        ghost var s := before.(serverFired := true);
        assert memory[n..] == s.memory[n..];
        assert ServerGot(View(), chunk) == ServerGot(s, chunk);
        TraceServer(n, chunk, spins);
        if tracer.failed.Some? {
          halted := true;
          return;
        }
        PassToClient(n, chunk, writes);
      } else if status.ReadZero? {
        running := false;
      } else {
        exitCode := SERVER_FAILURE;
        running := false;
      }
    }

    /** `sigquit_cb`. */
    method SigQuit()
      requires Valid()
      modifies this`running, this`exitCode
      ensures Valid() && View() == OnQuit(old(View()))
    {
      exitCode := FAILURE;
      running := false;
    }
  }
}
