/** The tracer of one worker: the buffer that both directions share, and the two framing loops on it. */
module Protocol {
  import opened Bytes
  import opened Framing
  import opened Options
  import opened SharedStream
  import opened Writing
  import Counters
  import IntegerCodec
  import TraceLines
  import Wire

  /** `pgprtdbg_data_append`. */
  method DataAppend(data: array?<Byte>, dataSize: nat, newData: array<Byte>, newDataSize: nat)
    returns (result: array<Byte>, newSize: nat)
    requires data == null ==> dataSize == 0
    requires data != null ==> data.Length == dataSize
    requires newDataSize <= newData.Length
    ensures fresh(result) && newSize == result.Length
    ensures result[..] == (if data == null then [] else data[..]) + newData[..newDataSize]
  {
    newSize := dataSize + newDataSize;
    if data != null {
      result := new Byte[newSize](i requires 0 <= i < newSize reads data, newData =>
        if i < dataSize then data[i] else newData[i - dataSize]);
    } else {
      result := new Byte[newSize](i requires 0 <= i < newSize reads newData => newData[i]);
    }
  }

  /** `pgprtdbg_data_remove`: NULL when nothing is left. */
  method DataRemove(data: array<Byte>, dataSize: nat, removeSize: nat)
    returns (result: array?<Byte>, newSize: nat)
    requires data.Length == dataSize && removeSize <= dataSize
    ensures newSize == dataSize - removeSize
    ensures result == null <==> newSize == 0
    ensures result != null ==> fresh(result) && result[..] == data[removeSize..]
  {
    newSize := dataSize - removeSize;
    if newSize == 0 {
      result := null;
    } else {
      var rest := new Byte[newSize](i requires 0 <= i < newSize reads data => data[removeSize + i]);
      assert rest[..] == data[removeSize..];
      result := rest;
    }
  }

  /** The kind a frame is printed with. */
  function KindOf(f: Frame): int {
    if f.Lone? then SignedByte(LETTER_N) else if f.bytes == [] then 0 else SignedByte(f.bytes[0])
  }

  /** The lines that tracing the frames `fs` adds to the trace file: one for each tagged packet. */
  function LinesOf(sockets: bool, side: Side, from: int, to: int, fs: seq<Frame>): seq<string> {
    if fs == [] then []
    else
      var before := LinesOf(sockets, side, from, to, fs[..|fs| - 1]);
      var f := fs[|fs| - 1];
      if f.Tagged? then before + [TraceLines.Line(sockets, if side.Client? then 'C' else 'S', from, to, KindOf(f))]
      else before
  }

  /** The kinds of the tagged packets among `fs`, as signed characters. */
  function Kinds(fs: seq<Frame>): seq<int> {
    if fs == [] then []
    else
      var before, f := Kinds(fs[..|fs| - 1]), fs[|fs| - 1];
      if f.Tagged? then
        var first: int := if f.bytes == [] then 0 else f.bytes[0];
        before + [if first < 128 then first else first - 256]
      else before
  }

  /** The lines show, one after the other, the tagged packets among `fs`. */
  predicate AllShow(sockets: bool, ls: seq<string>, id: char, from: int, to: int, fs: seq<Frame>) {
    |ls| == |Kinds(fs)| && forall i :: 0 <= i < |ls| ==> TraceLines.Shows(sockets, ls[i], id, from, to, Kinds(fs)[i])
  }

  /** The lines of a loop show its tagged packets, in order, and nothing else. */
  lemma {:induction false} LinesShow(sockets: bool, side: Side, from: int, to: int, fs: seq<Frame>)
    requires FitsInt32(from) && FitsInt32(to)
    ensures AllShow(sockets, LinesOf(sockets, side, from, to, fs), if side.Client? then 'C' else 'S', from, to, fs)
  {
    hide TraceLines.Line, TraceLines.Shows;
    if fs != [] {
      LinesShow(sockets, side, from, to, fs[..|fs| - 1]);
      TraceLines.LineShows(sockets, if side.Client? then 'C' else 'S', from, to, KindOf(fs[|fs| - 1]));
    }
  }

  /** The line that every round of a loop writes which spins on a packet of size zero, its length being -1. */
  function SpinLines(sockets: bool, side: Side, from: int, to: int, d: Drained): seq<string> {
    if d.failed == Some(Spin) && d.rest != [] && d.rest[0] != 0
    then [TraceLines.Line(sockets, if side.Client? then 'C' else 'S', from, to, SignedByte(d.rest[0]))]
    else []
  }

  function Repeated(lines: seq<string>, n: nat): seq<string> {
    if n == 0 then [] else Repeated(lines, n - 1) + lines
  }

  /** The lines of a loop, and again `spins` times the one it spins on. */
  function LinesOfLoop(sockets: bool, side: Side, from: int, to: int, d: Drained, spins: nat): seq<string> {
    LinesOf(sockets, side, from, to, d.frames) + Repeated(SpinLines(sockets, side, from, to, d), spins + 1)
  }

  /** The next round asks for protocol version 2, which is answered with a refusal. */
  predicate AsksProtocol2(side: Side, b: seq<Byte>) {
    side.Client? && |b| >= 8 && b[0] == 0 && Int32At(b, 4) == PROTOCOL_2
  }

  /** For every code of a start-up packet: the next round answers exactly the request for protocol version 2. */
  lemma OnlyVersion2IsAnswered(length: int, code: int, c: seq<Byte>)
    requires 0 <= length < 0x100_0000 && FitsInt32(code)
    ensures AsksProtocol2(Client, Wire.StartupHeader(length, code) + c) <==> code == 2 * 65536
  {
    hide Wire.StartupHeader;
    Wire.StartupHeaderLayout(length, code, c);
  }

  /** How often the loop over `b` answers a protocol version 2 request. */
  function Refusals(side: Side, b: seq<Byte>): nat
    decreases |b|
  {
    if b == [] then 0
    else
      (if AsksProtocol2(side, b) then 1 else 0) +
      match Examine(side, b)
      case Take(f) => TakenIsPrefix(side, b); Refusals(side, b[|f.Bytes()|..])
      case _ => 0
  }

  // ---------------------------------------------------------------- the client's loop with its answers

  /** What the client's loop leaves behind, what it has sent to the client meanwhile, whether it is still inside
      one of these writes, and the number of the first result it has not used. */
  datatype Answered = Answered(drained: Drained, sent: seq<Byte>, stuck: bool, next: nat) {
    function After(f: Frame, refused: seq<Byte>): Answered {
      this.(drained := drained.After(f), sent := refused + sent)
    }

    /** Behind the frames `done` and the bytes `before`. */
    function Behind(done: seq<Frame>, before: seq<Byte>): Answered {
      this.(drained := Then(Drained(done, [], None), drained), sent := before + sent)
    }
  }

  /** What the round over `b` sends to the client, and whether that comes back. */
  function Answer(b: seq<Byte>, results: seq<seq<WriteResult>>, i: nat): (seq<Byte>, bool) {
    if AsksProtocol2(Client, b) then Refuse(results, i) else ([], false)
  }

  /** The number of the first result that the round over `b` leaves for later ones. */
  function NextResult(b: seq<Byte>, i: nat): nat {
    if AsksProtocol2(Client, b) then i + 2 else i
  }

  /** The loop of `pgprtdbg_client`, with the results of the writes to the client from number `i` on. A request
      for protocol version 2 is answered before its packet is cut off. */
  function Answering(b: seq<Byte>, results: seq<seq<WriteResult>>, i: nat): Answered
    decreases |b|
  {
    if b == [] then Answered(Drained([], [], None), [], false, i)
    else
      var (refused, stuck) := Answer(b, results, i);
      var next := NextResult(b, i);
      if stuck then Answered(Drained([], b, None), refused, true, next)
      else match Examine(Client, b)
        case Wait => Answered(Drained([], b, None), refused, false, next)
        case Fail(why) => Answered(Drained([], b, Some(why)), refused, false, next)
        case Take(f) =>
          TakenIsPrefix(Client, b);
          Answering(b[|f.Bytes()|..], results, next).After(f, refused)
  }

  lemma AnsweringUnfolds(b: seq<Byte>, results: seq<seq<WriteResult>>, i: nat)
    requires b != []
    ensures var (refused, stuck) := Answer(b, results, i);
            var next := NextResult(b, i);
            && (stuck ==> Answering(b, results, i) == Answered(Drained([], b, None), refused, true, next))
            && (!stuck && Examine(Client, b).Wait?
                ==> Answering(b, results, i) == Answered(Drained([], b, None), refused, false, next))
            && (!stuck && Examine(Client, b).Fail?
                ==> Answering(b, results, i)
                    == Answered(Drained([], b, Some(Examine(Client, b).why)), refused, false, next))
            && (!stuck && Examine(Client, b).Take?
                ==> var f := Examine(Client, b).frame;
                    && |f.Bytes()| <= |b|
                    && Answering(b, results, i) == Answering(b[|f.Bytes()|..], results, next).After(f, refused))
  {
    hide Examine, Answer, AsksProtocol2;
    if Examine(Client, b).Take? {
      TakenIsPrefix(Client, b);
    }
  }

  /** The answers do not change what is cut off, as long as they come back; a write that does not leaves the loop
      at the request, with the frames before it cut off. At most 21 bytes are sent for each request. */
  lemma {:induction false} AnsweringIsDraining(b: seq<Byte>, results: seq<seq<WriteResult>>, i: nat)
    ensures var a := Answering(b, results, i);
            && (!a.stuck ==> a.drained == Drain(Client, b))
            && (a.stuck ==> a.drained.failed.None? && a.drained.frames <= Drain(Client, b).frames)
            && |a.sent| <= 21 * Refusals(Client, b)
    decreases |b|
  {
    hide Examine, Refuse, AsksProtocol2;
    if b != [] && Examine(Client, b).Take? {
      var f := Examine(Client, b).frame;
      TakenIsPrefix(Client, b);
      AnsweringIsDraining(b[|f.Bytes()|..], results, NextResult(b, i));
    }
  }

  // ---------------------------------------------------------------- a loop that spins

  /** What `spins` more rounds over the same buffer `b` send, and whether one of them does not come back. */
  function OnceMore(b: seq<Byte>, results: seq<seq<WriteResult>>, i: nat, spins: nat): (seq<Byte>, bool)
    decreases spins
  {
    if spins == 0 then ([], false)
    else
      var (refused, stuck) := Answer(b, results, i);
      if stuck then (refused, true)
      else
        var (more, stuck') := OnceMore(b, results, NextResult(b, i), spins - 1);
        (refused + more, stuck')
  }

  /** The state of the client's call, observed when a loop that spins has done `spins` more rounds. */
  function Lasting(b: seq<Byte>, results: seq<seq<WriteResult>>, spins: nat): Answered {
    var a := Answering(b, results, 0);
    if a.stuck || a.drained.failed != Some(Spin) then a
    else
      var (more, stuck) := OnceMore(a.drained.rest, results, a.next, spins);
      a.(drained := if stuck then a.drained.(failed := None) else a.drained, sent := a.sent + more, stuck := stuck)
  }

  /** The loop spins on a request for protocol version 2, its length being 0. */
  predicate SpinsOnRequest(b: seq<Byte>) {
    var d := Drain(Client, b);
    d.failed == Some(Spin) && AsksProtocol2(Client, d.rest)
  }

  lemma {:induction false} OnceMoreIsShort(b: seq<Byte>, results: seq<seq<WriteResult>>, i: nat, spins: nat)
    ensures |OnceMore(b, results, i, spins).0| <= if AsksProtocol2(Client, b) then 21 * spins else 0
    ensures !AsksProtocol2(Client, b) ==> !OnceMore(b, results, i, spins).1
    decreases spins
  {
    hide Refuse, AsksProtocol2;
    if spins > 0 {
      OnceMoreIsShort(b, results, NextResult(b, i), spins - 1);
    }
  }

  /** As for one pass over the buffer; each further round of a loop that spins on a request sends at most 21
      bytes more. */
  lemma LastingIsDraining(b: seq<Byte>, results: seq<seq<WriteResult>>, spins: nat)
    ensures var a := Lasting(b, results, spins);
            && (!a.stuck ==> a.drained == Drain(Client, b))
            && (a.stuck ==> a.drained.failed.None? && a.drained.frames <= Drain(Client, b).frames)
            && |a.sent| <= 21 * (Refusals(Client, b) + if SpinsOnRequest(b) then spins else 0)
  {
    hide Answering, Drain, OnceMore, AsksProtocol2, Refusals;
    AnsweringIsDraining(b, results, 0);
    var a := Answering(b, results, 0);
    if !a.stuck && a.drained.failed == Some(Spin) {
      OnceMoreIsShort(a.drained.rest, results, a.next, spins);
    }
  }

  /** The request that a loop spins on is one of those counted. */
  lemma {:induction false} SpinsAreCounted(b: seq<Byte>)
    ensures SpinsOnRequest(b) ==> Refusals(Client, b) > 0
    decreases |b|
  {
    hide Examine, AsksProtocol2;
    if b != [] && Examine(Client, b).Take? {
      TakenIsPrefix(Client, b);
      SpinsAreCounted(b[|Examine(Client, b).frame.Bytes()|..]);
    }
  }

  /** Results on which each of `n` refusals and of the messages behind them is sent whole. */
  function Generous(n: nat): seq<seq<WriteResult>> {
    seq(n, _ => [Wrote(|REFUSAL|)])
  }

  lemma RefuseGenerously(n: nat, i: nat)
    requires i + 2 <= n
    ensures |Refuse(Generous(n), i).0| == 21 && !Refuse(Generous(n), i).1
  {
    assert Deliver(20, 0, [Wrote(20)]) == Delivery(Ok, 20) && Deliver(1, 0, [Wrote(20)]) == Delivery(Ok, 1);
  }

  lemma {:induction false} AnsweringGenerously(b: seq<Byte>, n: nat, i: nat)
    requires i + 2 * Refusals(Client, b) <= n
    ensures var a := Answering(b, Generous(n), i);
            !a.stuck && |a.sent| == 21 * Refusals(Client, b) && a.next == i + 2 * Refusals(Client, b)
    decreases |b|
  {
    hide Examine, Refuse, AsksProtocol2, Generous;
    if b != [] {
      RefusalsUnfold(b);
      AnsweringUnfolds(b, Generous(n), i);
      if AsksProtocol2(Client, b) {
        RefuseGenerously(n, i);
      }
      if Examine(Client, b).Take? {
        TakenIsPrefix(Client, b);
        AnsweringGenerously(b[|Examine(Client, b).frame.Bytes()|..], n, NextResult(b, i));
      }
    }
  }

  lemma RefusalsUnfold(b: seq<Byte>)
    requires b != []
    ensures var first := if AsksProtocol2(Client, b) then 1 else 0;
            if Examine(Client, b).Take? then
              var n := |Examine(Client, b).frame.Bytes()|;
              n <= |b| && Refusals(Client, b) == first + Refusals(Client, b[n..])
            else Refusals(Client, b) == first
  {
    hide AsksProtocol2, Int32At;
  }

  lemma {:induction false} OnceMoreGenerously(b: seq<Byte>, n: nat, i: nat, spins: nat)
    requires AsksProtocol2(Client, b) && i + 2 * spins <= n
    ensures |OnceMore(b, Generous(n), i, spins).0| == 21 * spins && !OnceMore(b, Generous(n), i, spins).1
    decreases spins
  {
    hide Refuse, AsksProtocol2, Generous;
    if spins > 0 {
      RefuseGenerously(n, i);
      OnceMoreGenerously(b, n, i + 2, spins - 1);
    }
  }

  /** A loop that spins on a request sends 21 bytes in every round, if they are taken. */
  lemma SpinningRefusesForever(b: seq<Byte>, spins: nat)
    requires SpinsOnRequest(b)
    ensures exists results :: var a := Lasting(b, results, spins);
              !a.stuck && |a.sent| == 21 * (Refusals(Client, b) + spins)
  {
    hide Answering, OnceMore, AsksProtocol2, Refusals, Generous, Drain;
    var results := Generous(2 * (Refusals(Client, b) + spins));
    AnsweringGenerously(b, 2 * (Refusals(Client, b) + spins), 0);
    AnsweringIsDraining(b, results, 0);
    OnceMoreGenerously(Drain(Client, b).rest, 2 * (Refusals(Client, b) + spins), 2 * Refusals(Client, b), spins);
    assert |Lasting(b, results, spins).sent| == 21 * (Refusals(Client, b) + spins);
  }

  /** However long the call lasts and whatever its writes do, 21 bytes for each request in the buffer are not
      exceeded, exactly when the loop does not spin on one. */
  lemma RefusalsAreBounded(b: seq<Byte>)
    ensures (forall results, spins: nat :: |Lasting(b, results, spins).sent| <= 21 * Refusals(Client, b))
            <==> !SpinsOnRequest(b)
  {
    hide Lasting, Refusals, SpinsOnRequest;
    if SpinsOnRequest(b) {
      SpinningRefusesForever(b, 1);
    } else {
      forall results, spins: nat
        ensures |Lasting(b, results, spins).sent| <= 21 * Refusals(Client, b)
      {
        LastingIsDraining(b, results, spins);
      }
    }
  }

  /** A request of eight bytes with length 0. */
  lemma EmptyRequestSpins()
    ensures SpinsOnRequest([0, 0, 0, 0, 0, 2, 0, 0]) && Refusals(Client, [0, 0, 0, 0, 0, 2, 0, 0]) == 1
  {
    var b: seq<Byte> := [0, 0, 0, 0, 0, 2, 0, 0];
    assert Int32At(b, 0) == 0 && Int32At(b, 4) == PROTOCOL_2;
    assert Examine(Client, b) == Verdict.Fail(Spin);
  }

  /** The state of a run after the loop. */
  function Cutting(t: Tracing, a: Answered): Tracing {
    Tracing(t.log + Tag(Client, a.drained.frames), a.drained.rest, a.drained.failed)
  }

  lemma NothingBuffered()
    ensures Drain(Side.Server, []) == Drained([], [], None)
    ensures forall results, i: nat :: Answering([], results, i) == Answered(Drained([], [], None), [], false, i)
  {
  }

  class Tracer {
    const sockets: bool
    var kind: int
    var length: int
    var dataSize: nat
    var data: array?<Byte>

    var log: seq<Traced>
    var output: seq<string>
    var failed: Option<Failure>

    ghost predicate Valid()
      reads this
    {
      && (data == null <==> dataSize == 0)
      && (data != null ==> data.Length == dataSize)
    }

    function Buffer(): seq<Byte>
      reads this, data
    {
      if data == null then [] else data[..]
    }

    /** The abstract state of the run so far. */
    function View(): Tracing
      reads this, data
    {
      Tracing(log, Buffer(), failed)
    }

    constructor (sockets: bool)
      ensures Valid() && View() == Shared([]) && output == []
      ensures this.sockets == sockets
    {
      this.sockets := sockets;
      kind, length, dataSize, data := 0, 0, 0, null;
      log, output, failed := [], [], None;
    }

    /** Append the bytes of a read to the shared buffer. */
    method Append(msg: array<Byte>, n: nat)
      requires Valid() && 0 < n <= msg.Length
      modifies this`data, this`dataSize
      ensures Valid() && Buffer() == old(Buffer()) + msg[..n]
      ensures data != null && fresh(data)
    {
      data, dataSize := DataAppend(data, dataSize, msg, n);
    }

    /** Cut a frame of `n` bytes from the front of the shared buffer and record it. */
    method Cut(side: Side, f: Frame, n: nat)
      requires Valid() && data != null && 0 < n <= dataSize
      modifies this`data, this`dataSize, this`log
      ensures Valid() && Buffer() == old(Buffer())[n..]
      ensures data == null || fresh(data)
      ensures log == old(log) + [Traced(side, f)]
    {
      data, dataSize := DataRemove(data, dataSize, n);
      log := log + [Traced(side, f)];
    }

    /** `output_write`, for a tagged frame. */
    method OutputWrite(side: Side, from: int, to: int)
      modifies this`output
      ensures output == old(output)
              + [TraceLines.Line(sockets, if side.Client? then 'C' else 'S', from, to, kind)]
    {
      output := output + [TraceLines.Line(sockets, if side.Client? then 'C' else 'S', from, to, kind)];
    }

    /** What a round does to the state, given its verdict on the buffer: `more` tells whether the loop goes on
        with another buffer. A round that removes nothing is marked as a failure of the loop. */
    ghost predicate RoundIs(side: Side, from: int, to: int, was: Tracing, lines: seq<string>, more: bool)
      requires was.buffer != []
      reads this, data
    {
      match Examine(side, was.buffer)
      case Wait => !more && View() == was && output == lines
      case Fail(why) =>
        && !more && View() == was.(failed := Some(why))
        && output == lines + SpinLines(sockets, side, from, to, Drained([], was.buffer, Some(why)))
      case Take(f) =>
        && more && 0 < |f.Bytes()| <= |was.buffer|
        && View() == Tracing(was.log + [Traced(side, f)], was.buffer[|f.Bytes()|..], None)
        && output == lines + LinesOf(sockets, side, from, to, [f])
    }

    /** The branch for packets with a kind, which both loops share. */
    method TaggedRound(side: Side, from: int, to: int) returns (more: bool)
      requires Valid() && data != null && failed.None? && dataSize >= 5 && data[0] != 0
      requires kind == SignedByte(data[0])
      modifies this
      ensures Valid() && (data == old(data) || data == null || fresh(data))
      ensures RoundIs(side, from, to, old(View()), old(output), more)
    {
      hide Int32At, TraceLines.Line, LinesOf;
      ghost var b := data[..];
      length := IntegerCodec.ReadInt32(data[..], 1);
      var size := Successor32(length);
      if size < 0 || dataSize < size {
        return false;
      }
      if side.Server? && kind == 68 && size >= 7 {
        var columns := IntegerCodec.ReadInt16(data[..size], 5);
        if columns == 0x7fff {
          failed := Some(OverRun);
          return false;
        }
      }
      OutputWrite(side, from, to);
      if size == 0 {
        data, dataSize := DataRemove(data, dataSize, size);
        failed := Some(Spin);
        return false;
      }
      var f := Tagged(data[..size]);
      assert f.bytes[0] == b[0] && KindOf(f) == kind;
      OneLine(sockets, side, from, to, f);
      Cut(side, f, size);
      more := true;
    }

    /** The branch for start-up packets, with the request switch of `fe_zero`. */
    method StartupRound(from: int, to: int, results: seq<seq<WriteResult>>, i: nat)
      returns (more: bool, sent: seq<Byte>, stuck: bool, next: nat)
      requires Valid() && data != null && failed.None? && dataSize >= 8 && data[0] == 0
      modifies this
      ensures Valid() && (data == old(data) || data == null || fresh(data))
      ensures (sent, stuck) == Answer(old(Buffer()), results, i) && next == NextResult(old(Buffer()), i)
      ensures if stuck then !more && View() == old(View()) && output == old(output)
              else RoundIs(Side.Client, from, to, old(View()), old(output), more)
    {
      hide Int32At, LinesOf, Refuse;
      sent, stuck, next := [], false, i;
      length := IntegerCodec.ReadInt32(data[..], 0);
      var request := IntegerCodec.ReadInt32(data[..], 4);
      if request == PROTOCOL_2 {
        sent, stuck := SendRefusal(results, i);
        next := i + 2;
        if stuck {
          return false, sent, stuck, next;
        }
      } else if !KnownRequest(request) {
        failed := Some(Exit);
        return false, sent, stuck, next;
      }
      if !(0 <= length <= dataSize) {
        failed := Some(OverRun);
        return false, sent, stuck, next;
      }
      if length == 0 {
        failed := Some(Spin);
        return false, sent, stuck, next;
      }
      var f := Untagged(data[..length]);
      OneLine(sockets, Side.Client, from, to, f);
      Cut(Side.Client, f, length);
      more := true;
    }

    /** One round of the client's loop. */
    method ClientRound(from: int, to: int, results: seq<seq<WriteResult>>, i: nat)
      returns (more: bool, sent: seq<Byte>, stuck: bool, next: nat)
      requires Valid() && data != null && failed.None?
      modifies this
      ensures Valid() && (data == old(data) || data == null || fresh(data))
      ensures (sent, stuck) == Answer(old(Buffer()), results, i) && next == NextResult(old(Buffer()), i)
      ensures if stuck then !more && View() == old(View()) && output == old(output)
              else RoundIs(Side.Client, from, to, old(View()), old(output), more)
    {
      hide Int32At, LinesOf, Refuse;
      sent, stuck, next := [], false, i;
      kind := SignedByte(data[0]);
      if kind == 0 && dataSize >= 8 {
        more, sent, stuck, next := StartupRound(from, to, results, i);
      } else if kind != 0 && dataSize >= 5 {
        more := TaggedRound(Side.Client, from, to);
      } else {
        more := false;
      }
    }

    /** One round of the server's loop. A lone `N` is cut without a line. */
    method ServerRound(from: int, to: int) returns (more: bool)
      requires Valid() && data != null && failed.None?
      modifies this
      ensures Valid() && (data == old(data) || data == null || fresh(data))
      ensures RoundIs(Side.Server, from, to, old(View()), old(output), more)
    {
      hide Int32At, LinesOf;
      kind := SignedByte(data[0]);
      if kind == 78 && dataSize == 1 {
        length := 1;
        assert data[..] == [LETTER_N];
        OneLine(sockets, Side.Server, from, to, Lone);
        Cut(Side.Server, Lone, length);
        more := true;
      } else if kind != 0 && dataSize >= 5 {
        more := TaggedRound(Side.Server, from, to);
      } else {
        more := false;
      }
    }

    /** The loop of `pgprtdbg_client` on what is buffered, up to the first round that removes nothing. */
    method ClientLoop(from: int, to: int, results: seq<seq<WriteResult>>)
      returns (sent: seq<Byte>, stuck: bool, i: nat)
      requires Valid() && failed.None?
      modifies this
      ensures Valid() && (data == old(data) || data == null || fresh(data))
      ensures var a := Answering(old(Buffer()), results, 0);
              && View() == Cutting(old(View()), a) && sent == a.sent && stuck == a.stuck && i == a.next
              && output == old(output) + LinesOf(sockets, Side.Client, from, to, a.drained.frames)
                         + SpinLines(sockets, Side.Client, from, to, a.drained)
    {
      hide Examine, Int32At, Then, LinesOf, TraceLines.Line, Tag, Answering, Answer, AsksProtocol2;
      NoTags();
      NothingBuffered();
      ghost var b, was, lines := Buffer(), log, output;
      ghost var done: seq<Frame> := [];
      sent, stuck, i := [], false, 0;
      var more := true;
      NothingBehind(Answering(b, results, 0));
      NoLines(sockets, Side.Client, from, to);
      while dataSize > 0 && more
        invariant Valid() && (data == old(data) || data == null || fresh(data))
        invariant more ==> failed.None? && !stuck
        invariant more ==> Answering(b, results, 0) == Answering(Buffer(), results, i).Behind(done, sent)
        invariant !more ==> Answering(b, results, 0) == Answered(Drained(done, Buffer(), failed), sent, stuck, i)
        invariant log == was + Tag(Side.Client, done)
        invariant output == lines + LinesOf(sockets, Side.Client, from, to, done)
                  + SpinLines(sockets, Side.Client, from, to, Drained(done, Buffer(), failed))
        decreases dataSize, more
      {
        ghost var v := View();
        AnsweringUnfolds(v.buffer, results, i);
        var refused;
        more, refused, stuck, i := ClientRound(from, to, results, i);
        StopsBehind(done, sent, v.buffer, failed, refused, stuck, i);
        if more {
          ghost var f := Examine(Side.Client, v.buffer).frame;
          OneMoreBehind(done, f, sent, refused, Answering(Buffer(), results, i));
          LinesOfNext(sockets, Side.Client, from, to, done, f);
          done := done + [f];
        }
        sent := sent + refused;
      }
      StopsBehind(done, sent, [], None, [], false, i);
    }

    /** The rounds of a loop that removes nothing: `spins` of them, or up to a write that does not come back. */
    method ClientSpins(from: int, to: int, results: seq<seq<WriteResult>>, first: nat, spins: nat)
      returns (sent: seq<Byte>, stuck: bool)
      requires Valid() && failed == Some(Spin)
      requires Buffer() != [] && Examine(Side.Client, Buffer()) == Verdict.Fail(Spin)
      modifies this
      ensures Valid() && (data == old(data) || data == null || fresh(data))
      ensures (sent, stuck) == OnceMore(old(Buffer()), results, first, spins)
      ensures View() == old(View()).(failed := if stuck then None else Some(Spin))
      ensures output == old(output)
              + Repeated(SpinLines(sockets, Side.Client, from, to, Drained([], old(Buffer()), Some(Spin))), spins)
    {
      hide Examine, SpinLines, Refuse, AsksProtocol2, Int32At;
      ghost var v, lines := View(), output;
      ghost var b := v.buffer;
      ghost var line := SpinLines(sockets, Side.Client, from, to, Drained([], b, Some(Spin)));
      ghost var all := OnceMore(b, results, first, spins);
      RequestsHaveNoLine(sockets, Side.Client, from, to, b);
      NothingRepeated();
      sent, stuck := [], false;
      var i := first;
      assert [] + all.0 == all.0;
      for r := 0 to spins
        invariant Valid() && View() == v && (data == old(data) || data == null || fresh(data))
        invariant var rest := OnceMore(b, results, i, spins - r); all == (sent + rest.0, rest.1)
        invariant output == lines + Repeated(line, r)
      {
        failed := None;
        ghost var before := View();
        var more, refused;
        more, refused, stuck, i := ClientRound(from, to, results, i);
        if stuck {
          sent := sent + refused;
          return;
        }
        ghost var rest := OnceMore(b, results, i, spins - (r + 1));
        assert sent + (refused + rest.0) == sent + refused + rest.0;
        assert lines + Repeated(line, r) + line == lines + (Repeated(line, r) + line);
        sent := sent + refused;
      }
      assert sent + [] == sent;
    }

    /**
     `pgprtdbg_client`, with the results of the writes to the client. The read is appended and the loop runs as
     `Lasting` says: the frames cut off, what is left and how it failed, and the bytes sent to the client,
     with `stuck` if such a write has not come back. The lines written are those of the packets traced, and
     the bytes read are not changed. A loop that spins does not come back either; it is observed when it has
     done `spins` more rounds, each of which writes its line and sends its answer once more.
     */
    method Client(from: int, to: int, msg: array<Byte>, n: nat, counter: Counters.EventCounter,
                  results: seq<seq<WriteResult>>, spins: nat)
      returns (sent: seq<Byte>, stuck: bool)
      requires Valid() && failed.None? && 0 < n <= msg.Length
      modifies this, counter
      ensures Valid()
      ensures var a := Lasting(old(Buffer()) + msg[..n], results, spins);
              && View() == Cutting(old(View()), a) && sent == a.sent && stuck == a.stuck
              && output == old(output) + LinesOfLoop(sockets, Side.Client, from, to, a.drained, spins)
      ensures data == null || fresh(data)
      ensures counter.Values() == old(counter.Values()).Sent(n)
    {
      hide Examine, LinesOf, TraceLines.Line, Tag, Answering, OnceMore, AsksProtocol2, Drain, Repeated, Int32At;
      counter.CountSent(n);
      Append(msg, n);
      ghost var b, lines := Buffer(), output;
      ghost var a := Answering(b, results, 0);
      ghost var line := SpinLines(sockets, Side.Client, from, to, a.drained);
      AnsweringIsDraining(b, results, 0);
      RepeatedFirst(line, spins);
      NothingRepeated();
      var i;
      sent, stuck, i := ClientLoop(from, to, results);
      ghost var written := LinesOf(sockets, Side.Client, from, to, a.drained.frames);
      Regrouped(lines, written, line, Repeated(line, spins));
      if failed == Some(Spin) && !stuck {
        FailureIsAtRest(Side.Client, b);
        RequestsSpinSilently(sockets, from, to, a.drained.rest, results, i, spins);
        var more;
        more, stuck := ClientSpins(from, to, results, i, spins);
        sent := sent + more;
      }
    }

    /** The loop of `pgprtdbg_server` on what is buffered, up to the first round that removes nothing. */
    method ServerLoop(from: int, to: int)
      requires Valid() && failed.None?
      modifies this
      ensures Valid() && (data == old(data) || data == null || fresh(data))
      ensures var d := Drain(Side.Server, old(Buffer()));
              && View() == Tracing(old(log) + Tag(Side.Server, d.frames), d.rest, d.failed)
              && output == old(output) + LinesOf(sockets, Side.Server, from, to, d.frames)
                         + SpinLines(sockets, Side.Server, from, to, d)
    {
      hide Examine, Int32At, Then, LinesOf, TraceLines.Line, Tag, Drain;
      NoTags();
      NothingBuffered();
      ghost var b, was, lines := Buffer(), log, output;
      ghost var done: seq<Frame> := [];
      var more := true;
      ThenNothing([], Drain(Side.Server, b));
      NoLines(sockets, Side.Server, from, to);
      while dataSize > 0 && more
        invariant Valid() && (data == old(data) || data == null || fresh(data))
        invariant more ==> failed.None?
        invariant more ==> Drain(Side.Server, b) == Then(Drained(done, [], None), Drain(Side.Server, Buffer()))
        invariant !more ==> Drain(Side.Server, b) == Drained(done, Buffer(), failed)
        invariant log == was + Tag(Side.Server, done)
        invariant output == lines + LinesOf(sockets, Side.Server, from, to, done)
                  + SpinLines(sockets, Side.Server, from, to, Drained(done, Buffer(), failed))
        decreases dataSize, more
      {
        ghost var v := View();
        DrainUnfolds(Side.Server, v.buffer);
        more := ServerRound(from, to);
        NothingMoreDone(done, v.buffer, failed);
        if more {
          ghost var f := Examine(Side.Server, v.buffer).frame;
          OneMoreDone(Side.Server, done, f, Drain(Side.Server, Buffer()));
          LinesOfNext(sockets, Side.Server, from, to, done, f);
          done := done + [f];
        }
      }
      NothingMoreDone(done, [], None);
    }

    method ServerSpins(from: int, to: int, spins: nat)
      requires Valid() && failed == Some(Spin)
      requires Buffer() != [] && Examine(Side.Server, Buffer()) == Verdict.Fail(Spin)
      modifies this
      ensures Valid() && (data == old(data) || data == null || fresh(data))
      ensures View() == old(View())
      ensures output == old(output)
              + Repeated(SpinLines(sockets, Side.Server, from, to, Drained([], old(Buffer()), Some(Spin))), spins)
    {
      hide Examine, TraceLines.Line;
      ghost var v, lines := View(), output;
      ghost var line := SpinLines(sockets, Side.Server, from, to, Drained([], v.buffer, Some(Spin)));
      for r := 0 to spins
        invariant Valid() && View() == v && (data == old(data) || data == null || fresh(data))
        invariant output == lines + Repeated(line, r)
      {
        failed := None;
        ghost var before := View();
        var more := ServerRound(from, to);
        assert lines + Repeated(line, r) + line == lines + (Repeated(line, r) + line);
      }
    }

    /** `pgprtdbg_server`. */
    method Server(from: int, to: int, msg: array<Byte>, n: nat, counter: Counters.EventCounter, spins: nat)
      requires Valid() && failed.None? && 0 < n <= msg.Length
      modifies this, counter
      ensures Valid() && View() == Step(old(View()), Call(Side.Server, msg[..n]))
      ensures data == null || fresh(data)
      ensures output == old(output)
              + LinesOfLoop(sockets, Side.Server, from, to, Drain(Side.Server, old(Buffer()) + msg[..n]), spins)
      ensures counter.Values() == old(counter.Values()).Received(n)
    {
      hide Examine, LinesOf, TraceLines.Line, Tag, Drain, Repeated, Int32At;
      counter.CountReceived(n);
      Append(msg, n);
      ghost var b, lines := Buffer(), output;
      ghost var d := Drain(Side.Server, b);
      ghost var line := SpinLines(sockets, Side.Server, from, to, d);
      RepeatedFirst(line, spins);
      NothingRepeated();
      ServerLoop(from, to);
      ghost var written := LinesOf(sockets, Side.Server, from, to, d.frames);
      Regrouped(lines, written, line, Repeated(line, spins));
      if failed == Some(Spin) {
        FailureIsAtRest(Side.Server, b);
        ServerSpins(from, to, spins);
      }
    }
  }

  lemma Regrouped(a: seq<string>, b: seq<string>, c: seq<string>, d: seq<string>)
    ensures a + b + c + d == a + (b + (c + d))
  {
  }

  lemma {:induction false} RepeatedFirst(ls: seq<string>, n: nat)
    ensures ls + Repeated(ls, n) == Repeated(ls, n + 1)
  {
    if n == 0 {
      assert ls + [] == [] + ls;
    } else {
      RepeatedFirst(ls, n - 1);
      assert ls + (Repeated(ls, n - 1) + ls) == ls + Repeated(ls, n - 1) + ls;
    }
  }

  lemma NothingRepeated()
    ensures forall n: nat :: Repeated([], n) == []
  {
    forall n: nat
      ensures Repeated([], n) == []
    {
      RepeatedNothing(n);
    }
  }

  lemma {:induction false} RepeatedNothing(n: nat)
    ensures Repeated([], n) == []
  {
    if n > 0 {
      RepeatedNothing(n - 1);
    }
  }

  /** A round that answers a request writes no line. */
  lemma RequestsHaveNoLine(sockets: bool, side: Side, from: int, to: int, b: seq<Byte>)
    ensures AsksProtocol2(Client, b) ==> SpinLines(sockets, side, from, to, Drained([], b, Some(Spin))) == []
  {
  }

  lemma RequestsSpinSilently(sockets: bool, from: int, to: int, b: seq<Byte>, results: seq<seq<WriteResult>>,
                             i: nat, spins: nat)
    ensures OnceMore(b, results, i, spins).1
            ==> SpinLines(sockets, Side.Client, from, to, Drained([], b, Some(Spin))) == []
  {
    OnceMoreIsShort(b, results, i, spins);
    RequestsHaveNoLine(sockets, Side.Client, from, to, b);
  }

  lemma OneLine(sockets: bool, side: Side, from: int, to: int, f: Frame)
    ensures LinesOf(sockets, side, from, to, [f])
         == if f.Tagged? then [TraceLines.Line(sockets, if side.Client? then 'C' else 'S', from, to, KindOf(f))] else []
  {
    assert [f][..0] == [];
  }

  /** Moving the frame just cut from what the loop still has to do to what it has done. */
  lemma OneMoreDone(side: Side, done: seq<Frame>, f: Frame, d: Drained)
    ensures Then(Drained(done, [], None), d.After(f)) == Then(Drained(done + [f], [], None), d)
    ensures Tag(side, done + [f]) == Tag(side, done) + [Traced(side, f)]
  {
    assert done + ([f] + d.frames) == done + [f] + d.frames;
  }

  lemma LinesOfNext(sockets: bool, side: Side, from: int, to: int, done: seq<Frame>, f: Frame)
    ensures LinesOf(sockets, side, from, to, done + [f])
         == LinesOf(sockets, side, from, to, done) + LinesOf(sockets, side, from, to, [f])
  {
    assert (done + [f])[..|done|] == done && [f][..0] == [];
  }

  lemma NothingMoreDone(done: seq<Frame>, rest: seq<Byte>, failed: Option<Failure>)
    ensures Then(Drained(done, [], None), Drained([], rest, failed)) == Drained(done, rest, failed)
  {
    assert done + [] == done;
  }

  lemma OneMoreBehind(done: seq<Frame>, f: Frame, sent: seq<Byte>, refused: seq<Byte>, a: Answered)
    ensures a.After(f, refused).Behind(done, sent) == a.Behind(done + [f], sent + refused)
    ensures Tag(Side.Client, done + [f]) == Tag(Side.Client, done) + [Traced(Side.Client, f)]
  {
    OneMoreDone(Side.Client, done, f, a.drained);
    assert sent + (refused + a.sent) == sent + refused + a.sent;
  }

  lemma StopsBehind(done: seq<Frame>, sent: seq<Byte>, rest: seq<Byte>, failed: Option<Failure>,
                    refused: seq<Byte>, stuck: bool, next: nat)
    ensures Answered(Drained([], rest, failed), refused, stuck, next).Behind(done, sent)
         == Answered(Drained(done, rest, failed), sent + refused, stuck, next)
  {
    NothingMoreDone(done, rest, failed);
  }

  lemma NothingBehind(a: Answered)
    ensures a.Behind([], []) == a
  {
    ThenNothing([], a.drained);
    assert [] + a.sent == a.sent;
  }

  lemma NoTags()
    ensures forall side :: Tag(side, []) == []
  {
  }

  lemma NoLines(sockets: bool, side: Side, from: int, to: int)
    ensures LinesOf(sockets, side, from, to, []) == []
  {
  }
}
