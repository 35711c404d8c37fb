/** Both directions of a connection on the one buffer they share. */
module SharedStream {
  import opened Bytes
  import opened Framing
  import opened Options
  import ClientStream
  import ServerStream

  /** A call of `pgprtdbg_client` or `pgprtdbg_server` with the bytes just read. */
  datatype Call = Call(side: Side, chunk: seq<Byte>)

  datatype Traced = Traced(side: Side, frame: Frame)

  /** What the process has traced, the shared buffer, and how a loop failed to come to rest. */
  datatype Tracing = Tracing(log: seq<Traced>, buffer: seq<Byte>, failed: Option<Failure>)

  function Tag(side: Side, fs: seq<Frame>): (log: seq<Traced>)
    ensures |log| == |fs|
  {
    seq(|fs|, i requires 0 <= i < |fs| => Traced(side, fs[i]))
  }

  function Step(t: Tracing, call: Call): Tracing {
    if t.failed.Some? then t
    else
      var d := Drain(call.side, t.buffer + call.chunk);
      Tracing(t.log + Tag(call.side, d.frames), d.rest, d.failed)
  }

  /** A whole run of calls, in the order in which they happen. */
  function Shared(calls: seq<Call>): Tracing {
    if calls == [] then Tracing([], [], None)
    else Step(Shared(calls[..|calls| - 1]), calls[|calls| - 1])
  }

  // ---------------------------------------------------------------- conservation

  function LogBytes(log: seq<Traced>): seq<Byte> {
    if log == [] then [] else LogBytes(log[..|log| - 1]) + log[|log| - 1].frame.Bytes()
  }

  function CallBytes(calls: seq<Call>): seq<Byte> {
    if calls == [] then [] else CallBytes(calls[..|calls| - 1]) + calls[|calls| - 1].chunk
  }

  lemma LogBytesNext(log: seq<Traced>, t: Traced)
    ensures LogBytes(log + [t]) == LogBytes(log) + t.frame.Bytes()
  {
    assert (log + [t])[..|log|] == log;
  }

  lemma TagFirst(log: seq<Traced>, side: Side, fs: seq<Frame>)
    requires fs != []
    ensures log + Tag(side, fs) == log + [Traced(side, fs[0])] + Tag(side, fs[1..])
  {
  }

  lemma {:induction false} LogBytesOfTag(log: seq<Traced>, side: Side, fs: seq<Frame>)
    ensures LogBytes(log + Tag(side, fs)) == LogBytes(log) + FrameBytes(fs)
    decreases |fs|
  {
    hide LogBytes, Tag;
    if fs == [] {
      assert log + Tag(side, fs) == log;
    } else {
      var first := log + [Traced(side, fs[0])];
      TagFirst(log, side, fs);
      LogBytesOfTag(first, side, fs[1..]);
      LogBytesNext(log, Traced(side, fs[0]));
      assert LogBytes(log) + fs[0].Bytes() + FrameBytes(fs[1..]) == LogBytes(log) + FrameBytes(fs);
    }
  }

  lemma Associative(a: seq<Byte>, b: seq<Byte>, c: seq<Byte>)
    ensures a + b + c == a + (b + c)
  {
  }

  lemma StepConserves(s: Tracing, call: Call)
    requires s.failed.None?
    ensures var t := Step(s, call);
            && LogBytes(t.log) + t.buffer == LogBytes(s.log) + s.buffer + call.chunk
            && (t.failed.None? && t.buffer != [] ==> Examine(call.side, t.buffer).Wait?)
  {
    hide Examine, Drain, LogBytes, FrameBytes, Tag;
    var b := s.buffer + call.chunk;
    var d := Drain(call.side, b);
    DrainConserves(call.side, b);
    LogBytesOfTag(s.log, call.side, d.frames);
    Associative(LogBytes(s.log), FrameBytes(d.frames), d.rest);
    Associative(LogBytes(s.log), s.buffer, call.chunk);
    if d.failed.None? {
      RestIsIncomplete(call.side, b);
    }
  }

  /** In every interleaving of the two directions the traced frames, followed by what is buffered, are
      the bytes read in the order in which they were read; and what is buffered is no complete frame
      of the direction read last. */
  lemma {:induction false} SharedConserves(calls: seq<Call>)
    ensures var t := Shared(calls);
            && LogBytes(t.log) + t.buffer <= CallBytes(calls)
            && (t.failed.None? ==> LogBytes(t.log) + t.buffer == CallBytes(calls))
            && (t.failed.None? && t.buffer != []
                ==> calls != [] && Examine(calls[|calls| - 1].side, t.buffer).Wait?)
  {
    hide Examine, Drain;
    if calls != [] {
      var before := calls[..|calls| - 1];
      SharedConserves(before);
      if Shared(before).failed.None? {
        StepConserves(Shared(before), calls[|calls| - 1]);
      }
    }
  }

  // ---------------------------------------------------------------- the two directions apart

  function SideChunks(calls: seq<Call>, side: Side): seq<seq<Byte>> {
    if calls == [] then []
    else
      var before, call := SideChunks(calls[..|calls| - 1], side), calls[|calls| - 1];
      if call.side == side then before + [call.chunk] else before
  }

  function SideFrames(log: seq<Traced>, side: Side): seq<Frame> {
    if log == [] then []
    else
      var before, last := SideFrames(log[..|log| - 1], side), log[|log| - 1];
      if last.side == side then before + [last.frame] else before
  }

  /** The direction only changes while the shared buffer is empty. */
  predicate SwitchesClean(calls: seq<Call>) {
    forall k :: 1 <= k < |calls| && calls[k].side != calls[k - 1].side ==> Shared(calls[..k]).buffer == []
  }

  lemma {:induction false} SideFramesOfTag(log: seq<Traced>, side: Side, fs: seq<Frame>, x: Side)
    ensures SideFrames(log + Tag(side, fs), x) == SideFrames(log, x) + (if x == side then fs else [])
    decreases |fs|
  {
    if fs == [] {
      assert log + Tag(side, fs) == log;
    } else {
      var first := log + [Traced(side, fs[0])];
      assert log + Tag(side, fs) == first + Tag(side, fs[1..]);
      SideFramesOfTag(first, side, fs[1..], x);
      assert first[..|first| - 1] == log;
    }
  }

  /** The bytes of direction `x` that the shared buffer holds. */
  function Held(calls: seq<Call>, x: Side): seq<Byte> {
    if calls != [] && calls[|calls| - 1].side == x then Shared(calls).buffer else []
  }

  /** `Shared(calls)` agrees with a run of direction `x` on a buffer of its own. */
  predicate Agrees(calls: seq<Call>, x: Side) {
    FeedAll(x, SideChunks(calls, x)) == Drained(SideFrames(Shared(calls).log, x), Held(calls, x), None)
  }

  /**
   If the direction only changes while the shared buffer is empty, sharing it makes no difference: the
   run comes to rest exactly when each direction would on a buffer of its own, and then traces in each
   direction exactly what that direction would trace alone.
   */
  lemma {:induction false} SharedIsSplit(calls: seq<Call>)
    requires SwitchesClean(calls)
    ensures Shared(calls).failed.None? ==> Agrees(calls, Client) && Agrees(calls, Server)
    ensures Shared(calls).failed.Some?
            ==> exists x :: FeedAll(x, SideChunks(calls, x)).failed.Some?
  {
    hide Drain;
    if calls != [] {
      var before, call := calls[..|calls| - 1], calls[|calls| - 1];
      assert forall k :: 0 <= k < |calls| ==> before[..k] == calls[..k];
      SharedIsSplit(before);
      var s := Shared(before);
      var x := call.side;
      var own := SideChunks(before, x);
      assert SideChunks(calls, x)[..|own|] == own;
      if s.failed.None? {
        assert Held(before, x) == s.buffer;
        var d := Drain(x, s.buffer + call.chunk);
        SideFramesOfTag(s.log, x, d.frames, Client);
        SideFramesOfTag(s.log, x, d.frames, Server);
        assert FeedAll(x, SideChunks(calls, x)) == Then(FeedAll(x, own), d);
      } else {
        var y :| FeedAll(y, SideChunks(before, y)).failed.Some?;
        assert FeedAll(y, SideChunks(calls, y)).failed.Some?;
      }
    }
  }

  /** At every point of the run both directions are as they would be on buffers of their own. */
  predicate AlwaysAgrees(calls: seq<Call>) {
    forall k :: 0 <= k <= |calls| ==> Agrees(calls[..k], Client) && Agrees(calls[..k], Server)
  }

  lemma {:induction false} RestedThroughout(calls: seq<Call>, k: nat)
    requires k <= |calls| && Shared(calls).failed.None?
    ensures Shared(calls[..k]).failed.None?
    decreases |calls|
  {
    if k < |calls| {
      RestedThroughout(calls[..|calls| - 1], k);
      assert calls[..|calls| - 1][..k] == calls[..k];
    } else {
      assert calls[..k] == calls;
    }
  }

  /** After a switch with bytes in the buffer, the direction that was read before has lost them. */
  lemma UncleanSwitchShows(calls: seq<Call>, k: nat)
    requires 1 <= k < |calls| && calls[k].side != calls[k - 1].side
    requires Agrees(calls[..k], calls[k - 1].side) && Agrees(calls[..k + 1], calls[k - 1].side)
    ensures Shared(calls[..k]).buffer == []
  {
    hide Step, FeedAll, SideFrames;
    var x := calls[k - 1].side;
    assert calls[..k + 1] == calls[..k] + [calls[k]];
    OneMore(calls[..k], calls[k]);
    assert SideChunks(calls[..k + 1], x) == SideChunks(calls[..k], x);
    assert calls[..k][k - 1] == calls[k - 1] && calls[..k + 1][k] == calls[k];
    assert Held(calls[..k], x) == Held(calls[..k + 1], x);
  }

  /**
   When sharing the buffer makes no difference. In a run that comes to rest, each direction is at every point
   as it would be on a buffer of its own, with the same frames traced and the same bytes held, exactly when
   the direction only changes while the shared buffer is empty.
   */
  lemma SharingIsHarmless(calls: seq<Call>)
    requires Shared(calls).failed.None?
    ensures AlwaysAgrees(calls) <==> SwitchesClean(calls)
  {
    if SwitchesClean(calls) {
      forall k | 0 <= k <= |calls|
        ensures Agrees(calls[..k], Client) && Agrees(calls[..k], Server)
      {
        RestedThroughout(calls, k);
        assert forall i :: 0 <= i <= k ==> calls[..k][..i] == calls[..i];
        SharedIsSplit(calls[..k]);
      }
    }
    if AlwaysAgrees(calls) {
      forall k | 1 <= k < |calls| && calls[k].side != calls[k - 1].side
        ensures Shared(calls[..k]).buffer == []
      {
        UncleanSwitchShows(calls, k);
      }
    }
  }

  /** Every packet of each direction is traced once, in order, and nothing is left over. */
  predicate TracesConnection(calls: seq<Call>, sent: seq<Frame>, received: seq<Frame>) {
    var t := Shared(calls);
    && t.failed.None? && t.buffer == []
    && SideFrames(t.log, Client) == sent && SideFrames(t.log, Server) == received
  }

  /**
   The trace of a whole connection whose directions carry conforming packets. Every packet is traced, and at no
   point did one direction hold or lose bytes of the other, exactly when no read ends inside a start-up
   packet past its eighth byte, refusals and notices are read as the server's loop needs, and the direction
   only changes while nothing is buffered.
   */
  lemma ConnectionIsTraced(calls: seq<Call>, sent: seq<Frame>, received: seq<Frame>)
    requires AllConform(Client, sent) && Flatten(SideChunks(calls, Client)) == FrameBytes(sent)
    requires AllConform(Server, received) && Flatten(SideChunks(calls, Server)) == FrameBytes(received)
    ensures TracesConnection(calls, sent, received) && AlwaysAgrees(calls)
            <==> && SwitchesClean(calls)
                 && ClientStream.ReadsSpareStartup(sent, SideChunks(calls, Client))
                 && ServerStream.ReadsRespect(received, SideChunks(calls, Server))
  {
    hide Drain, FeedAll, Int32At;
    ClientStream.ConformingStreamIsTraced(sent, SideChunks(calls, Client));
    ServerStream.ConformingStreamIsTraced(received, SideChunks(calls, Server));
    assert calls[..|calls|] == calls;
    if Shared(calls).failed.None? {
      SharingIsHarmless(calls);
    } else if SwitchesClean(calls) {
      SharedIsSplit(calls);
    }
  }

  /** Without clean switches the claim is false: when only the first byte of a client packet has been read,
      a ReadyForQuery of the server is not traced, although alone it is. */
  lemma SharingMixesDirections()
    ensures var calls := [Call(Client, [88]), Call(Server, [90, 0, 0, 0, 5, 73])];
            && Shared(calls) == Tracing([], [88, 90, 0, 0, 0, 5, 73], None)
            && SideChunks(calls, Server) == [[90, 0, 0, 0, 5, 73]]
    ensures FeedAll(Server, [[90, 0, 0, 0, 5, 73]]) == Drained([Tagged([90, 0, 0, 0, 5, 73])], [], None)
  {
    hide FeedAll;
    var calls := [Call(Client, [88]), Call(Server, [90, 0, 0, 0, 5, 73])];
    MixedRun(calls[0], calls[1]);
    ReadyAlone();
    assert calls == [calls[0], calls[1]];
  }

  lemma MixedRun(c1: Call, c2: Call)
    requires c1 == Call(Client, [88]) && c2 == Call(Server, [90, 0, 0, 0, 5, 73])
    ensures Shared([c1, c2]) == Tracing([], [88, 90, 0, 0, 0, 5, 73], None)
    ensures SideChunks([c1, c2], Server) == [c2.chunk]
  {
    hide Step;
    var b1: seq<Byte>, b2: seq<Byte> := [88], [88, 90, 0, 0, 0, 5, 73];
    assert Int32At(b2, 1) == 0x5a00_0000;
    OneMore([], c1);
    OneMore([c1], c2);
    assert [] + [c1] == [c1] && [c1] + [c2] == [c1, c2];
    assert SideChunks([], Server) == [];
    WaitingStep(Tracing([], [], None), c1, b1);
    WaitingStep(Tracing([], b1, None), c2, b2);
    assert [] + [c2.chunk] == [c2.chunk];
  }

  lemma WaitingStep(t: Tracing, call: Call, b: seq<Byte>)
    requires t.failed.None? && b == t.buffer + call.chunk
    requires b != [] && Examine(call.side, b).Wait?
    ensures Step(t, call) == Tracing(t.log, b, None)
  {
    assert t.log + Tag(call.side, []) == t.log;
  }

  lemma TakingStep(t: Tracing, call: Call, f: Frame)
    requires t.failed.None? && f.Bytes() == t.buffer + call.chunk != []
    requires Examine(call.side, f.Bytes()) == Take(f)
    ensures Step(t, call) == Tracing(t.log + [Traced(call.side, f)], [], None)
  {
    hide Examine;
    var b := f.Bytes();
    assert b[|b|..] == [];
    assert Drain(call.side, b) == Drain(call.side, []).After(f);
    assert Tag(call.side, [f] + []) == [Traced(call.side, f)];
  }

  /** Ten bytes whose halves are equal. */
  const HALF: seq<Byte> := [68, 0, 0, 0, 9]

  const TWIN := Tagged(HALF + HALF)

  lemma TwinIsPacket()
    ensures Conforms(Client, TWIN) && Conforms(Server, TWIN)
    ensures Examine(Client, TWIN.Bytes()) == Take(TWIN) && Examine(Server, TWIN.Bytes()) == Take(TWIN)
    ensures Examine(Client, HALF).Wait? && Examine(Server, HALF).Wait?
  {
    var b := HALF + HALF;
    assert Int32At(b, 1) == 9 && Int32At(HALF, 1) == 9;
    assert b[..10] == b;
  }

  /** That both directions are right at the end of a run does not need clean switches: a packet of two equal
      halves in each direction, read half by half, is traced in both although the second half of each was
      read in the other's packet. */
  lemma DirectionsMayMixUnseen()
    ensures var calls := [Call(Client, HALF), Call(Server, HALF), Call(Server, HALF), Call(Client, HALF)];
            && Shared(calls) == Tracing([Traced(Server, TWIN), Traced(Client, TWIN)], [], None)
            && Shared(calls[..1]).buffer == HALF
            && Flatten(SideChunks(calls, Client)) == Flatten(SideChunks(calls, Server)) == FrameBytes([TWIN])
  {
    hide Shared, SideChunks, Flatten;
    var c, s := Call(Client, HALF), Call(Server, HALF);
    TwinRun(c, s);
    TwinChunks(c, s);
    assert [c, s, s, c][..1] == [c];
  }

  lemma TwinRun(c: Call, s: Call)
    requires c == Call(Client, HALF) && s == Call(Server, HALF)
    ensures Shared([c]) == Tracing([], HALF, None)
    ensures Shared([c, s, s, c]) == Tracing([Traced(Server, TWIN), Traced(Client, TWIN)], [], None)
  {
    hide Shared, Step, Examine;
    TwinIsPacket();
    FourSteps(c, s, s, c);
    var empty, half := Tracing([], [], None), Tracing([], HALF, None);
    var one := Tracing([Traced(Server, TWIN)], [], None);
    WaitingStep(empty, c, HALF);
    TakingStep(half, s, TWIN);
    assert half.log + [Traced(Server, TWIN)] == one.log;
    WaitingStep(one, s, HALF);
    TakingStep(one.(buffer := HALF), c, TWIN);
    assert one.log + [Traced(Client, TWIN)] == [Traced(Server, TWIN), Traced(Client, TWIN)];
  }

  lemma FourSteps(c1: Call, c2: Call, c3: Call, c4: Call)
    ensures Shared([c1]) == Step(Tracing([], [], None), c1)
    ensures Shared([c1, c2, c3, c4]) == Step(Step(Step(Step(Tracing([], [], None), c1), c2), c3), c4)
  {
    hide Step, SideChunks;
    OneMore([], c1);
    OneMore([c1], c2);
    OneMore([c1, c2], c3);
    OneMore([c1, c2, c3], c4);
    assert [] + [c1] == [c1] && [c1] + [c2] == [c1, c2];
    assert [c1, c2] + [c3] == [c1, c2, c3] && [c1, c2, c3] + [c4] == [c1, c2, c3, c4];
  }

  lemma TwinChunks(c: Call, s: Call)
    requires c == Call(Client, HALF) && s == Call(Server, HALF)
    ensures Flatten(SideChunks([c, s, s, c], Client)) == Flatten(SideChunks([c, s, s, c], Server)) == FrameBytes([TWIN])
  {
    hide Shared, Step, Flatten;
    OneMore([], c);
    OneMore([c], s);
    OneMore([c, s], s);
    OneMore([c, s, s], c);
    assert [] + [c] == [c] && [c] + [s] == [c, s] && [c, s] + [s] == [c, s, s] && [c, s, s] + [c] == [c, s, s, c];
    assert SideChunks([], Client) == [] && SideChunks([], Server) == [];
    assert SideChunks([c, s, s, c], Client) == [HALF, HALF] && SideChunks([c, s, s, c], Server) == [HALF, HALF];
    FlattenTwo(HALF, HALF);
    assert FrameBytes([TWIN]) == TWIN.Bytes() + FrameBytes([]);
  }

  lemma FlattenTwo(a: seq<Byte>, b: seq<Byte>)
    ensures Flatten([a, b]) == a + b
  {
    assert [a, b][..1] == [a] && [a][..0] == [];
    assert Flatten([a]) == [] + a;
  }

  lemma ReadyAlone()
    ensures FeedAll(Server, [[90, 0, 0, 0, 5, 73]]) == Drained([Tagged([90, 0, 0, 0, 5, 73])], [], None)
  {
    var chunks: seq<seq<Byte>> := [[90, 0, 0, 0, 5, 73]];
    var fs := [Tagged([90, 0, 0, 0, 5, 73])];
    assert chunks[..0] == [] && chunks[..1] == chunks;
    assert Flatten(chunks) == FrameBytes(fs);
    assert ServerStream.ReadRespects(fs, 0, 6);
    ServerStream.ConformingStreamIsTraced(fs, chunks);
  }

  lemma OneMore(calls: seq<Call>, call: Call)
    ensures Shared(calls + [call]) == Step(Shared(calls), call)
    ensures SideChunks(calls + [call], call.side) == SideChunks(calls, call.side) + [call.chunk]
    ensures forall x :: x != call.side ==> SideChunks(calls + [call], x) == SideChunks(calls, x)
  {
    hide Step;
    assert (calls + [call])[..|calls|] == calls;
  }
}
