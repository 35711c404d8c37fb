/**
 Cutting a byte stream into protocol frames: what one pass of the framing loops of
 `pgprtdbg_client` and `pgprtdbg_server` does with the buffered bytes.
 */
module Framing {
  import opened Bytes
  import opened Options

  datatype Side = Client | Server

  /** A piece the loops cut off: an untagged start-up packet, the one-byte answer `N`,
      or a packet with a kind byte and a length. */
  datatype Frame = Untagged(bytes: seq<Byte>) | Lone | Tagged(bytes: seq<Byte>) {
    function Bytes(): seq<Byte> {
      if Lone? then [LETTER_N] else bytes
    }
  }

  /** Why a loop does not come to rest: it runs past the buffer, it removes nothing and
      repeats, or it ends the process. */
  datatype Failure = OverRun | Spin | Exit

  datatype Verdict = Wait | Take(frame: Frame) | Fail(why: Failure)

  const LETTER_N: Byte := 78
  const LETTER_D: Byte := 68

  const PROTOCOL_3: int := 196608
  const CANCEL_REQUEST: int := 80877102
  const SSL_REQUEST: int := 80877103
  const GSS_REQUEST: int := 80877104
  const PROTOCOL_2: int := 131072

  predicate KnownRequest(request: int) {
    || request == PROTOCOL_3
    || request == CANCEL_REQUEST
    || request == SSL_REQUEST
    || request == GSS_REQUEST
    || request == PROTOCOL_2
  }

  /** `length + 1` on a 32-bit `length`. */
  function Successor32(length: int): int {
    if length == 0x7fff_ffff then -0x8000_0000 else length + 1
  }

  /** A DataRow of 32767 columns: the 16-bit variable of the loop over them never exceeds their number, and
      the cursor leaves the buffer. */
  predicate EndlessRow(packet: seq<Byte>) {
    |packet| >= 7 && packet[0] == LETTER_D && Int16At(packet, 5) == 0x7fff
  }

  /** One round of a framing loop on a non-empty buffer. A negative size compares as a huge
      unsigned one, so the tagged branch waits for it and the untagged branch overruns. */
  function Examine(side: Side, b: seq<Byte>): Verdict
    requires b != []
  {
    if side.Client? && b[0] == 0 && |b| >= 8 then
      var length := Int32At(b, 0);
      if !KnownRequest(Int32At(b, 4)) then Fail(Exit)
      else if !(0 <= length <= |b|) then Fail(OverRun)
      else if length == 0 then Fail(Spin)
      else Take(Untagged(b[..length]))
    else if side.Server? && b == [LETTER_N] then
      Take(Lone)
    else if b[0] != 0 && |b| >= 5 then
      var size := Successor32(Int32At(b, 1));
      if size < 0 || |b| < size then Wait
      else if size == 0 then Fail(Spin)
      else if side.Server? && EndlessRow(b[..size]) then Fail(OverRun)
      else Take(Tagged(b[..size]))
    else
      Wait
  }

  /** What a loop leaves behind: the frames it cut, the bytes still buffered, and how it failed. */
  datatype Drained = Drained(frames: seq<Frame>, rest: seq<Byte>, failed: Option<Failure>) {
    function After(f: Frame): Drained {
      this.(frames := [f] + frames)
    }
  }

  function FrameBytes(fs: seq<Frame>): seq<Byte> {
    if fs == [] then [] else fs[0].Bytes() + FrameBytes(fs[1..])
  }

  lemma TakenIsPrefix(side: Side, b: seq<Byte>)
    requires b != [] && Examine(side, b).Take?
    ensures var f := Examine(side, b).frame.Bytes(); 0 < |f| <= |b| && f == b[..|f|]
  {
  }

  /** The whole loop. It ends because every frame taken shortens the buffer. */
  function Drain(side: Side, b: seq<Byte>): Drained
    decreases |b|
  {
    if b == [] then Drained([], [], None)
    else match Examine(side, b)
      case Wait => Drained([], b, None)
      case Fail(why) => Drained([], b, Some(why))
      case Take(f) =>
        TakenIsPrefix(side, b);
        Drain(side, b[|f.Bytes()|..]).After(f)
  }

  /** What the first round makes of the loop. */
  lemma DrainUnfolds(side: Side, b: seq<Byte>)
    ensures b == [] ==> Drain(side, b) == Drained([], [], None)
    ensures b != [] && Examine(side, b).Wait? ==> Drain(side, b) == Drained([], b, None)
    ensures b != [] && Examine(side, b).Fail? ==> Drain(side, b) == Drained([], b, Some(Examine(side, b).why))
    ensures b != [] && Examine(side, b).Take?
            ==> var f := Examine(side, b).frame;
                0 < |f.Bytes()| <= |b| && Drain(side, b) == Drain(side, b[|f.Bytes()|..]).After(f)
  {
  }

  // ---------------------------------------------------------------- properties of one loop

  lemma BytesAfter(f: Frame, d: Drained)
    ensures FrameBytes(d.After(f).frames) + d.After(f).rest == f.Bytes() + (FrameBytes(d.frames) + d.rest)
  {
    var fs := [f] + d.frames;
    assert fs[0] == f && fs[1..] == d.frames;
    assert f.Bytes() + FrameBytes(d.frames) + d.rest == f.Bytes() + (FrameBytes(d.frames) + d.rest);
  }

  /** The frames and what is left are exactly the bytes that were buffered, in order. */
  lemma {:induction false} DrainConserves(side: Side, b: seq<Byte>)
    ensures FrameBytes(Drain(side, b).frames) + Drain(side, b).rest == b
    decreases |b|
  {
    hide Examine, Drain;
    DrainUnfolds(side, b);
    if b != [] && Examine(side, b).Take? {
      var f := Examine(side, b).frame;
      TakenIsPrefix(side, b);
      var after := b[|f.Bytes()|..];
      DrainConserves(side, after);
      BytesAfter(f, Drain(side, after));
      assert b == f.Bytes() + after;
    }
  }

  /** A loop that came to rest left no complete frame: there is nothing, or the next round waits. */
  lemma {:induction false} RestIsIncomplete(side: Side, b: seq<Byte>)
    requires Drain(side, b).failed.None?
    ensures var r := Drain(side, b).rest; r == [] || Examine(side, r).Wait?
    decreases |b|
  {
    if b != [] && Examine(side, b).Take? {
      TakenIsPrefix(side, b);
      RestIsIncomplete(side, b[|Examine(side, b).frame.Bytes()|..]);
    }
  }

  /** A loop that failed did so on what it left behind. */
  lemma {:induction false} FailureIsAtRest(side: Side, b: seq<Byte>)
    requires Drain(side, b).failed.Some?
    ensures var d := Drain(side, b); d.rest != [] && Examine(side, d.rest) == Fail(d.failed.value)
    decreases |b|
  {
    if b != [] && Examine(side, b).Take? {
      TakenIsPrefix(side, b);
      FailureIsAtRest(side, b[|Examine(side, b).frame.Bytes()|..]);
    }
  }

  /** A verdict other than waiting does not change when more bytes arrive, except a lone `N`
      and a start-up packet of which only a part is there. */
  lemma ExamineExtends(side: Side, b: seq<Byte>, c: seq<Byte>)
    requires b != []
    ensures Examine(side, b).Take? && !Examine(side, b).frame.Lone?
            ==> Examine(side, b + c) == Examine(side, b)
  {
    hide EndlessRow;
    if |b| >= 8 {
      assert (b + c)[0..4] == b[0..4] && (b + c)[4..8] == b[4..8];
    }
    if |b| >= 5 {
      assert (b + c)[1..5] == b[1..5];
    }
    if Examine(side, b).Take? && !Examine(side, b).frame.Lone? {
      var n := |Examine(side, b).frame.bytes|;
      assert (b + c)[..n] == b[..n];
    }
  }

  /** `d` with what a later loop `e` cut and left. */
  function Then(d: Drained, e: Drained): Drained {
    Drained(d.frames + e.frames, e.rest, e.failed)
  }

  lemma ThenAfter(f: Frame, d: Drained, e: Drained)
    ensures Then(d.After(f), e) == Then(d, e).After(f)
  {
    assert [f] + d.frames + e.frames == [f] + (d.frames + e.frames);
  }

  lemma ThenNothing(rest: seq<Byte>, e: Drained)
    ensures Then(Drained([], rest, None), e) == e
  {
    assert [] + e.frames == e.frames;
  }

  /** Draining `b` and then draining what is left with `c` behind it is draining `b + c`, unless
      the first loop failed or took a lone `N`. */
  lemma {:induction false} DrainExtends(side: Side, b: seq<Byte>, c: seq<Byte>)
    requires Drain(side, b).failed.None? && Lone !in Drain(side, b).frames
    ensures Drain(side, b + c) == Then(Drain(side, b), Drain(side, Drain(side, b).rest + c))
    decreases |b|
  {
    hide Examine, Then;
    if b != [] && Examine(side, b).Take? {
      var f := Examine(side, b).frame;
      var n := |f.Bytes()|;
      TakenIsPrefix(side, b);
      var d := Drain(side, b[n..]);
      assert Drain(side, b) == d.After(f);
      assert f in Drain(side, b).frames && forall g :: g in d.frames ==> g in [f] + d.frames;
      DrainExtends(side, b[n..], c);
      ExamineExtends(side, b, c);
      assert (b + c)[n..] == b[n..] + c;
      ThenAfter(f, d, Drain(side, d.rest + c));
    } else {
      ThenNothing(b, Drain(side, b + c));
    }
  }

  // ---------------------------------------------------------------- well-formed frames

  /** The packets of the protocol (section 55.7, "Message Formats"): a length that counts itself and
      what follows; start-up packets have no kind and a length whose first byte is zero. A DataRow has fewer
      than 32767 columns. */
  predicate Conforms(side: Side, f: Frame) {
    match f
    case Untagged(b) =>
      side.Client? && |b| >= 8 && b[0] == 0 && Int32At(b, 0) == |b| && KnownRequest(Int32At(b, 4))
    case Lone => side.Server?
    case Tagged(b) =>
      && |b| >= 5 && b[0] != 0 && Int32At(b, 1) + 1 == |b| && |b| <= 0x7fff_ffff
      && !(side.Server? && EndlessRow(b))
  }

  predicate AllConform(side: Side, fs: seq<Frame>) {
    forall f | f in fs :: Conforms(side, f)
  }

  lemma ExamineConforming(side: Side, f: Frame, c: seq<Byte>)
    requires Conforms(side, f) && (f.Lone? ==> c == [])
    ensures Examine(side, f.Bytes() + c) == Take(f)
  {
    var b := f.Bytes() + c;
    if !f.Lone? {
      assert b[..|f.bytes|] == f.bytes;
      if f.Untagged? {
        assert b[0..4] == f.bytes[0..4] && b[4..8] == f.bytes[4..8];
      } else {
        assert b[1..5] == f.bytes[1..5];
      }
    }
  }

  // ---------------------------------------------------------------- sequences of reads

  function Flatten(chunks: seq<seq<Byte>>): seq<Byte> {
    if chunks == [] then [] else Flatten(chunks[..|chunks| - 1]) + chunks[|chunks| - 1]
  }

  lemma {:induction false} FlattenPrefix(chunks: seq<seq<Byte>>, k: nat)
    requires k <= |chunks|
    ensures Flatten(chunks[..k]) <= Flatten(chunks)
  {
    if k < |chunks| {
      FlattenPrefix(chunks[..|chunks| - 1], k);
      assert chunks[..|chunks| - 1][..k] == chunks[..k];
    } else {
      assert chunks[..k] == chunks;
    }
  }

  /** One read: append it to the buffer, then run the loop. A failed process reads no more. */
  function Feed(side: Side, s: Drained, chunk: seq<Byte>): Drained {
    if s.failed.Some? then s
    else
      Then(s, Drain(side, s.rest + chunk))
  }

  /** All reads of one direction, on a buffer of its own. */
  function FeedAll(side: Side, chunks: seq<seq<Byte>>): Drained {
    if chunks == [] then Drained([], [], None)
    else Feed(side, FeedAll(side, chunks[..|chunks| - 1]), chunks[|chunks| - 1])
  }
}
