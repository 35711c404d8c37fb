/**
 The server's trace and how its bytes were split into reads. A one-byte refusal `N` has no length, so
 the loop tells it from the first byte of a NoticeResponse by where the reads end.
 */
module ServerStream {
  import opened Bytes
  import opened Framing
  import opened Options

  predicate IsNotice(f: Frame) {
    f.Tagged? && f.bytes != [] && f.bytes[0] == LETTER_N
  }

  /**
   A read that brings the stream from offset `from` to offset `to` respects the packets `fs`:
   it has no bytes on both sides of the end of a one-byte refusal, and it does not end just behind
   the first byte of a NoticeResponse.
   */
  predicate ReadRespects(fs: seq<Frame>, from: int, to: int) {
    fs == [] ||
    var n := |fs[0].Bytes()|;
    && (fs[0].Lone? ==> !(from < 1 < to))
    && (IsNotice(fs[0]) ==> to != 1)
    && ReadRespects(fs[1..], from - n, to - n)
  }

  predicate ReadsRespect(fs: seq<Frame>, chunks: seq<seq<Byte>>) {
    forall k :: 0 <= k < |chunks| ==> ReadRespects(fs, |Flatten(chunks[..k])|, |Flatten(chunks[..k + 1])|)
  }

  // ---------------------------------------------------------------- the state the trace should be in

  /** After `p` bytes of the packets `fs`: the packets that are complete, and the bytes of the next one. */
  function Ideal(fs: seq<Frame>, p: nat): Drained
    requires p <= |FrameBytes(fs)|
  {
    if fs == [] || p < |fs[0].Bytes()| then Drained([], FrameBytes(fs)[..p], None)
    else Ideal(fs[1..], p - |fs[0].Bytes()|).After(fs[0])
  }

  /** No continuation traces `fs`: a traced frame is wrong, the loop failed, or the refusal that
      should come next is already followed by another byte. */
  predicate Doomed(fs: seq<Frame>, s: Drained) {
    || !(s.frames <= fs)
    || s.failed.Some?
    || (|s.frames| < |fs| && fs[|s.frames|].Lone? && |s.rest| >= 2 && s.rest[0] == LETTER_N)
  }

  /** A loop over at least two bytes that start with `N` never takes a refusal first. */
  lemma RefusalIsAlone(b: seq<Byte>)
    requires |b| >= 2 && b[0] == LETTER_N
    ensures Examine(Server, b).Take? ==> Examine(Server, b).frame.Tagged?
  {
  }

  /** A part of a conforming packet waits, unless it is the lone first byte of a NoticeResponse. */
  lemma ExaminePart(f: Frame, p: nat)
    requires Conforms(Server, f) && 0 < p < |f.Bytes()|
    ensures Examine(Server, f.Bytes()[..p]) == if IsNotice(f) && p == 1 then Take(Lone) else Wait
  {
    var q := f.bytes[..p];
    if p >= 5 {
      assert q[1..5] == f.bytes[1..5];
    }
    if p == 1 {
      assert q == [f.bytes[0]];
    }
  }

  /** The first packet is not complete. */
  lemma DrainOfPart(fs: seq<Frame>, from: int, p: nat)
    requires AllConform(Server, fs) && fs != [] && p < |fs[0].Bytes()|
    ensures FrameBytes(fs)[..p] == fs[0].Bytes()[..p]
    ensures var d := Drain(Server, FrameBytes(fs)[..p]);
            if ReadRespects(fs, from, p) then d == Ideal(fs, p) else Doomed(fs, d)
  {
    hide Examine, Int32At;
    var f := fs[0];
    assert Conforms(Server, f);
    assert FrameBytes(fs)[..p] == f.Bytes()[..p];
    BeyondIsRespected(fs[1..], from - |f.Bytes()|, p - |f.Bytes()|);
    if p > 0 {
      ExaminePart(f, p);
    }
  }

  /** The first packet is a refusal, and more bytes are behind it. */
  lemma DrainOfFollowedRefusal(fs: seq<Frame>, b: seq<Byte>)
    requires fs != [] && fs[0].Lone? && |b| > 1 && b[0] == LETTER_N
    ensures Doomed(fs, Drain(Server, b))
  {
    hide Examine;
    RefusalIsAlone(b);
    DrainFrames(b);
  }

  /** One loop over a buffer of `p` bytes from the start of a packet, the read having begun at `from`. */
  lemma {:induction false} DrainVerdict(fs: seq<Frame>, from: int, p: nat)
    requires AllConform(Server, fs) && p <= |FrameBytes(fs)|
    requires from <= 0 || (fs != [] && from < |fs[0].Bytes()|)
    ensures var d := Drain(Server, FrameBytes(fs)[..p]);
            if ReadRespects(fs, from, p) then d == Ideal(fs, p) else Doomed(fs, d)
    decreases |fs|
  {
    hide Examine, Int32At, Doomed;
    if fs != [] {
      var f := fs[0];
      assert Conforms(Server, f);
      var n, q := |f.Bytes()|, FrameBytes(fs)[..p];
      if p < n {
        DrainOfPart(fs, from, p);
      } else if f.Lone? && p > 1 {
        DrainOfFollowedRefusal(fs, q);
      } else {
        var c := FrameBytes(fs[1..])[..p - n];
        assert q == f.Bytes() + c && q[n..] == c;
        ExamineConforming(Server, f, c);
        assert Drain(Server, q) == Drain(Server, c).After(f);
        DrainVerdict(fs[1..], from - n, p - n);
        DoomedAfter(fs, Drain(Server, c));
      }
    }
  }

  /** Packets that start at or behind the end of a read do not restrict it. */
  lemma {:induction false} BeyondIsRespected(fs: seq<Frame>, from: int, to: int)
    requires to <= 0
    ensures ReadRespects(fs, from, to)
  {
    if fs != [] {
      BeyondIsRespected(fs[1..], from - |fs[0].Bytes()|, to - |fs[0].Bytes()|);
    }
  }

  lemma DrainFrames(b: seq<Byte>)
    requires b != []
    ensures Examine(Server, b).Take?
            ==> Drain(Server, b).frames != [] && Drain(Server, b).frames[0] == Examine(Server, b).frame
    ensures !Examine(Server, b).Take? ==> Drain(Server, b).frames == [] && Drain(Server, b).rest == b
  {
  }

  lemma DoomedAfter(fs: seq<Frame>, d: Drained)
    requires fs != []
    ensures Doomed(fs[1..], d) ==> Doomed(fs, d.After(fs[0]))
  {
    if [fs[0]] + d.frames <= fs {
      assert d.frames == fs[1..][..|d.frames|];
    }
  }

  // ---------------------------------------------------------------- all reads

  /** One read, from the ideal state at offset `from` to offset `to`. */
  lemma {:induction false} FeedVerdict(fs: seq<Frame>, from: nat, to: nat)
    requires AllConform(Server, fs) && from <= to <= |FrameBytes(fs)|
    ensures var s := Feed(Server, Ideal(fs, from), FrameBytes(fs)[from..to]);
            if ReadRespects(fs, from, to) then s == Ideal(fs, to) else Doomed(fs, s)
    decreases |fs|
  {
    hide Drain, Int32At, Doomed;
    var chunk := FrameBytes(fs)[from..to];
    if fs == [] || from < |fs[0].Bytes()| {
      assert FrameBytes(fs)[..from] + chunk == FrameBytes(fs)[..to];
      DrainVerdict(fs, from, to);
      ThenNothing(FrameBytes(fs)[..from], Drain(Server, FrameBytes(fs)[..to]));
    } else {
      var n, s := |fs[0].Bytes()|, Ideal(fs[1..], from - |fs[0].Bytes()|);
      assert Conforms(Server, fs[0]);
      assert chunk == FrameBytes(fs[1..])[from - n..to - n];
      FeedVerdict(fs[1..], from - n, to - n);
      FeedAfter(s, fs[0], chunk);
      DoomedAfter(fs, Feed(Server, s, chunk));
    }
  }

  lemma FeedAfter(s: Drained, f: Frame, chunk: seq<Byte>)
    ensures Feed(Server, s.After(f), chunk) == Feed(Server, s, chunk).After(f)
  {
    if s.failed.None? {
      ThenAfter(f, s, Drain(Server, s.rest + chunk));
    }
  }

  lemma DoomStays(fs: seq<Frame>, s: Drained, chunk: seq<Byte>)
    requires Doomed(fs, s)
    ensures Doomed(fs, Feed(Server, s, chunk))
  {
    var t := Feed(Server, s, chunk);
    assert t.frames <= fs ==> s.frames == t.frames[..|s.frames|] <= fs;
    if s.failed.None? && s.frames <= fs {
      var b := s.rest + chunk;
      RefusalIsAlone(b);
      DrainFrames(b);
      var d := Drain(Server, b);
      assert d.frames != [] ==> t.frames[|s.frames|] == d.frames[0] && d.frames[0].Tagged?;
    }
  }

  lemma {:induction false} FeedAllVerdict(fs: seq<Frame>, chunks: seq<seq<Byte>>)
    requires AllConform(Server, fs) && Flatten(chunks) <= FrameBytes(fs)
    ensures var s := FeedAll(Server, chunks);
            if ReadsRespect(fs, chunks) then s == Ideal(fs, |Flatten(chunks)|) else Doomed(fs, s)
  {
    if chunks == [] {
      IdealAtStart(fs);
    } else {
      var n := |chunks| - 1;
      var before := chunks[..n];
      var from, to := |Flatten(before)|, |Flatten(chunks)|;
      FeedAllVerdict(fs, before);
      assert forall k :: 0 <= k <= n ==> before[..k] == chunks[..k];
      assert chunks[..n + 1] == chunks;
      assert chunks[n] == FrameBytes(fs)[from..to];
      if ReadsRespect(fs, before) {
        FeedVerdict(fs, from, to);
        assert ReadsRespect(fs, chunks) <==> ReadRespects(fs, from, to);
      } else {
        DoomStays(fs, FeedAll(Server, before), chunks[n]);
      }
    }
  }

  lemma IdealAtStart(fs: seq<Frame>)
    requires AllConform(Server, fs)
    ensures Ideal(fs, 0) == Drained([], [], None)
  {
    assert fs != [] ==> Conforms(Server, fs[0]);
  }

  lemma {:induction false} IdealAtEnd(fs: seq<Frame>)
    requires AllConform(Server, fs)
    ensures Ideal(fs, |FrameBytes(fs)|) == Drained(fs, [], None)
  {
    if fs != [] {
      IdealAtEnd(fs[1..]);
      assert fs == [fs[0]] + fs[1..];
    }
  }

  /**
   For a stream of conforming backend packets, one-byte refusals among them, split into reads in any
   way: the packets are traced, in order and with nothing left over, exactly when no read has bytes on
   both sides of the end of a refusal and none ends just behind the first byte of a NoticeResponse.
   */
  lemma ConformingStreamIsTraced(fs: seq<Frame>, chunks: seq<seq<Byte>>)
    requires AllConform(Server, fs) && Flatten(chunks) == FrameBytes(fs)
    ensures FeedAll(Server, chunks) == Drained(fs, [], None) <==> ReadsRespect(fs, chunks)
  {
    FeedAllVerdict(fs, chunks);
    IdealAtEnd(fs);
  }

  /** Where the reads are well behaved, every prefix of the reads has traced exactly the packets that
      are complete, and what is left is the incomplete rest. */
  lemma EveryPrefixIsIdeal(fs: seq<Frame>, chunks: seq<seq<Byte>>, k: nat)
    requires AllConform(Server, fs) && Flatten(chunks) == FrameBytes(fs)
    requires ReadsRespect(fs, chunks) && k <= |chunks|
    ensures |Flatten(chunks[..k])| <= |FrameBytes(fs)|
    ensures FeedAll(Server, chunks[..k]) == Ideal(fs, |Flatten(chunks[..k])|)
  {
    FlattenPrefix(chunks, k);
    assert forall i :: 0 <= i <= k ==> chunks[..k][..i] == chunks[..i];
    FeedAllVerdict(fs, chunks[..k]);
  }
}
