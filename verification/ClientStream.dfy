/** The client's trace does not depend on how its bytes were split into reads. */
module ClientStream {
  import opened Bytes
  import opened Framing
  import opened Options

  lemma {:induction false} NoLoneFromClient(b: seq<Byte>)
    ensures Lone !in Drain(Client, b).frames
    decreases |b|
  {
    if b != [] && Examine(Client, b).Take? {
      TakenIsPrefix(Client, b);
      NoLoneFromClient(b[|Examine(Client, b).frame.Bytes()|..]);
    }
  }

  /** A read ends at stream offset `p` inside a start-up packet of which 8 or more bytes are in. */
  predicate CutsStartup(fs: seq<Frame>, p: int) {
    fs != [] &&
    var n := |fs[0].Bytes()|;
    if p < n then fs[0].Untagged? && 8 <= p else CutsStartup(fs[1..], p - n)
  }

  /** No read ends inside a start-up packet of which 8 or more bytes are buffered. */
  predicate ReadsSpareStartup(fs: seq<Frame>, chunks: seq<seq<Byte>>) {
    forall k :: 0 <= k <= |chunks| ==> !CutsStartup(fs, |Flatten(chunks[..k])|)
  }

  /** While no read fails, reading piecemeal is draining everything at once. */
  lemma {:induction false} FeedAllIsDrain(chunks: seq<seq<Byte>>)
    ensures FeedAll(Client, chunks).failed.None? ==> FeedAll(Client, chunks) == Drain(Client, Flatten(chunks))
    ensures FeedAll(Client, chunks).failed.Some?
            <==> exists k :: 0 <= k <= |chunks| && Drain(Client, Flatten(chunks[..k])).failed.Some?
  {
    hide Drain;
    DrainUnfolds(Client, []);
    if chunks == [] {
      assert Drain(Client, Flatten(chunks)).failed.None?;
      assert chunks[..0] == chunks;
    } else {
      var n := |chunks| - 1;
      var before := chunks[..n];
      FeedAllIsDrain(before);
      var s := FeedAll(Client, before);
      assert forall k :: 0 <= k <= n ==> before[..k] == chunks[..k];
      assert chunks[..n + 1] == chunks;
      if s.failed.None? {
        NoLoneFromClient(Flatten(before));
        DrainExtends(Client, Flatten(before), chunks[n]);
        assert FeedAll(Client, chunks) == Drain(Client, Flatten(chunks));
      }
    }
  }

  /** A proper part of the frame a round would take: the round waits for the rest of it, or overruns
      when it is a start-up packet with 8 bytes in. */
  lemma ExaminePart(s: seq<Byte>, p: nat)
    requires s != [] && 0 < p <= |s|
    requires Examine(Client, s).Wait? || (Examine(Client, s).Take? && p < |Examine(Client, s).frame.Bytes()|)
    ensures var v := Examine(Client, s[..p]);
            if Examine(Client, s).Take? && Examine(Client, s).frame.Untagged? && 8 <= p
            then v.Fail? else v.Wait?
  {
    var q := s[..p];
    if p >= 8 {
      assert q[0..4] == s[0..4] && q[4..8] == s[4..8];
    }
    if p >= 5 {
      assert q[1..5] == s[1..5];
    }
  }

  /** The frame a round takes is taken from any prefix that holds it, or the prefix is too short
      for a start-up packet to be looked at. */
  lemma ExamineWhole(s: seq<Byte>, p: nat)
    requires s != [] && 0 < p <= |s| && Examine(Client, s).Take?
    requires p >= |Examine(Client, s).frame.Bytes()|
    ensures Examine(Client, s[..p]) == Examine(Client, s) || (p < 8 && Examine(Client, s[..p]).Wait?)
  {
    var q := s[..p];
    var n := |Examine(Client, s).frame.Bytes()|;
    assert q[..n] == s[..n];
    if p >= 8 {
      assert q[0..4] == s[0..4] && q[4..8] == s[4..8];
    }
    if p >= 5 {
      assert q[1..5] == s[1..5];
    }
  }

  lemma {:induction false} EarlyCutsAreHarmless(fs: seq<Frame>, p: int)
    requires p < 8
    ensures !CutsStartup(fs, p)
  {
    if fs != [] {
      EarlyCutsAreHarmless(fs[1..], p - |fs[0].Bytes()|);
    }
  }

  /** What the loop does on a prefix of a stream it can parse: it fails exactly when the prefix
      stops inside a start-up packet, past its eighth byte. */
  lemma {:induction false} PrefixFails(s: seq<Byte>, p: nat)
    requires p <= |s| && Drain(Client, s).failed.None?
    ensures Drain(Client, s[..p]).failed.Some? <==> CutsStartup(Drain(Client, s).frames, p)
    decreases |s|
  {
    hide Examine, Drain;
    DrainUnfolds(Client, s);
    DrainUnfolds(Client, s[..p]);
    if p == 0 {
      EarlyCutsAreHarmless(Drain(Client, s).frames, p);
    } else if Examine(Client, s).Take? {
      var n := |Examine(Client, s).frame.Bytes()|;
      if p < n {
        ExaminePart(s, p);
        CutInFirst(Examine(Client, s).frame, Drain(Client, s[n..]).frames, p);
      } else {
        ExamineWhole(s, p);
        if Examine(Client, s[..p]).Wait? {
          EarlyCutsAreHarmless(Drain(Client, s).frames, p);
        } else {
          PrefixFails(s[n..], p - n);
          assert s[..p][n..] == s[n..][..p - n];
          CutInFirst(Examine(Client, s).frame, Drain(Client, s[n..]).frames, p);
        }
      }
    } else {
      ExaminePart(s, p);
    }
  }

  lemma CutInFirst(f: Frame, fs: seq<Frame>, p: int)
    ensures CutsStartup([f] + fs, p)
        <==> if p < |f.Bytes()| then f.Untagged? && 8 <= p else CutsStartup(fs, p - |f.Bytes()|)
  {
  }

  /**
   Chunk invariance. Take any stream the loop parses when it arrives in one read. Split into reads
   in any way, it gives the same frames and the same remainder exactly when no read ends inside a
   start-up packet of which 8 or more bytes are buffered; and then the remainder is no complete frame.
   */
  lemma ChunkInvariance(chunks: seq<seq<Byte>>)
    requires Drain(Client, Flatten(chunks)).failed.None?
    ensures var whole := Drain(Client, Flatten(chunks));
            && (FeedAll(Client, chunks) == whole <==> ReadsSpareStartup(whole.frames, chunks))
            && (whole.rest == [] || Examine(Client, whole.rest).Wait?)
  {
    var s := Flatten(chunks);
    var whole := Drain(Client, s);
    RestIsIncomplete(Client, s);
    FeedAllIsDrain(chunks);
    forall k | 0 <= k <= |chunks|
      ensures Drain(Client, Flatten(chunks[..k])).failed.Some? <==> CutsStartup(whole.frames, |Flatten(chunks[..k])|)
    {
      FlattenPrefix(chunks, k);
      var q := Flatten(chunks[..k]);
      assert q == s[..|q|];
      PrefixFails(s, |q|);
    }
  }

  /** Whole packets in one read give those packets. */
  lemma {:induction false} DrainConforming(fs: seq<Frame>)
    requires AllConform(Client, fs)
    ensures Drain(Client, FrameBytes(fs)) == Drained(fs, [], None)
  {
    hide Examine, Int32At;
    if fs != [] {
      ExamineConforming(Client, fs[0], FrameBytes(fs[1..]));
      assert Conforms(Client, fs[0]);
      DrainConforming(fs[1..]);
      assert FrameBytes(fs)[|fs[0].Bytes()|..] == FrameBytes(fs[1..]);
      assert fs == [fs[0]] + fs[1..];
    }
  }

  /**
   For a stream of conforming packets, split into reads in any way: the packets are traced, in order
   and with nothing left over, exactly when no read ends inside a start-up packet of which 8 or more
   bytes are buffered.
   */
  lemma ConformingStreamIsTraced(fs: seq<Frame>, chunks: seq<seq<Byte>>)
    requires AllConform(Client, fs) && Flatten(chunks) == FrameBytes(fs)
    ensures FeedAll(Client, chunks) == Drained(fs, [], None) <==> ReadsSpareStartup(fs, chunks)
  {
    DrainConforming(fs);
    ChunkInvariance(chunks);
  }
}
