/** The decoders that walk over strings without a count: `fe_zero`, `be_E` and `be_R`. */
module Walks {
  import opened Bytes
  import opened Framing
  import opened IntegerCodec
  import opened Wire
  import opened Decoders

  // ---------------------------------------------------------------- start-up parameters

  function CountNuls(s: seq<Byte>): nat {
    if s == [] then 0
    else CountNuls(s[..|s| - 1]) + if s[|s| - 1] == 0 then 1 else 0
  }

  datatype Pieces = Pieces(whole: seq<seq<Byte>>, tail: seq<Byte>)

  /** `s` cut behind every NUL, and what follows the last one. */
  function Split(s: seq<Byte>): Pieces {
    if s == [] then Pieces([], [])
    else
      var p, c := Split(s[..|s| - 1]), s[|s| - 1];
      if c == 0 then Pieces(p.whole + [p.tail + [0]], []) else Pieces(p.whole, p.tail + [c])
  }

  function Join(pieces: seq<seq<Byte>>): seq<Byte> {
    if pieces == [] then [] else Join(pieces[..|pieces| - 1]) + pieces[|pieces| - 1]
  }

  /** Exactly one NUL, at the end. */
  predicate IsPiece(p: seq<Byte>) {
    p != [] && p[|p| - 1] == 0 && NulFree(p[..|p| - 1])
  }

  /** Cutting loses nothing, every piece holds exactly one NUL, at its end, and there is one for each NUL. */
  lemma {:induction false} SplitIsExact(s: seq<Byte>)
    ensures var p := Split(s);
            && |p.whole| == CountNuls(s)
            && (forall i :: 0 <= i < |p.whole| ==> IsPiece(p.whole[i]))
            && NulFree(p.tail)
            && Join(p.whole) + p.tail == s
  {
    if s != [] {
      var front := s[..|s| - 1];
      SplitIsExact(front);
      var p, q := Split(front), Split(s);
      assert s == front + [s[|s| - 1]];
      if s[|s| - 1] == 0 {
        assert q.whole[..|p.whole|] == p.whole && (p.tail + [0])[..|p.tail|] == p.tail;
      }
    }
  }

  /** Where the parameters are: from offset 8 to before the last byte. */
  function Region(frame: seq<Byte>): seq<Byte> {
    if |frame| <= 8 then [] else frame[8..|frame| - 1]
  }

  /** Pass one of `fe_zero`: the NULs before the last byte. */
  method CountPass(frame: seq<Byte>) returns (counter: nat)
    requires |frame| >= 8
    ensures counter == CountNuls(Region(frame))
  {
    var length := |frame|;
    counter := 0;
    var i := 8;
    while i < length - 1
      invariant 8 <= i <= length && (i < length || length == 8)
      invariant counter == CountNuls(frame[8..i])
    {
      assert frame[8..i + 1][..i - 8] == frame[8..i];
      if frame[i] == 0 {
        counter := counter + 1;
      }
      i := i + 1;
    }
    assert Region(frame) == frame[8..i];
  }

  /** Pass two: a copy of each piece, up to and with its NUL, into the array that pass one sized. Every
      write is inside the array. */
  method CopyPass(frame: seq<Byte>, slots: array<seq<Byte>>) returns (counter: nat)
    requires |frame| >= 8 && slots.Length == CountNuls(Region(frame))
    modifies slots
    ensures counter == slots.Length
    ensures slots[..] == Split(Region(frame)).whole
  {
    hide Split, CountNuls;
    ghost var region := Region(frame);
    SplitIsExact(region);
    NothingSplit();
    var length := |frame|;
    counter := 0;
    var i, start, end := 8, 8, 8;
    while i < length - 1
      invariant end == i && 8 <= start <= end && i <= length && (i < length || length == 8)
      invariant frame[start..end] == Split(frame[8..i]).tail
      invariant counter == |Split(frame[8..i]).whole| <= slots.Length
      invariant slots[..counter] == Split(frame[8..i]).whole
    {
      SplitNext(frame, i, start);
      assert region[..i + 1 - 8] == frame[8..i + 1];
      PrefixHasNoMorePieces(region, i + 1 - 8);
      end := end + 1;
      if frame[i] == 0 {
        slots[counter] := frame[start..end];
        start := end;
        counter := counter + 1;
      }
      i := i + 1;
    }
    assert region == frame[8..i];
    assert slots[..] == slots[..counter];
  }

  lemma NoStrings()
    ensures Strings([]) == []
  {
  }

  lemma NothingSplit()
    ensures Split([]) == Pieces([], [])
  {
  }

  lemma SplitNext(frame: seq<Byte>, i: nat, start: nat)
    requires 8 <= start <= i < |frame| && frame[start..i] == Split(frame[8..i]).tail
    ensures var p, q := Split(frame[8..i]), Split(frame[8..i + 1]);
            if frame[i] == 0 then q == Pieces(p.whole + [frame[start..i + 1]], [])
            else q == Pieces(p.whole, frame[start..i + 1])
  {
    assert frame[8..i + 1][..i - 8] == frame[8..i];
    assert frame[start..i + 1] == frame[start..i] + [frame[i]];
  }

  /** Both passes of `fe_zero` over a start-up packet with parameters. */
  method StartupParameters(frame: seq<Byte>) returns (counted: nat, pieces: seq<seq<Byte>>)
    requires |frame| >= 8
    ensures counted == |pieces| == CountNuls(Region(frame))
    ensures pieces == Split(Region(frame)).whole
  {
    counted := CountPass(frame);
    var slots := new seq<Byte>[counted];
    var filled := CopyPass(frame, slots);
    pieces := slots[..];
  }

  lemma {:induction false} PrefixHasNoMorePieces(s: seq<Byte>, n: nat)
    requires n <= |s|
    ensures |Split(s[..n]).whole| <= CountNuls(s)
  {
    if n < |s| {
      PrefixHasNoMorePieces(s[..|s| - 1], n);
      assert s[..|s| - 1][..n] == s[..n];
    } else {
      assert s[..n] == s;
      SplitIsExact(s);
    }
  }

  /** The body of a conforming StartupMessage: names and values in turn, then a final NUL. */
  function StartupMessage(strings: seq<seq<Byte>>): seq<Byte> {
    EncodeInt(9 + |Strings(strings)|, 4) + EncodeInt(PROTOCOL_3, 4) + Strings(strings) + [0]
  }

  lemma {:induction false} SplitAppends(s: seq<Byte>, t: seq<Byte>)
    requires NulFree(t)
    ensures Split(s + t) == Pieces(Split(s).whole, Split(s).tail + t)
  {
    if t == [] {
      assert s + t == s && Split(s).tail + t == Split(s).tail;
    } else {
      var front := t[..|t| - 1];
      SplitAppends(s, front);
      assert (s + t)[..|s + t| - 1] == s + front;
      assert Split(s).tail + front + [t[|t| - 1]] == Split(s).tail + t;
    }
  }

  lemma SplitAtNul(s: seq<Byte>)
    ensures Split(s + [0]) == Pieces(Split(s).whole + [Split(s).tail + [0]], [])
  {
    assert (s + [0])[..|s|] == s;
  }

  lemma {:induction false} StringsOfLast(ss: seq<seq<Byte>>)
    requires ss != []
    ensures Strings(ss) == Strings(ss[..|ss| - 1]) + EncodeString(ss[|ss| - 1])
  {
    if |ss| == 1 {
      assert ss[..0] == [];
      assert Strings(ss) == EncodeString(ss[0]) + [];
    } else {
      StringsOfLast(ss[1..]);
      assert ss[1..][..|ss| - 2] == ss[..|ss| - 1][1..];
      assert Strings(ss) == EncodeString(ss[0]) + Strings(ss[1..]);
    }
  }

  /** On a conforming packet the pieces are its strings, each with its NUL, and only the final NUL is
      in none of them. */
  lemma {:induction false} SplitOfStrings(ss: seq<seq<Byte>>)
    requires forall i :: 0 <= i < |ss| ==> NulFree(ss[i])
    ensures Split(Strings(ss)) == Pieces(Encoded(ss), [])
  {
    hide Split, NulFree, EncodeString, Strings;
    if ss == [] {
      NothingSplit();
      NoStrings();
    } else {
      var front, last := ss[..|ss| - 1], ss[|ss| - 1];
      SplitOfStrings(front);
      StringsOfLast(ss);
      SplitAppends(Strings(front), last);
      assert [] + last == last;
      SplitAtNul(Strings(front) + last);
      EndsInNul(Strings(front), last);
      assert Encoded(ss) == Encoded(front) + [EncodeString(last)];
    }
  }

  /** Each string with its NUL. */
  function Encoded(ss: seq<seq<Byte>>): seq<seq<Byte>> {
    seq(|ss|, i requires 0 <= i < |ss| => EncodeString(ss[i]))
  }

  lemma EndsInNul(s: seq<Byte>, t: seq<Byte>)
    ensures s + EncodeString(t) == s + t + [0] && EncodeString(t) == t + [0]
  {
  }

  lemma StartupLayout(strings: seq<seq<Byte>>)
    requires 9 + |Strings(strings)| < 0x100_0000
    ensures var frame := StartupMessage(strings);
            && Conforms(Client, Untagged(frame)) && Int32At(frame, 4) == PROTOCOL_3
            && Region(frame) == Strings(strings)
  {
    hide EncodeInt, Strings, Int32At;
    var frame := StartupMessage(strings);
    Int32AtEncoding(frame, 0, |frame|);
    Int32AtEncoding(frame, 4, PROTOCOL_3);
    SmallLengthStartsWithZero(frame);
  }

  /** The parameters of a conforming StartupMessage are all found, in order. */
  lemma StartupIsRead(strings: seq<seq<Byte>>)
    requires forall i :: 0 <= i < |strings| ==> NulFree(strings[i])
    requires 9 + |Strings(strings)| < 0x100_0000
    ensures var frame := StartupMessage(strings);
            && Conforms(Client, Untagged(frame)) && Int32At(frame, 4) == 3 * 65536
            && Split(Region(frame)).whole == Encoded(strings)
            && Join(Split(Region(frame)).whole) == frame[8..|frame| - 1]
  {
    hide StartupMessage, Strings, Conforms, Int32At, EncodeString;
    StartupLayout(strings);
    SplitOfStrings(strings);
    var s := Strings(strings);
    SplitIsExact(s);
    assert Join(Split(s).whole) + [] == Join(Split(s).whole);
    assert |StartupMessage(strings)| > 8 by {
      StartupLength(strings);
    }
  }

  lemma StartupLength(strings: seq<seq<Byte>>)
    ensures |StartupMessage(strings)| == 9 + |Strings(strings)|
  {
  }

  // ---------------------------------------------------------------- ErrorResponse

  function ErrorResponse(fs: seq<ErrorField>): seq<Byte> {
    ErrorFields(fs) + [0]
  }

  /**
   `be_E` on a well-formed ErrorResponse. The loop compares its cursor, which starts behind the length,
   with the length less four, so it visits a prefix of the fields, in order, and leaves out the fields
   of a suffix of at most four bytes. Nothing is left out exactly when the last text has three bytes.
   */
  method WalkError(frame: seq<Byte>, ghost fs: seq<ErrorField>) returns (visited: seq<ErrorField>, o: int)
    requires forall i :: 0 <= i < |fs| ==> fs[i].Valid()
    requires FitsPacket(ErrorResponse(fs)) && frame == Packet('E' as int, ErrorResponse(fs))
    ensures visited <= fs && o < |frame|
    ensures forall k :: 0 <= k < |visited| ==> |ErrorFields(fs[k..])| > 4
    ensures |ErrorFields(fs[|visited|..])| <= 4
    ensures visited == fs <==> fs == [] || |fs[|fs| - 1].text| >= 3
  {
    hide EncodeInt, Int32At, Packet, Holds, ErrorFields;
    PacketLayout('E' as int, ErrorResponse(fs));
    HoldsFrom('E' as int, ErrorResponse(fs));
    var length := ReadInt32(frame, 1);
    o, visited := 1 + 4, [];
    assert fs[0..] == fs;
    Remaining(frame, o, ErrorResponse(fs));
    while o < length - 4
      invariant |visited| <= |fs| && visited == fs[..|visited|]
      invariant Holds(frame, o, ErrorResponse(fs[|visited|..]))
      invariant o + |ErrorFields(fs[|visited|..])| + 1 == |frame|
      invariant forall k :: 0 <= k < |visited| ==> |ErrorFields(fs[k..])| > 4
      decreases |fs| - |visited|
    {
      ghost var i := |visited|;
      ErrorResponseFrom(fs, i);
      var field;
      field, o := TakeErrorField(frame, o, fs[i], ErrorResponse(fs[i + 1..]));
      Remaining(frame, o, ErrorResponse(fs[i + 1..]));
      visited := visited + [field];
    }
    LastFieldDecides(fs, |visited|);
  }

  lemma ErrorResponseFrom(fs: seq<ErrorField>, i: nat)
    requires i <= |fs| && |ErrorFields(fs[i..])| > 4
    ensures i < |fs| && ErrorResponse(fs[i..]) == fs[i].Encode() + ErrorResponse(fs[i + 1..])
  {
    assert i < |fs| ==> fs[i..][1..] == fs[i + 1..];
  }

  method TakeErrorField(frame: seq<Byte>, o: int, ghost f: ErrorField, ghost rest: seq<Byte>)
    returns (field: ErrorField, next: int)
    requires f.Valid() && Holds(frame, o, f.Encode() + rest)
    ensures field == f && Holds(frame, next, rest)
  {
    assert f.Encode() + rest == [f.code] + (EncodeString(f.text) + rest);
    Skip(frame, o, [f.code], EncodeString(f.text) + rest);
    assert frame[o..o + 1][0] == f.code;
    var code := frame[o];
    var text;
    text, next := TakeString(frame, o + 1, f.text, rest);
    field := ErrorField(code, text);
  }

  lemma {:induction false} LastFieldDecides(fs: seq<ErrorField>, n: nat)
    requires n <= |fs| && |ErrorFields(fs[n..])| <= 4
    requires forall k :: 0 <= k < n ==> |ErrorFields(fs[k..])| > 4
    ensures n == |fs| <==> fs == [] || |fs[|fs| - 1].text| >= 3
  {
    if fs != [] {
      var last := |fs| - 1;
      assert fs[last..] == [fs[last]] && ErrorFields([fs[last]]) == fs[last].Encode() + [];
      if n < |fs| {
        LastFieldFits(fs[n..]);
      }
    }
  }

  lemma {:induction false} LastFieldFits(fs: seq<ErrorField>)
    requires fs != []
    ensures |ErrorFields(fs)| >= |fs[|fs| - 1].text| + 2
  {
    if |fs| > 1 {
      LastFieldFits(fs[1..]);
    }
  }

  // ---------------------------------------------------------------- AuthenticationSASL

  const SASL: int := 10

  function SaslBody(mechanisms: seq<seq<Byte>>): seq<Byte> {
    EncodeInt(SASL, 4) + (Strings(mechanisms) + [0])
  }

  /** One mechanism, `A`. */
  lemma SaslBytes()
    ensures Packet('R' as int, SaslBody([[65]])) == [82, 0, 0, 0, 11, 0, 0, 0, 10, 65, 0, 0]
  {
    hide EncodeInt;
    FourBytes(0, 0, 0, 10);
    FourBytes(0, 0, 0, 11);
    assert Strings([[65]]) == [65, 0];
    assert SaslBody([[65]]) == [0, 0, 0, 10, 65, 0, 0];
  }

  /**
   `be_R` on a well-formed AuthenticationSASL. The loop visits a prefix of the mechanisms, in order, and
   leaves out those of a suffix of at most eight bytes. Nothing is left out exactly when the last name
   has eight bytes.
   */
  method WalkSasl(frame: seq<Byte>, ghost mechanisms: seq<seq<Byte>>) returns (visited: seq<seq<Byte>>, o: int)
    requires forall i :: 0 <= i < |mechanisms| ==> NulFree(mechanisms[i])
    requires FitsPacket(SaslBody(mechanisms)) && frame == Packet('R' as int, SaslBody(mechanisms))
    ensures visited <= mechanisms && o <= |frame|
    ensures forall k :: 0 <= k < |visited| ==> |Strings(mechanisms[k..])| > 8
    ensures |Strings(mechanisms[|visited|..])| <= 8
    ensures visited == mechanisms <==> mechanisms == [] || |mechanisms[|mechanisms| - 1]| >= 8
  {
    hide EncodeInt, Int32At, Packet, Holds, Strings;
    PacketLayout('R' as int, SaslBody(mechanisms));
    HoldsFrom('R' as int, SaslBody(mechanisms));
    var length := ReadInt32(frame, 1);
    o, visited := 1 + 4, [];
    assert mechanisms[0..] == mechanisms;
    var kind;
    kind, o := TakeInt32(frame, o, SASL, Strings(mechanisms) + [0]);
    Remaining(frame, o, Strings(mechanisms) + [0]);
    while o < length - 8
      invariant |visited| <= |mechanisms| && visited == mechanisms[..|visited|]
      invariant Holds(frame, o, Strings(mechanisms[|visited|..]) + [0])
      invariant o + |Strings(mechanisms[|visited|..])| + 1 == |frame|
      invariant forall k :: 0 <= k < |visited| ==> |Strings(mechanisms[k..])| > 8
      decreases |mechanisms| - |visited|
    {
      ghost var i := |visited|;
      StringsFrom(mechanisms, i);
      Regroup(frame, o, EncodeString(mechanisms[i]), Strings(mechanisms[i + 1..]), [0]);
      var mechanism;
      mechanism, o := TakeString(frame, o, mechanisms[i], Strings(mechanisms[i + 1..]) + [0]);
      Remaining(frame, o, Strings(mechanisms[i + 1..]) + [0]);
      visited := visited + [mechanism];
    }
    o := o + 1;
    LastNameDecides(mechanisms, |visited|);
  }

  lemma StringsFrom(ss: seq<seq<Byte>>, i: nat)
    requires i <= |ss| && |Strings(ss[i..])| > 8
    ensures i < |ss| && Strings(ss[i..]) == EncodeString(ss[i]) + Strings(ss[i + 1..])
  {
    assert i < |ss| ==> ss[i..][1..] == ss[i + 1..];
  }

  lemma {:induction false} LastNameDecides(ss: seq<seq<Byte>>, n: nat)
    requires n <= |ss| && |Strings(ss[n..])| <= 8
    requires forall k :: 0 <= k < n ==> |Strings(ss[k..])| > 8
    ensures n == |ss| <==> ss == [] || |ss[|ss| - 1]| >= 8
  {
    if ss != [] {
      var last := |ss| - 1;
      assert ss[last..] == [ss[last]] && Strings([ss[last]]) == EncodeString(ss[last]) + [];
      if n < |ss| {
        LastNameFits(ss[n..]);
      }
    }
  }

  lemma {:induction false} LastNameFits(ss: seq<seq<Byte>>)
    requires ss != []
    ensures |Strings(ss)| >= |ss[|ss| - 1]| + 1
  {
    if |ss| > 1 {
      LastNameFits(ss[1..]);
    }
  }
}
