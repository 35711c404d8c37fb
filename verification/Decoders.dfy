/**
 The decoders of protocol.c on well-formed packets. Each takes the bytes of one frame, so that an index
 inside `frame` is a read inside the frame, and returns what it logs and where its cursor stops.
 */
module Decoders {
  import opened Bytes
  import opened Framing
  import opened Options
  import opened IntegerCodec
  import opened Wire

  // ---------------------------------------------------------------- one item at the cursor

  /** `pgprtdbg_read_string`, and the cursor moved behind the NUL. */
  method TakeString(frame: seq<Byte>, o: int, ghost s: seq<Byte>, ghost rest: seq<Byte>)
    returns (str: seq<Byte>, next: int)
    requires NulFree(s) && Holds(frame, o, EncodeString(s) + rest)
    ensures str == s && Holds(frame, next, rest)
  {
    SkipString(frame, o, s, rest);
    str := frame[o..o + StrLen(frame, o, |frame|)];
    next := o + |str| + 1;
  }

  method TakeInt16(frame: seq<Byte>, o: int, ghost v: int, ghost rest: seq<Byte>)
    returns (value: int, next: int)
    requires FitsInt16(v) && Holds(frame, o, EncodeInt(v, 2) + rest)
    ensures value == v && Holds(frame, next, rest)
  {
    SkipInt16(frame, o, v, rest);
    value := ReadInt16(frame, o);
    next := o + 2;
  }

  method TakeInt32(frame: seq<Byte>, o: int, ghost v: int, ghost rest: seq<Byte>)
    returns (value: int, next: int)
    requires FitsInt32(v) && Holds(frame, o, EncodeInt(v, 4) + rest)
    ensures value == v && Holds(frame, next, rest)
  {
    SkipInt32(frame, o, v, rest);
    value := ReadInt32(frame, o);
    next := o + 4;
  }

  /** The inner byte loop: `size` bytes from the cursor. */
  method TakeBytes(frame: seq<Byte>, o: int, size: int, ghost bytes: seq<Byte>, ghost rest: seq<Byte>)
    returns (buf: seq<Byte>, next: int)
    requires size == |bytes| && Holds(frame, o, bytes + rest)
    ensures buf == bytes && Holds(frame, next, rest)
  {
    Skip(frame, o, bytes, rest);
    buf, next := [], o;
    for j := 0 to size
      invariant next == o + j && buf == bytes[..j]
    {
      assert frame[o..o + |bytes|][j] == bytes[j];
      buf := buf + [frame[next]];
      next := next + 1;
    }
  }

  // ---------------------------------------------------------------- loops over counted items

  /** One value: its length word, then as many bytes unless the word is -1. */
  method ReadValue(frame: seq<Byte>, start: int, ghost v: Option<seq<Byte>>, ghost rest: seq<Byte>)
    returns (size: int, content: seq<Byte>, o: int)
    requires FitsValue(v) && Holds(frame, start, Value(v) + rest)
    ensures size == ValueLength(v) && content == (if v.Some? then v.value else [])
    ensures Holds(frame, o, rest)
  {
    hide Holds, EncodeInt;
    ghost var bytes := if v.Some? then v.value else [];
    assert Value(v) == EncodeInt(ValueLength(v), 4) + bytes;
    Regroup(frame, start, EncodeInt(ValueLength(v), 4), bytes, rest);
    size, o := TakeInt32(frame, start, ValueLength(v), bytes + rest);
    content := [];
    if size != -1 {
      content, o := TakeBytes(frame, o, size, bytes, rest);
    } else {
      assert bytes + rest == rest;
    }
  }

  // ---------------------------------------------------------------- frontend messages

  /** What `fe_B` logs, and where its cursor stops. */
  datatype BindRead =
    BindRead(destination: seq<Byte>, source: seq<Byte>, codes: int, values: int, results: int, end: nat)

  function TextAt(frame: seq<Byte>, o: nat): Option<seq<Byte>> {
    if HasNul(frame, o, |frame|) then Some(frame[o..o + StrLen(frame, o, |frame|)]) else None
  }

  function NumberAt(frame: seq<Byte>, o: nat): Option<int> {
    if o + 2 <= |frame| then Some(Int16At(frame, o)) else None
  }

  /** Where a loop over `count` 16-bit numbers stops, if it stays inside the frame. */
  function NumbersEnd(frame: seq<Byte>, o: nat, count: int): Option<nat>
    decreases count
  {
    if count <= 0 then Some(o) else if o + 2 > |frame| then None else NumbersEnd(frame, o + 2, count - 1)
  }

  /** Where a loop over `count` values stops: a length of -1, like any negative one, has no bytes. */
  function ValuesEnd(frame: seq<Byte>, o: nat, count: int): Option<nat>
    decreases count
  {
    if count <= 0 then Some(o)
    else if o + 4 > |frame| then None
    else
      var size := Int32At(frame, o);
      var next := o + 4 + if size > 0 then size else 0;
      if next > |frame| then None else ValuesEnd(frame, next, count - 1)
  }

  /** What `fe_B` makes of any frame; nothing, if it reads behind the frame. */
  function ReadBind(frame: seq<Byte>): Option<BindRead> {
    var destination :- TextAt(frame, 5);
    var o1: nat := 5 + |destination| + 1;
    var source :- TextAt(frame, o1);
    var o2: nat := o1 + |source| + 1;
    var codes :- NumberAt(frame, o2);
    var o3 :- NumbersEnd(frame, o2 + 2, codes);
    var values :- NumberAt(frame, o3);
    var o4 :- ValuesEnd(frame, o3 + 2, values);
    var results :- NumberAt(frame, o4);
    var o5 :- NumbersEnd(frame, o4 + 2, results);
    Some(BindRead(destination, source, codes, values, results, o5))
  }

  /** `pgprtdbg_read_string` and `strlen`, as long as they stay inside the frame. */
  method FindText(frame: seq<Byte>, o: nat) returns (text: Option<seq<Byte>>)
    ensures text == TextAt(frame, o)
  {
    var n: nat := o;
    while n < |frame| && frame[n] != 0
      invariant o <= n && forall k :: o <= k < n ==> k < |frame| && frame[k] != 0
      decreases |frame| - n
    {
      n := n + 1;
    }
    if n >= |frame| {
      return None;
    }
    assert HasNul(frame, o, |frame|);
    assert StrLen(frame, o, |frame|) == n - o;
    text := Some(frame[o..n]);
  }

  method FindNumber(frame: seq<Byte>, o: nat) returns (v: Option<int>)
    ensures v == NumberAt(frame, o)
  {
    if o + 2 > |frame| {
      return None;
    }
    var number := ReadInt16(frame, o);
    v := Some(number);
  }

  /** A loop that reads `count` 16-bit numbers and drops them. */
  method SkipNumbers(frame: seq<Byte>, start: nat, count: int) returns (o: Option<nat>)
    ensures o == NumbersEnd(frame, start, count)
  {
    var next: nat, i := start, 0;
    while i < count
      invariant NumbersEnd(frame, start, count) == NumbersEnd(frame, next, count - i)
    {
      if next + 2 > |frame| {
        return None;
      }
      var dropped := ReadInt16(frame, next);
      next, i := next + 2, i + 1;
    }
    o := Some(next);
  }

  /** A loop that reads `count` values, the bytes of each one by one. */
  method SkipValues(frame: seq<Byte>, start: nat, count: int) returns (o: Option<nat>)
    ensures o == ValuesEnd(frame, start, count)
  {
    hide Int32At;
    var next: nat, i := start, 0;
    while i < count
      invariant ValuesEnd(frame, start, count) == ValuesEnd(frame, next, count - i)
    {
      if next + 4 > |frame| {
        return None;
      }
      var size := ReadInt32(frame, next);
      ghost var first := next + 4;
      next := next + 4;
      if size != -1 {
        var j := 0;
        while j < size
          invariant 0 <= j && next == first + j <= |frame| && (j <= size || j == 0)
        {
          if next >= |frame| {
            return None;
          }
          var dropped := frame[next];
          next, j := next + 1, j + 1;
        }
      }
      i := i + 1;
    }
    o := Some(next);
  }

  /** `fe_B` on any frame. */
  method DecodeBind(frame: seq<Byte>) returns (r: Option<BindRead>)
    ensures r == ReadBind(frame)
  {
    hide TextAt, NumberAt, NumbersEnd, ValuesEnd;
    var o: nat := 1 + 4;
    var destination := FindText(frame, o);
    if destination.None? { return None; }
    o := o + |destination.value| + 1;
    var source := FindText(frame, o);
    if source.None? { return None; }
    o := o + |source.value| + 1;
    var codes := FindNumber(frame, o);
    if codes.None? { return None; }
    var end := SkipNumbers(frame, o + 2, codes.value);
    if end.None? { return None; }
    o := end.value;
    var values := FindNumber(frame, o);
    if values.None? { return None; }
    end := SkipValues(frame, o + 2, values.value);
    if end.None? { return None; }
    o := end.value;
    var results := FindNumber(frame, o);
    if results.None? { return None; }
    end := SkipNumbers(frame, o + 2, results.value);
    if end.None? { return None; }
    r := Some(BindRead(destination.value, source.value, codes.value, values.value, results.value, end.value));
  }

  lemma {:induction false} NumbersOfInt16s(frame: seq<Byte>, o: nat, vs: seq<int>, rest: seq<Byte>)
    requires Holds(frame, o, Int16s(vs) + rest)
    ensures NumbersEnd(frame, o, |vs|) == Some(o + |Int16s(vs)|) && Holds(frame, o + |Int16s(vs)|, rest)
    decreases |vs|
  {
    hide Holds, EncodeInt;
    if vs == [] {
      assert Int16s(vs) + rest == rest;
    } else {
      Regroup(frame, o, EncodeInt(vs[0], 2), Int16s(vs[1..]), rest);
      Skip(frame, o, EncodeInt(vs[0], 2), Int16s(vs[1..]) + rest);
      NumbersOfInt16s(frame, o + 2, vs[1..], rest);
    }
  }

  lemma ValueEnd(frame: seq<Byte>, o: nat, v: Option<seq<Byte>>, rest: seq<Byte>)
    requires FitsValue(v) && Holds(frame, o, Value(v) + rest)
    ensures o + |Value(v)| <= |frame| && Int32At(frame, o) == ValueLength(v) && Holds(frame, o + |Value(v)|, rest)
  {
    hide Holds, EncodeInt, Int32At;
    var bytes := if v.Some? then v.value else [];
    assert Value(v) == EncodeInt(ValueLength(v), 4) + bytes;
    Regroup(frame, o, EncodeInt(ValueLength(v), 4), bytes, rest);
    SkipInt32(frame, o, ValueLength(v), bytes + rest);
    Skip(frame, o + 4, bytes, rest);
  }

  lemma {:induction false} ValuesOfValues(frame: seq<Byte>, o: nat, vs: seq<Option<seq<Byte>>>, rest: seq<Byte>)
    requires forall i :: 0 <= i < |vs| ==> FitsValue(vs[i])
    requires Holds(frame, o, Values(vs) + rest)
    ensures ValuesEnd(frame, o, |vs|) == Some(o + |Values(vs)|) && Holds(frame, o + |Values(vs)|, rest)
    decreases |vs|
  {
    hide Holds, EncodeInt, Int32At;
    if vs == [] {
      assert Values(vs) + rest == rest;
    } else {
      Regroup(frame, o, Value(vs[0]), Values(vs[1..]), rest);
      ValueEnd(frame, o, vs[0], Values(vs[1..]) + rest);
      ValuesOfValues(frame, o + |Value(vs[0])|, vs[1..], rest);
    }
  }

  lemma TextOfString(frame: seq<Byte>, o: nat, s: seq<Byte>, rest: seq<Byte>)
    requires NulFree(s) && Holds(frame, o, EncodeString(s) + rest)
    ensures TextAt(frame, o) == Some(s) && Holds(frame, o + |s| + 1, rest)
  {
    hide Holds;
    SkipString(frame, o, s, rest);
  }

  lemma NumberOfCount(frame: seq<Byte>, o: nat, n: nat, rest: seq<Byte>)
    requires Holds(frame, o, EncodeInt(n, 2) + rest) && FitsCount(n)
    ensures NumberAt(frame, o) == Some(n) && Holds(frame, o + 2, rest)
  {
    hide Holds, EncodeInt;
    SkipCount(frame, o, n, rest);
  }

  /** All three counts are below 32768. */
  predicate CountsFit(m: Bind) {
    FitsCount(|m.formats|) && FitsCount(|m.values|) && FitsCount(|m.results|)
  }

  lemma FittingBindIsRead(frame: seq<Byte>, m: Bind)
    requires m.Valid() && frame == Packet('B' as int, m.Body()) && CountsFit(m)
    ensures ReadBind(frame) == Some(BindRead(m.portal, m.statement, |m.formats|, |m.values|, |m.results|, |frame|))
  {
    hide Holds, EncodeInt, Int16s, Values, EncodeString, Int32At, Packet, TextAt, NumberAt, NumbersEnd, ValuesEnd;
    HoldsFrom('B' as int, m.Body());
    var r7 := EncodeInt(|m.results|, 2) + Int16s(m.results);
    var r6 := Values(m.values) + r7;
    var r5 := EncodeInt(|m.values|, 2) + r6;
    var r4 := Int16s(m.formats) + r5;
    var r3 := EncodeInt(|m.formats|, 2) + r4;
    var r2 := EncodeString(m.statement) + r3;
    var o1: nat := 5 + |m.portal| + 1;
    TextOfString(frame, 5, m.portal, r2);
    var o2: nat := o1 + |m.statement| + 1;
    TextOfString(frame, o1, m.statement, r3);
    NumberOfCount(frame, o2, |m.formats|, r4);
    NumbersOfInt16s(frame, o2 + 2, m.formats, r5);
    var o3: nat := o2 + 2 + |Int16s(m.formats)|;
    NumberOfCount(frame, o3, |m.values|, r6);
    ValuesOfValues(frame, o3 + 2, m.values, r7);
    var o4: nat := o3 + 2 + |Values(m.values)|;
    NumberOfCount(frame, o4, |m.results|, Int16s(m.results));
    assert Int16s(m.results) + [] == Int16s(m.results);
    NumbersOfInt16s(frame, o4 + 2, m.results, []);
    AtEnd(frame, o4 + 2 + |Int16s(m.results)|);
  }

  lemma ReadCountsAreSmall(frame: seq<Byte>)
    requires ReadBind(frame).Some?
    ensures var r := ReadBind(frame).value; r.codes < 0x8000 && r.values < 0x8000 && r.results < 0x8000
  {
    hide TextAt, NumbersEnd, ValuesEnd;
    assert forall o: nat :: NumberAt(frame, o).Some? ==> NumberAt(frame, o).value < 0x8000;
  }

  /**
   `fe_B` on every Bind the protocol allows, its counts being unsigned 16-bit numbers: the names and the three
   counts are recovered, every read stays inside the frame and the cursor stops at `length + 1`, exactly when
   all three counts are below 32768. A larger one is read as a negative number, and its loop is skipped.
   */
  lemma BindIsRead(m: Bind)
    requires m.Valid()
    ensures var frame := Packet('B' as int, m.Body());
            && Int32At(frame, 1) + 1 == |frame|
            && (ReadBind(frame)
                == Some(BindRead(m.portal, m.statement, |m.formats|, |m.values|, |m.results|, Int32At(frame, 1) + 1))
                <==> CountsFit(m))
  {
    hide EncodeInt, Int32At, Packet, ReadBind;
    var frame := Packet('B' as int, m.Body());
    PacketLayout('B' as int, m.Body());
    if CountsFit(m) {
      FittingBindIsRead(frame, m);
    } else if ReadBind(frame).Some? {
      ReadCountsAreSmall(frame);
    }
  }

  /** A count of values from 32768 on, behind fitting format codes, is read as a negative number. */
  lemma LargeCountIsNegative(m: Bind)
    requires m.Valid() && FitsCount(|m.formats|) && !FitsCount(|m.values|)
    ensures var r := ReadBind(Packet('B' as int, m.Body()));
            r.Some? ==> r.value.destination == m.portal && r.value.source == m.statement
                        && r.value.codes == |m.formats| && r.value.values == |m.values| - 65536
  {
    hide Holds, EncodeInt, Int16s, Values, EncodeString, Int16At, Packet, TextAt, NumbersEnd, ValuesEnd;
    var frame := Packet('B' as int, m.Body());
    HoldsFrom('B' as int, m.Body());
    var r6 := Values(m.values) + (EncodeInt(|m.results|, 2) + Int16s(m.results));
    var r5 := EncodeInt(|m.values|, 2) + r6;
    var r4 := Int16s(m.formats) + r5;
    var r3 := EncodeInt(|m.formats|, 2) + r4;
    var o1: nat := 5 + |m.portal| + 1;
    TextOfString(frame, 5, m.portal, EncodeString(m.statement) + r3);
    var o2: nat := o1 + |m.statement| + 1;
    TextOfString(frame, o1, m.statement, r3);
    NumberOfCount(frame, o2, |m.formats|, r4);
    NumbersOfInt16s(frame, o2 + 2, m.formats, r5);
    SkipCount(frame, o2 + 2 + |Int16s(m.formats)|, |m.values|, r6);
  }

  /** The loops are skipped for a count that is not positive, and no bytes are read for a length that is negative,
      whatever follows. */
  lemma NegativeTakesNothing(frame: seq<Byte>, o: nat, count: int, length: int, rest: seq<Byte>)
    requires count <= 0 && FitsInt32(length) && length < 0 && Holds(frame, o, EncodeInt(length, 4) + rest)
    ensures NumbersEnd(frame, o, count) == Some(o) && ValuesEnd(frame, o, count) == Some(o)
    ensures ValuesEnd(frame, o, 1) == Some(o + 4)
  {
    hide Int32At, EncodeInt;
    SkipInt32(frame, o, length, rest);
  }

  lemma {:induction false} Int32sLength(vs: seq<int>)
    ensures |Int32s(vs)| == 4 * |vs|
  {
    if vs != [] {
      Int32sLength(vs[1..]);
    }
  }

  /** `fe_P`: the names, and the type of every parameter in order, exactly when there are fewer than 32768; a
      larger count is read as a negative number, and its loop is skipped. */
  method DecodeParse(frame: seq<Byte>, ghost m: Parse)
    returns (destination: seq<Byte>, query: seq<Byte>, parameters: int, oids: seq<int>, o: int)
    requires m.Valid() && frame == Packet('P' as int, m.Body())
    ensures destination == m.name && query == m.query
    ensures |frame| == Int32At(frame, 1) + 1
    ensures parameters == |m.types| <==> FitsCount(|m.types|)
    ensures if FitsCount(|m.types|) then oids == m.types && o == |frame|
            else oids == [] && o == |frame| - 4 * |m.types|
  {
    hide Holds, EncodeInt, EncodeString, Int32At, Packet;
    PacketLayout('P' as int, m.Body());
    HoldsFrom('P' as int, m.Body());
    ghost var r3 := EncodeInt(|m.types|, 2) + Int32s(m.types);
    o := 1 + 4;
    destination, o := TakeString(frame, o, m.name, EncodeString(m.query) + r3);
    query, o := TakeString(frame, o, m.query, r3);
    SkipCount(frame, o, |m.types|, Int32s(m.types));
    parameters := ReadInt16(frame, o);
    o := o + 2;
    oids := [];
    assert m.types[0..] == m.types;
    var i := 0;
    while i < parameters
      invariant 0 <= i <= |m.types| && (parameters < 0 ==> i == 0)
      invariant Holds(frame, o, Int32s(m.types[i..]))
      invariant oids == m.types[..i]
      decreases parameters - i
    {
      var oid;
      assert m.types[i..][1..] == m.types[i + 1..];
      oid, o := TakeInt32(frame, o, m.types[i], Int32s(m.types[i + 1..]));
      oids := oids + [oid];
      i := i + 1;
    }
    Int32sLength(m.types);
    Remaining(frame, o, Int32s(m.types[i..]));
  }

  // ---------------------------------------------------------------- backend messages

  /** The seven parts of one field of a RowDescription. */
  method DecodeField(frame: seq<Byte>, start: int, ghost f: Field, ghost rest: seq<Byte>)
    returns (field: Field, o: int)
    requires f.Valid() && Holds(frame, start, f.Encode() + rest)
    ensures field == f && Holds(frame, o, rest)
  {
    hide Holds, EncodeInt, EncodeString;
    ghost var r6 := EncodeInt(f.format, 2) + rest;
    ghost var r5 := EncodeInt(f.modifier, 4) + r6;
    ghost var r4 := EncodeInt(f.typeLength, 2) + r5;
    ghost var r3 := EncodeInt(f.typeOid, 4) + r4;
    ghost var r2 := EncodeInt(f.attribute, 2) + r3;
    ghost var r1 := EncodeInt(f.table, 4) + r2;
    assert f.Encode() + rest == EncodeString(f.name) + r1;
    var name, oid, attr, typeOid, typeLength, typeModifier, format;
    name, o := TakeString(frame, start, f.name, r1);
    oid, o := TakeInt32(frame, o, f.table, r2);
    attr, o := TakeInt16(frame, o, f.attribute, r3);
    typeOid, o := TakeInt32(frame, o, f.typeOid, r4);
    typeLength, o := TakeInt16(frame, o, f.typeLength, r5);
    typeModifier, o := TakeInt32(frame, o, f.modifier, r6);
    format, o := TakeInt16(frame, o, f.format, rest);
    field := Field(name, oid, attr, typeOid, typeLength, typeModifier, format);
  }

  /** `be_T`: every field, in order. */
  method DecodeRowDescription(frame: seq<Byte>, ghost m: RowDescription)
    returns (number: int, fields: seq<Field>, o: int)
    requires m.Valid() && frame == Packet('T' as int, m.Body())
    ensures number == |m.fields| && fields == m.fields
    ensures o == |frame| == Int32At(frame, 1) + 1
  {
    hide Holds, EncodeInt, Int32At, Packet;
    PacketLayout('T' as int, m.Body());
    HoldsFrom('T' as int, m.Body());
    o := 1 + 4;
    number, o := TakeInt16(frame, o, |m.fields|, Fields(m.fields));
    fields := [];
    assert m.fields[0..] == m.fields;
    for i := 0 to number
      invariant Holds(frame, o, Fields(m.fields[i..]))
      invariant fields == m.fields[..i]
    {
      assert m.fields[i..][1..] == m.fields[i + 1..];
      var field;
      field, o := DecodeField(frame, o, m.fields[i], Fields(m.fields[i + 1..]));
      fields := fields + [field];
    }
    AtEnd(frame, o);
  }

  /** `i++` on the 16-bit loop variable of `be_D`. */
  function Next(i: int): int {
    Cast(i + 1, 2)
  }

  /** The loop variable after `k` rounds. */
  function Round(k: nat): int {
    if k == 0 then 1 else Next(Round(k - 1))
  }

  lemma NextIs(i: int)
    requires FitsInt16(i)
    ensures Next(i) == if i == 0x7fff then -0x8000 else i + 1
  {
    Widths();
    if 0 <= i + 1 {
      SmallModulo(i + 1, 0x1_0000);
    } else {
      NegativeModulo(i + 1, 0x1_0000);
    }
  }

  lemma {:induction false} RoundsCountUp(k: nat)
    requires k < 0x7fff
    ensures Round(k) == k + 1
  {
    if k > 0 {
      RoundsCountUp(k - 1);
      NextIs(k);
    }
  }

  lemma {:induction false} RoundsFit(k: nat)
    ensures FitsInt16(Round(k))
  {
    if k > 0 {
      RoundsFit(k - 1);
      NextIs(Round(k - 1));
    }
  }

  /** The loop of `be_D` over `number` columns ends exactly when there are fewer than 32767: the variable
      of the loop never exceeds 32767. It then ends after `number` rounds. */
  lemma ColumnLoopEnds(number: int)
    requires 0 <= number < 0x8000
    ensures (exists k: nat :: Round(k) > number) <==> number < 0x7fff
    ensures number < 0x7fff ==> Round(number) > number && forall k: nat :: k < number ==> Round(k) <= number
  {
    forall k: nat
      ensures FitsInt16(Round(k)) && (k < 0x7fff ==> Round(k) == k + 1)
    {
      RoundsFit(k);
      if k < 0x7fff {
        RoundsCountUp(k);
      }
    }
    var rounds: nat := number;
    assert number < 0x7fff ==> Round(rounds) > number;
  }

  lemma ValuesFrom(vs: seq<Option<seq<Byte>>>, i: nat)
    requires i <= |vs|
    ensures Values(vs[i..]) == if i < |vs| then Value(vs[i]) + Values(vs[i + 1..]) else []
  {
    assert i < |vs| ==> vs[i..][1..] == vs[i + 1..];
  }

  /** `be_D`: the length of every column, -1 for NULL, and the bytes copied for it. */
  method DecodeDataRow(frame: seq<Byte>, ghost m: DataRow)
    returns (number: int, lengths: seq<int>, contents: seq<seq<Byte>>, o: int)
    requires m.Valid() && frame == Packet('D' as int, m.Body())
    ensures number == |m.columns| == |lengths| == |contents|
    ensures forall i :: 0 <= i < |m.columns| ==> lengths[i] == ValueLength(m.columns[i])
    ensures forall i :: 0 <= i < |m.columns| ==> contents[i] == if m.columns[i].Some? then m.columns[i].value else []
    ensures o == |frame| == Int32At(frame, 1) + 1
  {
    hide Holds, EncodeInt, Int32At, Packet, Value, Values, Next, Cast, FitsPacket;
    ghost var vs := m.columns;
    PacketLayout('D' as int, m.Body());
    HoldsFrom('D' as int, m.Body());
    o := 1 + 4;
    number, o := TakeInt16(frame, o, |vs|, Values(vs));
    lengths, contents := [], [];
    var i := 1;
    assert vs[0..] == vs;
    while i <= number
      invariant 1 <= i <= number + 1 && |lengths| == |contents| == i - 1
      invariant Holds(frame, o, Values(vs[i - 1..]))
      invariant forall k :: 0 <= k < i - 1 ==> lengths[k] == ValueLength(vs[k])
      invariant forall k :: 0 <= k < i - 1 ==> contents[k] == if vs[k].Some? then vs[k].value else []
      decreases number + 1 - i
    {
      ValuesFrom(vs, i - 1);
      var size, content;
      size, content, o := ReadValue(frame, o, vs[i - 1], Values(vs[i..]));
      lengths, contents := lengths + [size], contents + [content];
      NextIs(i);
      i := Next(i);
    }
    ValuesFrom(vs, |vs|);
    AtEnd(frame, o);
  }

  /** Whatever follows it, a DataRow is cut off and traced exactly when it has fewer than 32767 columns; on one of
      32767 the loop of `be_D` leaves the buffer. */
  lemma RowIsCut(columns: seq<Option<seq<Byte>>>, rest: seq<Byte>)
    requires FitsCount(|columns|) && FitsPacket(DataRow(columns).Body())
    ensures var row := Packet('D' as int, DataRow(columns).Body());
            Examine(Server, row + rest) == if |columns| < 0x7fff then Take(Tagged(row)) else Fail(OverRun)
  {
    hide EncodeInt, Int32At, Int16At, Packet, Values;
    var body := DataRow(columns).Body();
    var row := Packet('D' as int, body);
    PacketLayout('D' as int, body);
    HoldsFrom('D' as int, body);
    SkipCount(row, 5, |columns|, Values(columns));
    var b := row + rest;
    assert b[..|row|] == row && b[1..5] == row[1..5];
    HeaderOf(row, b);
  }

  lemma HeaderOf(row: seq<Byte>, b: seq<Byte>)
    requires 5 <= |row| <= |b| && b[..|row|] == row
    ensures Int32At(b, 1) == Int32At(row, 1) && b[0] == row[0]
  {
    assert forall k :: 0 <= k < |row| ==> b[k] == row[k];
  }
}
