/**
 The message formats of the PostgreSQL frontend/backend protocol, version 3, as encoders: section 55.7
 ("Message Formats") and section 55.2.1 ("Start-up") of the PostgreSQL 15 manual.
 */
module Wire {
  import opened Bytes
  import opened Framing
  import opened Options
  import opened IntegerCodec

  predicate FitsInt16(v: int) {
    -0x8000 <= v < 0x8000
  }

  predicate FitsCount(n: nat) {
    n < 0x8000
  }

  /** The server takes the counts of Parse and Bind as unsigned numbers. */
  predicate FitsUnsigned16(n: nat) {
    n < 0x1_0000
  }

  /** A packet: its kind, a length that counts itself and the body, and the body. */
  function Packet(kind: Byte, body: seq<Byte>): (p: seq<Byte>)
    ensures |p| == 5 + |body|
  {
    [kind] + EncodeInt(4 + |body|, 4) + body
  }

  /** The body fits a length that stays below the largest 32-bit number. */
  predicate FitsPacket(body: seq<Byte>) {
    |body| <= 0x7fff_ffff - 5
  }

  lemma PacketLayout(kind: Byte, body: seq<Byte>)
    requires FitsPacket(body)
    ensures var p := Packet(kind, body);
            p[0] == kind && Int32At(p, 1) + 1 == |p| && p[5..] == body
    ensures kind != 0 ==> Conforms(Client, Tagged(Packet(kind, body)))
    ensures kind != 0 && !EndlessRow(Packet(kind, body)) ==> Conforms(Server, Tagged(Packet(kind, body)))
  {
    Int32AtEncoding(Packet(kind, body), 1, 4 + |body|);
  }

  // ---------------------------------------------------------------- what the loops make of a header

  lemma SmallLengthStartsWithZero(frame: seq<Byte>)
    requires |frame| >= 4 && 0 <= Int32At(frame, 0) < 0x100_0000
    ensures frame[0] == 0
  {
  }

  /** A header of eight bytes. */
  function StartupHeader(length: int, code: int): (h: seq<Byte>)
    ensures |h| == 8
  {
    EncodeInt(length, 4) + EncodeInt(code, 4)
  }

  /** The codes of a start-up packet: protocol version 3, cancellation, TLS, GSS encryption, protocol version 2. */
  predicate IsRequestCode(code: int) {
    || code == 3 * 65536
    || code == 1234 * 65536 + 5678
    || code == 1234 * 65536 + 5679
    || code == 1234 * 65536 + 5680
    || code == 2 * 65536
  }

  lemma StartupHeaderLayout(length: int, code: int, c: seq<Byte>)
    requires 0 <= length < 0x100_0000 && FitsInt32(code)
    ensures var b := StartupHeader(length, code) + c;
            b[0] == 0 && Int32At(b, 0) == length && Int32At(b, 4) == code
  {
    var b := StartupHeader(length, code) + c;
    assert b[0..4] == EncodeInt(length, 4) && b[4..8] == EncodeInt(code, 4);
    Int32AtEncoding(b, 0, length);
    Int32AtEncoding(b, 4, code);
    SmallLengthStartsWithZero(b);
  }

  /** What the client's loop does with a buffer that begins with a start-up header, for every length below 2^24 and
      every code: it ends the process on an unknown code; it cuts off as many bytes as the length says, running
      past the buffer if there are fewer, and removing nothing if that is none. */
  lemma StartupVerdict(length: int, code: int, c: seq<Byte>)
    requires 0 <= length < 0x100_0000 && FitsInt32(code)
    ensures var b := StartupHeader(length, code) + c;
            Examine(Client, b) == if !IsRequestCode(code) then Fail(Exit)
                                  else if length > 8 + |c| then Fail(OverRun)
                                  else if length == 0 then Fail(Spin)
                                  else Take(Untagged(b[..length]))
  {
    hide StartupHeader;
    StartupHeaderLayout(length, code, c);
  }

  /** In particular with eight bytes that announce themselves: they are cut off exactly for a known code. */
  lemma RequestVerdict(code: int, c: seq<Byte>)
    requires FitsInt32(code)
    ensures var header := EncodeInt(8, 4) + EncodeInt(code, 4);
            Examine(Client, header + c) == if IsRequestCode(code) then Take(Untagged(header)) else Fail(Exit)
  {
    hide EncodeInt;
    var header := StartupHeader(8, code);
    StartupVerdict(8, code, c);
    assert (header + c)[..8] == header;
  }

  /** What both loops do with a buffer that begins with a kind and a length, for every length: -1 removes nothing for
      ever; a smaller one, or one whose successor overflows, waits for bytes without end; otherwise the loop waits
      for the packet and cuts it off whole. */
  lemma TaggedVerdict(side: Side, kind: Byte, length: int, c: seq<Byte>)
    requires kind != 0 && FitsInt32(length)
    ensures var b := [kind] + EncodeInt(length, 4) + c;
            Examine(side, b) == if length == -1 then Fail(Spin)
                                else if length < -1 || length == 0x7fff_ffff || 5 + |c| < length + 1 then Wait
                                else if side.Server? && kind == 'D' as int && length >= 6 && Int16At(b, 5) == 32767
                                then Fail(OverRun)
                                else Take(Tagged(b[..length + 1]))
  {
    hide EncodeInt, Int32At, Int16At;
    var b := [kind] + EncodeInt(length, 4) + c;
    assert b[1..5] == EncodeInt(length, 4);
    Int32AtEncoding(b, 1, length);
    if 6 <= length < 5 + |c| {
      Int16Of(b, length + 1);
    }
  }

  lemma Int16Of(b: seq<Byte>, n: nat)
    requires 7 <= n <= |b|
    ensures Int16At(b[..n], 5) == Int16At(b, 5)
  {
  }

  /** A buffer that is too short for a header waits, and so does one of the server that begins with a zero; only the
      server's single `N` is a packet by itself. */
  lemma ShortVerdict(side: Side, b: seq<Byte>)
    requires b != [] && if b[0] == 0 then side.Server? || |b| < 8 else |b| < 5
    ensures Examine(side, b) == if side.Server? && b == ['N' as int] then Take(Lone) else Wait
  {
  }

  // ---------------------------------------------------------------- lists

  function Int16s(vs: seq<int>): seq<Byte> {
    if vs == [] then [] else EncodeInt(vs[0], 2) + Int16s(vs[1..])
  }

  function Int32s(vs: seq<int>): seq<Byte> {
    if vs == [] then [] else EncodeInt(vs[0], 4) + Int32s(vs[1..])
  }

  /** A parameter or column value: its length and its bytes, or -1 for NULL. */
  function Value(v: Option<seq<Byte>>): seq<Byte> {
    if v.None? then EncodeInt(-1, 4) else EncodeInt(|v.value|, 4) + v.value
  }

  function Values(vs: seq<Option<seq<Byte>>>): seq<Byte> {
    if vs == [] then [] else Value(vs[0]) + Values(vs[1..])
  }

  predicate FitsValue(v: Option<seq<Byte>>) {
    v.Some? ==> |v.value| < 0x8000_0000
  }

  /** The length word of a value. */
  function ValueLength(v: Option<seq<Byte>>): int {
    if v.None? then -1 else |v.value|
  }

  // ---------------------------------------------------------------- messages

  datatype Bind = Bind(portal: seq<Byte>, statement: seq<Byte>, formats: seq<int>,
                       values: seq<Option<seq<Byte>>>, results: seq<int>) {
    predicate Valid() {
      && NulFree(portal) && NulFree(statement)
      && FitsUnsigned16(|formats|) && FitsUnsigned16(|values|) && FitsUnsigned16(|results|)
      && (forall i :: 0 <= i < |formats| ==> FitsInt16(formats[i]))
      && (forall i :: 0 <= i < |results| ==> FitsInt16(results[i]))
      && (forall i :: 0 <= i < |values| ==> FitsValue(values[i]))
      && FitsPacket(Body())
    }

    function Body(): seq<Byte> {
      EncodeString(portal) + (EncodeString(statement)
      + (EncodeInt(|formats|, 2) + (Int16s(formats)
      + (EncodeInt(|values|, 2) + (Values(values)
      + (EncodeInt(|results|, 2) + Int16s(results)))))))
    }
  }

  datatype Parse = Parse(name: seq<Byte>, query: seq<Byte>, types: seq<int>) {
    predicate Valid() {
      && NulFree(name) && NulFree(query) && FitsUnsigned16(|types|)
      && (forall i :: 0 <= i < |types| ==> FitsInt32(types[i]))
      && FitsPacket(Body())
    }

    function Body(): seq<Byte> {
      EncodeString(name) + (EncodeString(query) + (EncodeInt(|types|, 2) + Int32s(types)))
    }
  }

  datatype Field = Field(name: seq<Byte>, table: int, attribute: int, typeOid: int,
                         typeLength: int, modifier: int, format: int) {
    predicate Valid() {
      && NulFree(name)
      && FitsInt32(table) && FitsInt16(attribute) && FitsInt32(typeOid)
      && FitsInt16(typeLength) && FitsInt32(modifier) && FitsInt16(format)
    }

    function Numbers(): seq<Byte> {
      EncodeInt(table, 4) + (EncodeInt(attribute, 2) + (EncodeInt(typeOid, 4)
      + (EncodeInt(typeLength, 2) + (EncodeInt(modifier, 4) + EncodeInt(format, 2)))))
    }

    function Encode(): seq<Byte> {
      EncodeString(name) + Numbers()
    }
  }

  function Fields(fs: seq<Field>): seq<Byte> {
    if fs == [] then [] else fs[0].Encode() + Fields(fs[1..])
  }

  datatype RowDescription = RowDescription(fields: seq<Field>) {
    predicate Valid() {
      && FitsCount(|fields|) && (forall i :: 0 <= i < |fields| ==> fields[i].Valid())
      && FitsPacket(Body())
    }

    function Body(): seq<Byte> {
      EncodeInt(|fields|, 2) + Fields(fields)
    }
  }

  datatype DataRow = DataRow(columns: seq<Option<seq<Byte>>>) {
    /** One column less than the other counts allow: the decoder's 16-bit loop variable goes one past
        the last column. */
    predicate Valid() {
      && |columns| < 0x7fff && (forall i :: 0 <= i < |columns| ==> FitsValue(columns[i]))
      && FitsPacket(Body())
    }

    function Body(): seq<Byte> {
      EncodeInt(|columns|, 2) + Values(columns)
    }
  }

  /** A field of an ErrorResponse: a code and a string. */
  datatype ErrorField = ErrorField(code: Byte, text: seq<Byte>) {
    predicate Valid() {
      code != 0 && NulFree(text)
    }

    function Encode(): seq<Byte> {
      [code] + EncodeString(text)
    }
  }

  function ErrorFields(fs: seq<ErrorField>): seq<Byte> {
    if fs == [] then [] else fs[0].Encode() + ErrorFields(fs[1..])
  }

  function Strings(ss: seq<seq<Byte>>): seq<Byte> {
    if ss == [] then [] else EncodeString(ss[0]) + Strings(ss[1..])
  }

  // ---------------------------------------------------------------- cursors

  /** From the cursor on, the frame holds exactly `s`. */
  predicate Holds(frame: seq<Byte>, o: int, s: seq<Byte>) {
    0 <= o <= |frame| && frame[o..] == s
  }

  lemma Skip(frame: seq<Byte>, o: int, a: seq<Byte>, b: seq<Byte>)
    requires Holds(frame, o, a + b)
    ensures o + |a| <= |frame| && frame[o..o + |a|] == a && Holds(frame, o + |a|, b)
  {
    assert frame[o..][..|a|] == a && frame[o..][|a|..] == b;
  }

  lemma SkipInt16(frame: seq<Byte>, o: int, v: int, b: seq<Byte>)
    requires Holds(frame, o, EncodeInt(v, 2) + b) && FitsInt16(v)
    ensures o + 2 <= |frame| && Int16At(frame, o) == v && Holds(frame, o + 2, b)
  {
    Skip(frame, o, EncodeInt(v, 2), b);
    Int16AtEncoding(frame, o, v);
  }

  /** The decoders read an unsigned count as a signed number. */
  lemma SkipCount(frame: seq<Byte>, o: int, n: nat, b: seq<Byte>)
    requires Holds(frame, o, EncodeInt(n, 2) + b) && FitsUnsigned16(n)
    ensures o + 2 <= |frame| && Holds(frame, o + 2, b)
    ensures Int16At(frame, o) == if FitsCount(n) then n else n - 0x1_0000
  {
    if FitsCount(n) {
      SkipInt16(frame, o, n, b);
    } else {
      Widths();
      SmallModulo(n, 0x1_0000);
      NegativeModulo(n - 0x1_0000, 0x1_0000);
      SkipInt16(frame, o, n - 0x1_0000, b);
    }
  }

  lemma SkipInt32(frame: seq<Byte>, o: int, v: int, b: seq<Byte>)
    requires Holds(frame, o, EncodeInt(v, 4) + b) && FitsInt32(v)
    ensures o + 4 <= |frame| && Int32At(frame, o) == v && Holds(frame, o + 4, b)
  {
    Skip(frame, o, EncodeInt(v, 4), b);
    Int32AtEncoding(frame, o, v);
  }

  lemma SkipString(frame: seq<Byte>, o: int, s: seq<Byte>, b: seq<Byte>)
    requires Holds(frame, o, EncodeString(s) + b) && NulFree(s)
    ensures HasNul(frame, o, |frame|) && StrLen(frame, o, |frame|) == |s|
    ensures frame[o..o + |s|] == s && Holds(frame, o + |s| + 1, b)
  {
    Skip(frame, o, EncodeString(s), b);
    StrLenOfEncoding(frame, o, |frame|, s);
  }

  lemma HoldsFrom(kind: Byte, body: seq<Byte>)
    ensures Holds(Packet(kind, body), 5, body)
  {
  }

  lemma Remaining(frame: seq<Byte>, o: int, s: seq<Byte>)
    requires Holds(frame, o, s)
    ensures o + |s| == |frame|
  {
  }

  lemma AtEnd(frame: seq<Byte>, o: int)
    requires Holds(frame, o, [])
    ensures o == |frame|
  {
  }

  lemma Regroup(frame: seq<Byte>, o: int, a: seq<Byte>, b: seq<Byte>, c: seq<Byte>)
    ensures Holds(frame, o, a + b + c) == Holds(frame, o, a + (b + c))
  {
    assert a + b + c == a + (b + c);
  }

  // ---------------------------------------------------------------- the formats, byte by byte

  lemma TwoBytes(b0: Byte, b1: Byte)
    ensures EncodeInt(Int16At([b0, b1], 0), 2) == [b0, b1]
  {
    var b := [b0, b1];
    assert b[0..2] == b;
    Int16AtIsDecode(b, 0);
    EncodeOfDecode(b);
  }

  lemma FourBytes(b0: Byte, b1: Byte, b2: Byte, b3: Byte)
    ensures EncodeInt(Int32At([b0, b1, b2, b3], 0), 4) == [b0, b1, b2, b3]
  {
    var b := [b0, b1, b2, b3];
    assert b[0..4] == b;
    Int32AtIsDecode(b, 0);
    EncodeOfDecode(b);
  }

  /** A column description: the name and its NUL, and then, at fixed places, the table, the attribute number, the type,
      the size of the type, its modifier and the format. */
  lemma FieldLayout(frame: seq<Byte>, o: int, f: Field, rest: seq<Byte>)
    requires f.Valid() && Holds(frame, o, f.Encode() + rest)
    ensures var p := o + |f.name| + 1;
            && p + 18 <= |frame| && frame[o..p - 1] == f.name && frame[p - 1] == 0
            && Int32At(frame, p) == f.table && Int16At(frame, p + 4) == f.attribute
            && Int32At(frame, p + 6) == f.typeOid && Int16At(frame, p + 10) == f.typeLength
            && Int32At(frame, p + 12) == f.modifier && Int16At(frame, p + 16) == f.format
            && Holds(frame, p + 18, rest)
  {
    hide Holds, EncodeInt, Int32At, Int16At, EncodeString;
    var p := o + |f.name| + 1;
    var r6 := EncodeInt(f.format, 2) + rest;
    var r5 := EncodeInt(f.modifier, 4) + r6;
    var r4 := EncodeInt(f.typeLength, 2) + r5;
    var r3 := EncodeInt(f.typeOid, 4) + r4;
    var r2 := EncodeInt(f.attribute, 2) + r3;
    var r1 := EncodeInt(f.table, 4) + r2;
    assert f.Encode() + rest == EncodeString(f.name) + r1;
    SkipString(frame, o, f.name, r1);
    EndsInZero(frame, o, f.name, r1);
    SkipInt32(frame, p, f.table, r2);
    SkipInt16(frame, p + 4, f.attribute, r3);
    SkipInt32(frame, p + 6, f.typeOid, r4);
    SkipInt16(frame, p + 10, f.typeLength, r5);
    SkipInt32(frame, p + 12, f.modifier, r6);
    SkipInt16(frame, p + 16, f.format, rest);
  }

  lemma EndsInZero(frame: seq<Byte>, o: int, s: seq<Byte>, b: seq<Byte>)
    requires Holds(frame, o, EncodeString(s) + b)
    ensures 0 <= o && o + |s| < |frame| && frame[o + |s|] == 0
  {
    assert frame[o..][|s|] == 0;
  }

  /** A NULL and a value of one byte. */
  lemma ValuesBytes(b: Byte)
    ensures Values([None, Some([b])]) == [255, 255, 255, 255, 0, 0, 0, 1, b]
  {
    hide EncodeInt;
    FourBytes(255, 255, 255, 255);
    FourBytes(0, 0, 0, 1);
    var vs: seq<Option<seq<Byte>>> := [None, Some([b])];
    assert vs[1..] == [Some([b])] && Values(vs[1..]) == [0, 0, 0, 1, b];
  }

  lemma CodeBytes(b: Byte)
    ensures Int16s([b]) == [0, b]
  {
    hide EncodeInt;
    TwoBytes(0, b);
  }

  const BIND_EXAMPLE := Bind([112], [115], [1], [None, Some([7])], [0])

  lemma BindBody()
    ensures BIND_EXAMPLE.Body()
         == [112, 0, 115, 0, 0, 1, 0, 1, 0, 2, 255, 255, 255, 255, 0, 0, 0, 1, 7, 0, 1, 0, 0]
  {
    hide EncodeInt, Int16s, Values;
    TwoBytes(0, 1);
    TwoBytes(0, 2);
    CodeBytes(1);
    CodeBytes(0);
    ValuesBytes(7);
    assert BIND_EXAMPLE.Body() == EncodeString([112]) + (EncodeString([115])
                                  + (EncodeInt(1, 2) + (Int16s([1])
                                  + (EncodeInt(2, 2) + (Values([None, Some([7])])
                                  + (EncodeInt(1, 2) + Int16s([0])))))));
    BindParts([112, 0], [115, 0], [0, 1], [0, 1], [0, 2], [255, 255, 255, 255, 0, 0, 0, 1, 7], [0, 1], [0, 0]);
  }

  /** Portal `p`, statement `s`, one format code 1, the values NULL and 7, one result code 0. */
  lemma BindBytes()
    ensures Packet('B' as int, BIND_EXAMPLE.Body())
         == [66, 0, 0, 0, 27] + [112, 0, 115, 0, 0, 1, 0, 1, 0, 2, 255, 255, 255, 255, 0, 0, 0, 1, 7, 0, 1, 0, 0]
  {
    hide EncodeInt, Bind.Body;
    BindBody();
    FourBytes(0, 0, 0, 27);
  }

  lemma BindParts(a: seq<Byte>, b: seq<Byte>, c: seq<Byte>, d: seq<Byte>, e: seq<Byte>, f: seq<Byte>,
                  g: seq<Byte>, h: seq<Byte>)
    ensures a + (b + (c + (d + (e + (f + (g + h)))))) == a + b + c + d + e + f + g + h
  {
    assert f + (g + h) == f + g + h;
    assert e + (f + g + h) == e + f + g + h;
    assert d + (e + f + g + h) == d + e + f + g + h;
    assert c + (d + e + f + g + h) == c + d + e + f + g + h;
    assert b + (c + d + e + f + g + h) == b + c + d + e + f + g + h;
    assert a + (b + c + d + e + f + g + h) == a + b + c + d + e + f + g + h;
  }

  /** Statement `s`, query `Q`, one parameter of type 23. */
  lemma ParseBytes()
    ensures Packet('P' as int, Parse([115], [81], [23]).Body()) == [80, 0, 0, 0, 14, 115, 0, 81, 0, 0, 1, 0, 0, 0, 23]
  {
    hide EncodeInt;
    TwoBytes(0, 1);
    FourBytes(0, 0, 0, 23);
    FourBytes(0, 0, 0, 14);
    assert Int32s([23]) == [0, 0, 0, 23];
    assert Parse([115], [81], [23]).Body() == [115, 0, 81, 0, 0, 1, 0, 0, 0, 23];
  }

  /** A NULL and the column `1`. */
  lemma DataRowBytes()
    ensures Packet('D' as int, DataRow([None, Some([49])]).Body())
         == [68, 0, 0, 0, 15, 0, 2, 255, 255, 255, 255, 0, 0, 0, 1, 49]
  {
    hide EncodeInt, Values;
    TwoBytes(0, 2);
    FourBytes(0, 0, 0, 15);
    ValuesBytes(49);
    assert DataRow([None, Some([49])]).Body() == [0, 2, 255, 255, 255, 255, 0, 0, 0, 1, 49];
  }
}
