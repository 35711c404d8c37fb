/** The shift-and-or readers and byte-copying writers of utils.c, on C's fixed-width integers. */
module IntegerCodec {
  import opened Bytes

  // ---------------------------------------------------------------- big-endian numbers of any width

  function Pow256(n: nat): (p: int)
    ensures p > 0
  {
    if n == 0 then 1 else 256 * Pow256(n - 1)
  }

  /** The unsigned number that `bs` spells, most significant byte first. */
  function BigEndian(bs: seq<Byte>): nat {
    if bs == [] then 0 else 256 * BigEndian(bs[..|bs| - 1]) + bs[|bs| - 1]
  }

  /** The `n` low bytes of `v`, most significant byte first. */
  function Spell(v: nat, n: nat): (bs: seq<Byte>)
    ensures |bs| == n
  {
    if n == 0 then [] else Spell(v / 256, n - 1) + [v % 256]
  }

  /** Two's complement: the signed reading of an `n`-byte pattern. */
  function ToSigned(p: int, n: nat): int {
    if 2 * p < Pow256(n) then p else p - Pow256(n)
  }

  /** The `n`-byte pattern of a signed number. */
  function ToPattern(v: int, n: nat): nat {
    v % Pow256(n)
  }

  predicate FitsSigned(v: int, n: nat) {
    -Pow256(n) <= 2 * v < Pow256(n)
  }

  function DecodeInt(bs: seq<Byte>): int {
    ToSigned(BigEndian(bs), |bs|)
  }

  function EncodeInt(v: int, n: nat): (bs: seq<Byte>)
    ensures |bs| == n
  {
    Spell(ToPattern(v, n), n)
  }

  lemma {:induction false} BigEndianBound(bs: seq<Byte>)
    ensures BigEndian(bs) < Pow256(|bs|)
  {
    if bs != [] {
      BigEndianBound(bs[..|bs| - 1]);
    }
  }

  lemma {:induction false} BigEndianOfSpell(v: nat, n: nat)
    requires v < Pow256(n)
    ensures BigEndian(Spell(v, n)) == v
  {
    if n != 0 {
      var high, low := v / 256, v % 256;
      assert v == 256 * high + low;
      BigEndianOfSpell(high, n - 1);
      var bs := Spell(v, n);
      assert bs == Spell(high, n - 1) + [low];
      assert bs[..n - 1] == Spell(high, n - 1) && bs[n - 1] == low;
    }
  }

  lemma {:induction false} SpellOfBigEndian(bs: seq<Byte>)
    ensures Spell(BigEndian(bs), |bs|) == bs
  {
    if bs != [] {
      var front, last := bs[..|bs| - 1], bs[|bs| - 1];
      SpellOfBigEndian(front);
      assert BigEndian(bs) / 256 == BigEndian(front) && BigEndian(bs) % 256 == last;
      assert bs == front + [last];
    }
  }

  lemma SmallModulo(x: int, m: int)
    requires 0 <= x < m
    ensures x % m == x
  {
  }

  lemma NegativeModulo(x: int, m: int)
    requires -m <= x < 0
    ensures x % m == x + m
  {
    var q, r := x / m, x % m;
    assert x == m * q + r && 0 <= r < m;
    assert q >= 0 ==> m * q >= 0;
    assert q <= -2 ==> m * q <= m * -2;
  }

  /** Reading back what was written gives the number, at every width. */
  lemma DecodeOfEncode(v: int, n: nat)
    requires FitsSigned(v, n)
    ensures DecodeInt(EncodeInt(v, n)) == v
  {
    var m := Pow256(n);
    if v >= 0 {
      SmallModulo(v, m);
    } else {
      NegativeModulo(v, m);
    }
    BigEndianOfSpell(ToPattern(v, n), n);
  }

  /** Writing what was read gives the bytes back, at every width. */
  lemma EncodeOfDecode(bs: seq<Byte>)
    ensures FitsSigned(DecodeInt(bs), |bs|)
    ensures EncodeInt(DecodeInt(bs), |bs|) == bs
  {
    var p, m := BigEndian(bs), Pow256(|bs|);
    BigEndianBound(bs);
    if 2 * p < m {
      SmallModulo(p, m);
    } else {
      NegativeModulo(p - m, m);
    }
    SpellOfBigEndian(bs);
  }

  // ---------------------------------------------------------------- the two widths the protocol uses

  lemma BigEndianOfTwo(b: seq<Byte>)
    requires |b| == 2
    ensures BigEndian(b) == 0x100 * (b[0] as int) + b[1]
  {
    assert b[..1] == [b[0]] && BigEndian([b[0]]) == b[0];
  }

  lemma Int16AtIsDecode(data: seq<Byte>, o: int)
    requires 0 <= o <= |data| - 2
    ensures Int16At(data, o) == DecodeInt(data[o..o + 2])
  {
    BigEndianOfTwo(data[o..o + 2]);
    assert Pow256(2) == 0x1_0000;
  }

  lemma Int32AtIsDecode(data: seq<Byte>, o: int)
    requires 0 <= o <= |data| - 4
    ensures Int32At(data, o) == DecodeInt(data[o..o + 4])
  {
    var b := data[o..o + 4];
    BigEndianOfTwo(b[..2]);
    assert b[..3][..2] == b[..2];
    assert BigEndian(b[..3]) == 0x100 * BigEndian(b[..2]) + b[2];
    assert BigEndian(b) == 0x100 * BigEndian(b[..3]) + b[3];
    assert Pow256(4) == 0x1_0000_0000;
  }

  lemma Int16AtEncoding(data: seq<Byte>, o: int, v: int)
    requires 0 <= o <= |data| - 2 && data[o..o + 2] == EncodeInt(v, 2)
    requires -0x8000 <= v < 0x8000
    ensures Int16At(data, o) == v
  {
    assert Pow256(2) == 0x1_0000;
    DecodeOfEncode(v, 2);
    Int16AtIsDecode(data, o);
  }

  lemma Int32AtEncoding(data: seq<Byte>, o: int, v: int)
    requires 0 <= o <= |data| - 4 && data[o..o + 4] == EncodeInt(v, 4)
    requires -0x8000_0000 <= v < 0x8000_0000
    ensures Int32At(data, o) == v
  {
    assert Pow256(4) == 0x1_0000_0000;
    DecodeOfEncode(v, 4);
    Int32AtIsDecode(data, o);
  }

  // ---------------------------------------------------------------- C operators on an n-byte integer

  function Pow2(k: nat): (p: nat)
    ensures p > 0
  {
    if k == 0 then 1 else 2 * Pow2(k - 1)
  }

  /** Bitwise or of two bit patterns. */
  function OrBits(x: nat, y: nat): nat {
    if x == 0 && y == 0 then 0
    else 2 * OrBits(x / 2, y / 2) + (if x % 2 == 1 || y % 2 == 1 then 1 else 0)
  }

  /** `(intN_t) v` for an N of `n` bytes. */
  function Cast(v: int, n: nat): int {
    ToSigned(ToPattern(v, n), n)
  }

  /** `x << k` on an `n`-byte signed integer, bits falling off the top. */
  function ShiftLeft(x: int, k: nat, n: nat): int {
    Cast(x * Pow2(k), n)
  }

  /** `x | y` on `n`-byte signed integers. */
  function Or(x: int, y: int, n: nat): int {
    Cast(OrBits(ToPattern(x, n), ToPattern(y, n)), n)
  }

  /** `pgprtdbg_read_int16`: the shifted byte is cast to 16 bits, then or-ed as an `int`. */
  function ShiftOr16(b0: Byte, b1: Byte): int {
    Cast(Or(Cast(ShiftLeft(b0, 8, 4), 2), b1, 4), 2)
  }

  /** The or of the first `i` shifted bytes. With all of them: `pgprtdbg_read_int32` for 4 bytes and
      `pgprtdbg_read_long` for 8, whose operands are or-ed from the left in this order. */
  function ShiftOr(b: seq<Byte>, i: nat): int
    requires 1 <= i <= |b|
  {
    var shifted := ShiftLeft(b[i - 1], 8 * (|b| - i), |b|);
    if i == 1 then shifted else Or(ShiftOr(b, i - 1), shifted, |b|)
  }

  // ---------------------------------------------------------------- or of disjoint bit ranges is addition

  lemma {:induction false} OrZero(x: nat)
    ensures OrBits(x, 0) == x
  {
    if x != 0 {
      OrZero(x / 2);
    }
  }

  lemma {:induction false} OrDisjoint(x: nat, y: nat, k: nat)
    requires y < Pow2(k)
    ensures OrBits(x * Pow2(k), y) == x * Pow2(k) + y
  {
    if k == 0 {
      OrZero(x);
    } else {
      var h := x * Pow2(k - 1);
      assert x * Pow2(k) == 2 * h;
      OrDisjoint(x, y / 2, k - 1);
      assert 2 * h / 2 == h;
    }
  }

  lemma PatternOfCast(v: int, n: nat)
    ensures ToPattern(Cast(v, n), n) == ToPattern(v, n)
  {
    var p, m := ToPattern(v, n), Pow256(n);
    if 2 * p < m {
      SmallModulo(p, m);
    } else {
      NegativeModulo(p - m, m);
    }
  }

  /** Or-ing a byte group into the zero bits below an accumulator adds it. */
  lemma OrBelow(acc: int, high: nat, low: int, k: nat, n: nat)
    requires ToPattern(acc, n) == high * Pow2(k)
    requires 0 <= ToPattern(low, n) < Pow2(k)
    requires high * Pow2(k) + ToPattern(low, n) < Pow256(n)
    ensures ToPattern(Or(acc, low, n), n) == high * Pow2(k) + ToPattern(low, n)
    ensures Or(acc, low, n) == ToSigned(high * Pow2(k) + ToPattern(low, n), n)
  {
    var y := ToPattern(low, n);
    OrDisjoint(high, y, k);
    SmallModulo(high * Pow2(k) + y, Pow256(n));
    PatternOfCast(OrBits(ToPattern(acc, n), y), n);
  }

  lemma PatternOfShift(x: nat, k: nat, n: nat)
    requires x * Pow2(k) < Pow256(n)
    ensures ToPattern(ShiftLeft(x, k, n), n) == x * Pow2(k)
    ensures ShiftLeft(x, k, n) == ToSigned(x * Pow2(k), n)
  {
    PatternOfCast(x * Pow2(k), n);
    SmallModulo(x * Pow2(k), Pow256(n));
  }

  lemma {:induction false} Pow2Bytes(m: nat)
    ensures Pow2(8 * m) == Pow256(m)
  {
    if m != 0 {
      Pow2Bytes(m - 1);
      var k := 8 * (m - 1);
      assert Pow2(k + 2) == 4 * Pow2(k) && Pow2(k + 4) == 4 * Pow2(k + 2);
      assert Pow2(k + 6) == 4 * Pow2(k + 4) && Pow2(k + 8) == 4 * Pow2(k + 6);
    }
  }

  lemma {:induction false} Pow256Product(i: nat, m: nat)
    ensures Pow256(i) * Pow256(m) == Pow256(i + m)
  {
    if i != 0 {
      Pow256Product(i - 1, m);
      assert Pow256(i) * Pow256(m) == 256 * (Pow256(i - 1) * Pow256(m));
    }
  }

  /** A number of `i` bytes moved up by the other `m` still fits in `i + m` bytes. */
  lemma ShiftedFits(v: nat, i: nat, m: nat)
    requires v < Pow256(i)
    ensures v * Pow2(8 * m) < Pow256(i + m)
  {
    Pow2Bytes(m);
    Pow256Product(i, m);
    assert v * Pow256(m) < Pow256(i) * Pow256(m);
  }

  lemma Widen(high: nat, low: nat, unit: nat, above: nat)
    requires above == 256 * unit
    ensures (256 * high + low) * unit == high * above + low * unit
  {
  }

  lemma ByteBelow(low: Byte, unit: nat)
    requires unit > 0
    ensures low * unit < 256 * unit
  {
  }

  /** One more byte: the accumulator's `high` bytes and `low`, with `m` bytes still to come. */
  lemma OrNextByte(acc: int, high: nat, low: Byte, i: nat, m: nat, n: nat)
    requires high < Pow256(i) && n == i + 1 + m
    requires ToPattern(acc, n) == high * Pow2(8 * (m + 1))
    ensures ToPattern(Or(acc, ShiftLeft(low, 8 * m, n), n), n) == (256 * high + low) * Pow2(8 * m)
    ensures Or(acc, ShiftLeft(low, 8 * m, n), n) == ToSigned((256 * high + low) * Pow2(8 * m), n)
  {
    var unit, above, shifted := Pow2(8 * m), Pow2(8 * (m + 1)), ShiftLeft(low, 8 * m, n);
    assert above == 256 * unit by {
      Pow2Bytes(m);
      Pow2Bytes(m + 1);
    }
    assert (256 * high + low) * unit < Pow256(n) by {
      ShiftedFits(256 * high + low, i + 1, m);
    }
    Widen(high, low, unit, above);
    ByteBelow(low, unit);
    assert ToPattern(shifted, n) == low * unit by {
      ShiftedFits(low, i + 1, m);
      PatternOfShift(low, 8 * m, n);
    }
    OrBelow(acc, high, shifted, 8 * (m + 1), n);
  }

  lemma {:induction false} ShiftOrPattern(b: seq<Byte>, i: nat)
    requires 1 <= i <= |b|
    ensures ToPattern(ShiftOr(b, i), |b|) == BigEndian(b[..i]) * Pow2(8 * (|b| - i))
    ensures ShiftOr(b, i) == ToSigned(BigEndian(b[..i]) * Pow2(8 * (|b| - i)), |b|)
  {
    var n, m, low := |b|, |b| - i, b[i - 1];
    var high := BigEndian(b[..i - 1]);
    assert BigEndian(b[..i]) == 256 * high + low by {
      assert b[..i][..i - 1] == b[..i - 1];
    }
    if i == 1 {
      assert high == 0;
      ShiftedFits(low, 1, m);
      PatternOfShift(low, 8 * m, n);
    } else {
      ShiftOrPattern(b, i - 1);
      BigEndianBound(b[..i - 1]);
      OrNextByte(ShiftOr(b, i - 1), high, low, i - 1, m, n);
    }
  }

  /** The 32-bit and 64-bit readers compute big-endian two's complement. */
  lemma ShiftOrIsBigEndian(b: seq<Byte>)
    requires |b| > 0
    ensures ShiftOr(b, |b|) == DecodeInt(b)
  {
    ShiftOrPattern(b, |b|);
    assert b[..|b|] == b && Pow2(0) == 1;
  }

  lemma Widths()
    ensures Pow2(8) == 256 && Pow256(2) == 0x1_0000 && Pow256(4) == 0x1_0000_0000
  {
  }

  /** The first byte, shifted and cast to 16 bits, as a 32-bit pattern: its sign is extended. */
  lemma SignExtension(top: Byte)
    ensures Cast(ShiftLeft(top, 8, 4), 2) == if top < 128 then 256 * (top as int) else 256 * (top as int) - 0x1_0000
    ensures ToPattern(Cast(ShiftLeft(top, 8, 4), 2), 4) == 256 * if top < 128 then top as int else 0xff_ff00 + top
  {
    Widths();
    PatternOfShift(top, 8, 4);
    var first := 256 * (top as int);
    SmallModulo(first, 0x1_0000);
    if top < 128 {
      SmallModulo(first, 0x1_0000_0000);
    } else {
      NegativeModulo(first - 0x1_0000, 0x1_0000_0000);
    }
  }

  /** Back to 16 bits: only the two bytes are left of a 32-bit pattern. */
  lemma CastToTwoBytes(top: Byte, low: Byte)
    ensures var p := 256 * (if top < 128 then top as int else 0xff_ff00 + top) + low;
            Cast(ToSigned(p, 4), 2) == ToSigned(256 * (top as int) + low, 2)
  {
    Widths();
    var u := 256 * (top as int) + low;
    if top < 128 {
      SmallModulo(u, 0x1_0000);
    } else {
      NegativeModulo(u - 0x1_0000, 0x1_0000);
    }
  }

  /** So does the 16-bit reader, although the cast between its operators extends the sign. */
  lemma ShiftOr16IsBigEndian(b: seq<Byte>)
    requires |b| == 2
    ensures ShiftOr16(b[0], b[1]) == DecodeInt(b)
  {
    hide ShiftLeft, OrBits, Or, Cast;
    var top, low := b[0], b[1];
    var high := if top < 128 then top as int else 0xff_ff00 + top as int;
    Widths();
    BigEndianOfTwo(b);
    SignExtension(top);
    SmallModulo(low, 0x1_0000_0000);
    OrBelow(Cast(ShiftLeft(top, 8, 4), 2), high, low, 8, 4);
    CastToTwoBytes(top, low);
  }

  // ---------------------------------------------------------------- readers and writers on memory

  method ReadInt16(data: seq<Byte>, o: int) returns (v: int)
    requires 0 <= o <= |data| - 2
    ensures v == Int16At(data, o)
  {
    ShiftOr16IsBigEndian(data[o..o + 2]);
    Int16AtIsDecode(data, o);
    v := ShiftOr16(data[o], data[o + 1]);
  }

  method ReadInt32(data: seq<Byte>, o: int) returns (v: int)
    requires 0 <= o <= |data| - 4
    ensures v == Int32At(data, o)
  {
    var bytes := [data[o], data[o + 1], data[o + 2], data[o + 3]];
    assert bytes == data[o..o + 4];
    ShiftOrIsBigEndian(bytes);
    Int32AtIsDecode(data, o);
    v := ShiftOr(bytes, 4);
  }

  /** The bytes of `v` in the memory of a little-endian host, lowest address first. */
  function Memory(v: int, n: nat): seq<Byte> {
    var s := EncodeInt(v, n);
    seq(n, i requires 0 <= i < n => s[n - 1 - i])
  }

  /** `pgprtdbg_write_int32` (n = 4) and `pgprtdbg_write_long` (n = 8): the host's bytes are copied
      from the lowest address up into the field from its last byte down. */
  method WriteInt(data: array<Byte>, o: nat, v: int, n: nat)
    requires o + n <= data.Length
    modifies data
    ensures data[..] == old(data[..o]) + EncodeInt(v, n) + old(data[o + n..])
  {
    var host := Memory(v, n);
    for ptr := 0 to n
      invariant forall i :: 0 <= i < data.Length && !(o + n - ptr <= i < o + n) ==> data[i] == old(data[i])
      invariant forall i :: 0 <= i < ptr ==> data[o + n - 1 - i] == host[i]
    {
      data[o + n - 1 - ptr] := host[ptr];
    }
    forall k | 0 <= k < n
      ensures data[o + k] == EncodeInt(v, n)[k]
    {
      assert data[o + n - 1 - (n - 1 - k)] == host[n - 1 - k];
    }
  }
}
