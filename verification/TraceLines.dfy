/** The text of a trace line, as `output_write` formats it. */
module TraceLines {
  import opened Bytes
  import opened Constants

  // ---------------------------------------------------------------- %d

  function Digit(d: nat): char
    requires d < 10
  {
    (48 + d) as char
  }

  function DecimalNat(n: nat): (s: string)
    ensures |s| > 0
  {
    if n < 10 then [Digit(n)] else DecimalNat(n / 10) + [Digit(n % 10)]
  }

  function Decimal(i: int): string {
    if i < 0 then "-" + DecimalNat(-i) else DecimalNat(i)
  }

  predicate IsDigit(c: char) {
    '0' <= c <= '9'
  }

  predicate AllDigits(s: string) {
    forall i :: 0 <= i < |s| ==> IsDigit(s[i])
  }

  function Value(s: string): int {
    if s == [] then 0 else 10 * Value(s[..|s| - 1]) + (s[|s| - 1] as int - 48)
  }

  lemma {:induction false} DecimalNatReads(n: nat)
    ensures AllDigits(DecimalNat(n)) && Value(DecimalNat(n)) == n
  {
    if n >= 10 {
      DecimalNatReads(n / 10);
      assert DecimalNat(n)[..|DecimalNat(n)| - 1] == DecimalNat(n / 10);
    } else {
      assert DecimalNat(n)[..0] == [];
    }
  }

  function Pow10(k: nat): (p: int)
    ensures p > 0
  {
    if k == 0 then 1 else 10 * Pow10(k - 1)
  }

  lemma {:induction false} DecimalNatLength(n: nat, k: nat)
    requires n < Pow10(k) && k >= 1
    ensures |DecimalNat(n)| <= k
  {
    if n >= 10 {
      assert k > 1 by {
        assert Pow10(1) == 10;
      }
      DecimalNatLength(n / 10, k - 1);
    }
  }

  lemma DecimalLength(i: int)
    requires FitsInt32(i)
    ensures 0 < |Decimal(i)| <= 11
  {
    assert Pow10(5) == 100_000 && Pow10(10) == 100_000 * Pow10(5);
    DecimalNatLength(if i < 0 then -i else i, 10);
  }

  lemma DecimalInjective(i: int, j: int)
    requires Decimal(i) == Decimal(j)
    ensures i == j
  {
    var m, n := if i < 0 then -i else i, if j < 0 then -j else j;
    DecimalNatReads(m);
    DecimalNatReads(n);
    assert i < 0 ==> Decimal(i)[0] == '-' && Decimal(i)[1..] == DecimalNat(m);
    assert j < 0 ==> Decimal(j)[0] == '-' && Decimal(j)[1..] == DecimalNat(n);
  }

  // ---------------------------------------------------------------- the line

  /** A kind printed with `%c`: a letter, a digit or a question mark. Others print with `%d`. */
  predicate PrintsAsChar(kind: int) {
    65 <= kind <= 90 || 97 <= kind <= 122 || 48 <= kind <= 57 || kind == 63
  }

  function KindText(kind: int): string {
    if PrintsAsChar(kind) then [kind as char] else Decimal(kind)
  }

  /** `snprintf` into a buffer of `size` bytes. */
  function Snprintf(s: string, size: nat): string
    requires size > 0
  {
    if |s| < size then s else s[..size - 1]
  }

  function Fields(sockets: bool, id: char, from: int, to: int, kind: int): string {
    if sockets then [id] + "," + (Decimal(from) + "," + (Decimal(to) + "," + (KindText(kind) + "\n")))
    else [id] + "," + (KindText(kind) + "\n")
  }

  /** The line for one frame; the decoders never set a text, so there is no further field. */
  function Line(sockets: bool, id: char, from: int, to: int, kind: int): string {
    Snprintf(Fields(sockets, id, from, to, kind), MISC_LENGTH)
  }

  predicate IsSignedChar(kind: int) {
    -128 <= kind < 128
  }

  predicate Free(s: string, c: char) {
    forall i :: 0 <= i < |s| ==> s[i] != c
  }

  lemma DecimalFree(i: int)
    ensures Free(Decimal(i), ',') && Free(Decimal(i), '\n')
  {
    DecimalNatReads(if i < 0 then -i else i);
  }

  /** No line is cut off by the 128-byte buffer, and the only newline in it is its last character. */
  lemma LineIsWhole(sockets: bool, id: char, from: int, to: int, kind: int)
    requires FitsInt32(from) && FitsInt32(to) && IsSignedChar(kind) && id in {'C', 'S'}
    ensures var l := Line(sockets, id, from, to, kind);
            && l == Fields(sockets, id, from, to, kind)
            && |l| < 128 && l[|l| - 1] == '\n' && Free(l[..|l| - 1], '\n')
  {
    hide Decimal;
    KindTextIsShort(kind);
    DecimalLength(from);
    DecimalLength(to);
    DecimalFree(from);
    DecimalFree(to);
    var k := KindText(kind);
    var t := Decimal(to) + "," + k;
    var f := Decimal(from) + "," + t;
    var body := [id] + "," + if sockets then f else k;
    assert Free(t, '\n');
    assert Free(f, '\n');
    assert Free(body, '\n');
    var l := Fields(sockets, id, from, to, kind);
    assert l == body + "\n";
    assert l[..|l| - 1] == body;
  }

  lemma KindTextIsShort(kind: int)
    requires IsSignedChar(kind)
    ensures |KindText(kind)| <= 11 && Free(KindText(kind), '\n')
  {
    DecimalLength(kind);
    DecimalFree(kind);
  }

  /** Different kinds have different texts, but for a digit and the control character of its value:
      kind `'5'` and kind 5 both print as 5. */
  lemma KindTextCollides(k1: int, k2: int)
    requires IsSignedChar(k1) && IsSignedChar(k2)
    ensures KindText(k1) == KindText(k2)
            <==> k1 == k2 || (0 <= k1 <= 9 && k2 == k1 + 48) || (0 <= k2 <= 9 && k1 == k2 + 48)
  {
    if PrintsAsChar(k1) == PrintsAsChar(k2) {
      if !PrintsAsChar(k1) && Decimal(k1) == Decimal(k2) {
        DecimalInjective(k1, k2);
      }
    } else {
      CharAgainstNumber(if PrintsAsChar(k1) then k1 else k2, if PrintsAsChar(k1) then k2 else k1);
    }
  }

  lemma CharAgainstNumber(c: int, n: int)
    requires PrintsAsChar(c) && IsSignedChar(n)
    ensures [c as char] == Decimal(n) <==> 0 <= n <= 9 && c == n + 48
  {
    if 0 <= n <= 9 {
      assert Decimal(n) == [Digit(n)];
    } else {
      assert |Decimal(n)| >= 2;
    }
  }

  lemma SplitAtComma(x: string, y: string, u: string, v: string)
    requires x + "," + y == u + "," + v && Free(x, ',') && Free(u, ',')
    ensures x == u && y == v
  {
    var s := x + "," + y;
    assert s[|x|] == ',' && s[|u|] == ',';
    assert forall i :: 0 <= i < |x| ==> s[i] == x[i];
    assert forall i :: 0 <= i < |u| ==> s[i] == u[i];
    assert |x| == |u|;
    assert s[..|x|] == x && s[..|u|] == u && s[|x| + 1..] == y && s[|u| + 1..] == v;
  }

  /** A line with socket numbers tells the side, both sockets and the text of the kind. */
  lemma LineIsReadable(id: char, from: int, to: int, kind: int, id': char, from': int, to': int, kind': int)
    requires id in {'C', 'S'} && id' in {'C', 'S'}
    requires FitsInt32(from) && FitsInt32(to) && IsSignedChar(kind)
    requires FitsInt32(from') && FitsInt32(to') && IsSignedChar(kind')
    requires Line(true, id, from, to, kind) == Line(true, id', from', to', kind')
    ensures id == id' && from == from' && to == to' && KindText(kind) == KindText(kind')
  {
    LineIsWhole(true, id, from, to, kind);
    LineIsWhole(true, id', from', to', kind');
    var k, k' := KindText(kind) + "\n", KindText(kind') + "\n";
    var t, t' := Decimal(to) + "," + k, Decimal(to') + "," + k';
    SplitAtComma([id], Decimal(from) + "," + t, [id'], Decimal(from') + "," + t');
    DecimalFree(from);
    DecimalFree(from');
    SplitAtComma(Decimal(from), t, Decimal(from'), t');
    DecimalFree(to);
    DecimalFree(to');
    SplitAtComma(Decimal(to), k, Decimal(to'), k');
    DecimalInjective(from, from');
    DecimalInjective(to, to');
    assert [id][0] == [id'][0] && k[..|k| - 1] == KindText(kind) && k'[..|k'| - 1] == KindText(kind');
  }

  // ---------------------------------------------------------------- reading a line

  /** The texts between the commas. */
  function Cells(l: string): (cells: seq<string>)
    ensures cells != []
  {
    if l == "" then [""]
    else
      var rest := Cells(l[1..]);
      if l[0] == ',' then [""] + rest else [[l[0]] + rest[0]] + rest[1..]
  }

  /** `s` is the number `n` in decimal, without leading zeros. */
  predicate IsNumber(s: string, n: int) {
    var digits := if n < 0 && s != "" then s[1..] else s;
    && (n < 0 ==> s != "" && s[0] == '-')
    && digits != "" && AllDigits(digits) && (digits[0] == '0' ==> digits == "0")
    && Value(digits) == if n < 0 then -n else n
  }

  /** A letter, a digit or `?` stands for itself; any other kind is a number. */
  predicate IsKind(s: string, kind: int) {
    if 'A' as int <= kind <= 'Z' as int || 'a' as int <= kind <= 'z' as int || '0' as int <= kind <= '9' as int
       || kind == '?' as int
    then s == [kind as char]
    else IsNumber(s, kind)
  }

  /** The line shows the side, with sockets where the packet came from and where it went, and the kind. */
  predicate Shows(sockets: bool, l: string, id: char, from: int, to: int, kind: int) {
    && l != "" && l[|l| - 1] == '\n'
    && var cells := Cells(l[..|l| - 1]);
       if sockets then
         && |cells| == 4 && cells[0] == [id]
         && IsNumber(cells[1], from) && IsNumber(cells[2], to) && IsKind(cells[3], kind)
       else
         |cells| == 2 && cells[0] == [id] && IsKind(cells[1], kind)
  }

  lemma {:induction false} CellsOfJoin(x: string, y: string)
    requires Free(x, ',')
    ensures Cells(x + "," + y) == [x] + Cells(y)
  {
    var l := x + "," + y;
    if x == "" {
      assert l[1..] == y;
    } else {
      CellsOfJoin(x[1..], y);
      assert l[1..] == x[1..] + "," + y && l[0] == x[0] != ',';
      var rest := Cells(l[1..]);
      assert rest[0] == x[1..] && rest[1..] == Cells(y);
      assert [x[0]] + x[1..] == x;
    }
  }

  lemma {:induction false} CellsOfOne(x: string)
    requires Free(x, ',')
    ensures Cells(x) == [x]
  {
    if x != "" {
      CellsOfOne(x[1..]);
      assert x[0] != ',' && [x[0]] + x[1..] == x;
    }
  }

  lemma {:induction false} NoLeadingZero(n: nat)
    ensures DecimalNat(n)[0] == '0' ==> n == 0
  {
    if n >= 10 {
      NoLeadingZero(n / 10);
    }
  }

  lemma DecimalIsNumber(i: int)
    ensures IsNumber(Decimal(i), i)
  {
    var m := if i < 0 then -i else i;
    DecimalNatReads(m);
    NoLeadingZero(m);
    assert i < 0 ==> Decimal(i)[1..] == DecimalNat(m);
  }

  lemma KindTextIsKind(kind: int)
    ensures IsKind(KindText(kind), kind) && Free(KindText(kind), ',')
  {
    hide Decimal, IsNumber;
    DecimalIsNumber(kind);
    DecimalFree(kind);
  }

  /** Every line shows what it is about: the side, the socket the packet came from before the one it went to, and
      the kind. */
  lemma LineShows(sockets: bool, id: char, from: int, to: int, kind: int)
    requires FitsInt32(from) && FitsInt32(to) && IsSignedChar(kind) && id in {'C', 'S'}
    ensures Shows(sockets, Line(sockets, id, from, to, kind), id, from, to, kind)
  {
    hide Decimal, IsNumber, KindText, IsKind, Cells, Snprintf;
    LineIsWhole(sockets, id, from, to, kind);
    KindTextIsKind(kind);
    DecimalIsNumber(from);
    DecimalIsNumber(to);
    DecimalFree(from);
    DecimalFree(to);
    var l, k := Line(sockets, id, from, to, kind), KindText(kind);
    CellsOfOne(k);
    if sockets {
      assert l[..|l| - 1] == [id] + "," + (Decimal(from) + "," + (Decimal(to) + "," + k));
      CellsOfJoin([id], Decimal(from) + "," + (Decimal(to) + "," + k));
      CellsOfJoin(Decimal(from), Decimal(to) + "," + k);
      CellsOfJoin(Decimal(to), k);
    } else {
      assert l[..|l| - 1] == [id] + "," + k;
      CellsOfJoin([id], k);
    }
  }
}
