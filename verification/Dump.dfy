/** The hex and character dump that `pgprtdbg_log_mem` and `write_traffic` build in a fixed buffer. */
module Dump {
  import opened Bytes
  import opened Constants
  import Configuration

  const LINE_LENGTH := 32
  const CAPACITY := 256 * 1024

  // ---------------------------------------------------------------- one byte

  function HexDigit(d: nat): char
    requires d < 16
  {
    if d < 10 then (48 + d) as char else (55 + d) as char
  }

  /** `%02X` of a `signed char`: a negative one is promoted to an `int` and prints eight digits. */
  function Hex(b: Byte): (s: string)
    ensures |s| == if b < 128 then 2 else 8
    ensures forall i :: 0 <= i < |s| ==> s[i] != NUL
  {
    var low := [HexDigit(b / 16), HexDigit(b % 16)];
    if b < 128 then low else "FFFFFF" + low
  }

  /** The digits that stay: the cursor advances two places, so later output covers the others. */
  function Kept(b: Byte): string {
    Hex(b)[..2]
  }

  function Show(b: Byte): char {
    if 32 <= SignedByte(b) <= 127 then b as char else '?'
  }

  // ---------------------------------------------------------------- the layout

  /** How many line breaks a section of `n` items has. */
  function Breaks(n: nat): nat {
    if n == 0 then 0 else (n - 1) / LINE_LENGTH
  }

  function Break(n: nat): string {
    if n > 0 && n % LINE_LENGTH == 0 then "\n" else ""
  }

  function HexText(s: seq<Byte>): (t: string)
    ensures |t| == 2 * |s| + Breaks(|s|)
  {
    if s == [] then "" else HexText(s[..|s| - 1]) + Break(|s| - 1) + Kept(s[|s| - 1])
  }

  function CharText(s: seq<Byte>): (t: string)
    ensures |t| == |s| + Breaks(|s|)
  {
    if s == [] then "" else CharText(s[..|s| - 1]) + Break(|s| - 1) + [Show(s[|s| - 1])]
  }

  function DumpText(s: seq<Byte>): string {
    HexText(s) + "\n" + CharText(s)
  }

  /** Where the digits of byte `i` are in the hex section. */
  function HexAt(i: nat): nat {
    2 * i + i / LINE_LENGTH
  }

  /** Where the character of byte `i` is in the character section. */
  function ShownAt(i: nat): nat {
    i + i / LINE_LENGTH
  }

  /** The length of the dump of `n` bytes. */
  function DumpEnd(n: nat): nat {
    3 * n + 2 * Breaks(n) + 1
  }

  /** A line break is printed exactly before the items from which on there is one more. */
  lemma BreakCounts(i: nat)
    ensures i / LINE_LENGTH == Breaks(i) + |Break(i)|
  {
    if i > 0 {
      var q, r := i / 32, i % 32;
      assert i == 32 * q + r;
      assert r > 0 ==> (i - 1) / 32 == q;
      assert r == 0 ==> (i - 1) / 32 == q - 1;
    }
  }

  lemma {:induction false} HexLayout(s: seq<Byte>, i: nat)
    requires i < |s|
    ensures HexAt(i) + 2 <= |HexText(s)| && HexText(s)[HexAt(i)..HexAt(i) + 2] == Kept(s[i])
  {
    hide Hex, Break, Breaks;
    var front, b := s[..|s| - 1], Break(|s| - 1);
    var h, last := HexText(front), Kept(s[|s| - 1]);
    assert HexText(s) == h + b + last && |last| == 2;
    if i < |s| - 1 {
      HexLayout(front, i);
      assert (h + b + last)[HexAt(i)..HexAt(i) + 2] == h[HexAt(i)..HexAt(i) + 2];
    } else {
      BreakCounts(i);
      assert HexAt(i) == |h + b|;
      assert (h + b + last)[|h + b|..|h + b| + 2] == last;
    }
  }

  lemma {:induction false} CharLayout(s: seq<Byte>, i: nat)
    requires i < |s|
    ensures ShownAt(i) < |CharText(s)| && CharText(s)[ShownAt(i)] == Show(s[i])
  {
    hide Show, Break, Breaks;
    var front, b := s[..|s| - 1], Break(|s| - 1);
    var t := CharText(front);
    assert CharText(s) == t + b + [Show(s[|s| - 1])];
    if i < |s| - 1 {
      CharLayout(front, i);
    } else {
      BreakCounts(i);
      assert ShownAt(i) == |t + b|;
    }
  }

  lemma {:induction false} HexBreaks(s: seq<Byte>, i: nat)
    requires 0 < i < |s| && i % 32 == 0
    ensures 2 * i + i / 32 <= |HexText(s)| && HexText(s)[2 * i + i / 32 - 1] == '\n'
  {
    hide Kept;
    if i < |s| - 1 {
      HexBreaks(s[..|s| - 1], i);
    }
  }

  lemma {:induction false} CharBreaks(s: seq<Byte>, i: nat)
    requires 0 < i < |s| && i % 32 == 0
    ensures i + i / 32 <= |CharText(s)| && CharText(s)[i + i / 32 - 1] == '\n'
  {
    hide Show;
    if i < |s| - 1 {
      CharBreaks(s[..|s| - 1], i);
    }
  }

  lemma KeptAndShown(b: Byte)
    ensures Kept(b) == if b < 128 then ["0123456789ABCDEF"[b / 16], "0123456789ABCDEF"[b % 16]] else "FF"
    ensures Show(b) == if 32 <= b <= 127 then b as char else '?'
  {
  }

  /** The dump in every place: it has `3n + 2((n-1)/32) + 1` characters. The digits of byte `i` are at `2i + i/32`, two
      hex digits of a byte below 128 and FF for the others; its character is `i + i/32` behind the start of the
      character section, the byte itself from 32 to 127 and `?` for the others; a line break precedes every 32nd
      byte in either section and stands between the sections. */
  lemma DumpLayout(s: seq<Byte>, i: nat)
    requires i < |s|
    ensures var n, t := |s|, DumpText(s);
            var start := 2 * n + (n - 1) / 32 + 1;
            && |t| == 3 * n + 2 * ((n - 1) / 32) + 1
            && t[2 * i + i / 32..2 * i + i / 32 + 2]
               == (if s[i] < 128 then ["0123456789ABCDEF"[s[i] / 16], "0123456789ABCDEF"[s[i] % 16]] else "FF")
            && t[start + i + i / 32] == (if 32 <= s[i] <= 127 then s[i] as char else '?')
            && t[start - 1] == '\n'
            && (0 < i && i % 32 == 0 ==> t[2 * i + i / 32 - 1] == '\n' && t[start + i + i / 32 - 1] == '\n')
  {
    hide Kept, Show, HexText, CharText, Breaks;
    HexLayout(s, i);
    CharLayout(s, i);
    KeptAndShown(s[i]);
    Sizes(|s|);
    var h, c := HexText(s), CharText(s);
    InSections(h, c, 2 * i + i / 32, i + i / 32);
    if 0 < i && i % 32 == 0 {
      HexBreaks(s, i);
      CharBreaks(s, i);
      InSections(h, c, 2 * i + i / 32 - 2, i + i / 32 - 1);
      assert (h + "\n" + c)[2 * i + i / 32 - 2..2 * i + i / 32][1] == '\n';
    }
  }

  lemma Sizes(n: nat)
    requires n > 0
    ensures Breaks(n) == (n - 1) / 32
  {
  }

  lemma InSections(h: string, c: string, p: nat, q: nat)
    requires p + 2 <= |h| && q < |c|
    ensures (h + "\n" + c)[p..p + 2] == h[p..p + 2] && (h + "\n" + c)[|h| + 1 + q] == c[q]
  {
    assert (h + "\n" + c)[p..p + 2] == (h + "\n" + c)[..|h|][p..p + 2];
    assert (h + "\n" + c)[..|h|] == h;
  }

  /** The number that hex digits spell. */
  function HexNumber(t: string): int {
    if t == "" then 0 else 16 * HexNumber(t[..|t| - 1]) + DigitValue(t[|t| - 1])
  }

  /** `%02X` prints a signed character as the 32-bit pattern it is promoted to. */
  lemma HexIsPattern(b: Byte)
    ensures HexNumber(Hex(b)) == if b < 128 then b as int else 0x1_0000_0000 + (b - 256)
    ensures |Hex(b)| == if b < 128 then 2 else 8
    ensures forall i :: 0 <= i < |Hex(b)| ==> '0' <= Hex(b)[i] <= '9' || 'A' <= Hex(b)[i] <= 'F'
  {
    var high, low := b / 16, b % 16;
    var digits := [HexDigit(high), HexDigit(low)];
    assert DigitValue(HexDigit(high)) == high && DigitValue(HexDigit(low)) == low;
    if b < 128 {
      assert digits[..1] == [HexDigit(high)] && digits[..1][..0] == "";
      assert HexNumber(digits[..1]) == high;
    } else {
      SixFs();
      var t := Hex(b);
      assert t[..7][..6] == "FFFFFF" && t[6] == HexDigit(high) && t[7] == HexDigit(low);
      assert t[..7] == "FFFFFF" + [HexDigit(high)];
      assert HexNumber(t[..7]) == 16 * HexNumber("FFFFFF") + high;
    }
  }

  lemma SixFs()
    ensures HexNumber("FFFFFF") == 0xff_ffff
  {
    assert "FFFFFF"[..5] == "FFFFF" && "FFFFF"[..4] == "FFFF" && "FFFF"[..3] == "FFF" && "FFF"[..2] == "FF";
    assert "FF"[..1] == "F" && "F"[..0] == "";
    assert HexNumber("F") == 15;
    assert HexNumber("FF") == 0xff;
    assert HexNumber("FFF") == 0xfff;
    assert HexNumber("FFFF") == 0xffff;
    assert HexNumber("FFFFF") == 0xf_ffff;
  }

  lemma {:induction false} NoNulInside(s: seq<Byte>)
    ensures forall i :: 0 <= i < |HexText(s)| ==> HexText(s)[i] != NUL
    ensures forall i :: 0 <= i < |CharText(s)| ==> CharText(s)[i] != NUL
  {
    if s != [] {
      NoNulInside(s[..|s| - 1]);
    }
  }

  // ---------------------------------------------------------------- reading it back

  function DigitValue(c: char): int {
    if '0' <= c <= '9' then c as int - 48 else c as int - 55
  }

  /** The bytes that the digits of a dump of `n` bytes spell. */
  function Undump(text: string, n: nat): seq<int>
    requires HexAt(n) <= |text|
  {
    seq(n, i requires 0 <= i < n => 16 * DigitValue(text[HexAt(i)]) + DigitValue(text[HexAt(i) + 1]))
  }

  lemma KeptValue(b: Byte)
    ensures 16 * DigitValue(Kept(b)[0]) + DigitValue(Kept(b)[1]) == if b < 128 then b as int else 255
  {
  }

  lemma DigitsOf(s: seq<Byte>, i: nat)
    requires i < |s|
    ensures HexAt(|s|) <= |DumpText(s)| && HexAt(i) + 2 <= |DumpText(s)|
    ensures DumpText(s)[HexAt(i)] == Kept(s[i])[0] && DumpText(s)[HexAt(i) + 1] == Kept(s[i])[1]
  {
    hide HexText, CharText, Kept;
    HexLayout(s, i);
    var h := HexText(s);
    assert h[HexAt(i)..HexAt(i) + 2][0] == h[HexAt(i)] && h[HexAt(i)..HexAt(i) + 2][1] == h[HexAt(i) + 1];
  }

  /** The dump gives the bytes back exactly when each is below 128 or is 255: every byte from 128 on
      prints as FF. */
  lemma DumpIsReadable(s: seq<Byte>)
    ensures HexAt(|s|) <= |DumpText(s)|
    ensures Undump(DumpText(s), |s|) == s <==> forall i :: 0 <= i < |s| ==> s[i] < 128 || s[i] == 255
  {
    hide DumpText, Kept, DigitValue;
    NothingDumped();
    if s != [] {
      DigitsOf(s, 0);
      forall i | 0 <= i < |s|
        ensures Undump(DumpText(s), |s|)[i] == if s[i] < 128 then s[i] as int else 255
      {
        DigitsOf(s, i);
        KeptValue(s[i]);
      }
    }
  }

  lemma NothingDumped()
    ensures DumpText([]) == "\n"
  {
  }

  // ---------------------------------------------------------------- what is behind the cursor

  /** The content of place `p` at or behind the cursor after `n` bytes have been printed: the last
      `sprintf` that reached it decides. */
  function Residue(s: seq<Byte>, n: nat, p: int): char
    requires n <= |s|
  {
    if n == 0 then NUL
    else
      var q, h := HexAt(n - 1), Hex(s[n - 1]);
      if q <= p < q + |h| then h[p - q]
      else if p == q + |h| then NUL
      else Residue(s, n - 1, p)
  }

  /** Six places behind the cursor there is nothing left. */
  lemma {:induction false} ResidueIsShort(s: seq<Byte>, n: nat, p: int)
    requires n <= |s| && p >= 2 * n + Breaks(n) + 6
    ensures Residue(s, n, p) == NUL
  {
    if n > 0 {
      ResidueIsShort(s, n - 1, p);
    }
  }

  /** The printed text stops behind its last character: five bytes or more, none at all, or too few
      eight-digit bytes to reach behind it. */
  predicate Clean(s: seq<Byte>) {
    || |s| >= 5 || |s| == 0
    || ((|s| == 3 || |s| == 4) && s[|s| - 1] < 128)
    || (|s| <= 2 && forall i :: 0 <= i < |s| ==> s[i] < 128)
  }

  lemma ResidueNext(s: seq<Byte>, n: nat, p: int)
    requires 0 < n <= |s| && n <= 4
    ensures p == 2 * n - 2 + |Hex(s[n - 1])| ==> Residue(s, n, p) == NUL
    ensures 2 * n - 2 <= p < 2 * n - 2 + |Hex(s[n - 1])| ==> Residue(s, n, p) != NUL
    ensures p > 2 * n - 2 + |Hex(s[n - 1])| ==> Residue(s, n, p) == Residue(s, n - 1, p)
  {
  }

  /** Up to four bytes print on one line, and their dump ends `n + 1` places behind the digits. */
  lemma CleanEndOfFew(s: seq<Byte>)
    requires 0 < |s| <= 4
    ensures Residue(s, |s|, 3 * |s| + 1) == NUL <==> Clean(s)
  {
    hide Residue, Hex;
    var n, p := |s|, 3 * |s| + 1;
    ResidueNext(s, n, p);
    if n >= 3 {
      ResidueIsShort(s, n - 1, p);
    } else {
      if n == 2 {
        ResidueNext(s, 1, p);
      }
      NothingPrinted(s);
    }
  }

  lemma CleanEnd(s: seq<Byte>)
    ensures Residue(s, |s|, DumpEnd(|s|)) == NUL <==> Clean(s)
  {
    hide Residue, Hex;
    var n := |s|;
    if n >= 5 || n == 0 {
      if n >= 5 {
        ResidueIsShort(s, n, DumpEnd(n));
      }
      NothingPrinted(s);
    } else {
      CleanEndOfFew(s);
    }
  }

  lemma NothingPrinted(s: seq<Byte>)
    ensures forall p: int {:trigger Residue(s, 0, p)} :: Residue(s, 0, p) == NUL
  {
  }

  // ---------------------------------------------------------------- the writer

  /** `sprintf(&buf[j], "%02X", ...)`, with the NUL it ends in. */
  method SprintfHex(buf: array<char>, j: nat, b: Byte)
    requires j + |Hex(b)| < buf.Length
    modifies buf
    ensures buf[..] == old(buf[..j]) + Hex(b) + [NUL] + old(buf[j + |Hex(b)| + 1..])
  {
    var h := Hex(b);
    forall i | 0 <= i < |h| {
      buf[j + i] := h[i];
    }
    buf[j + |h|] := NUL;
  }

  /** Whatever buffer size is configured, the dump of a read fits. */
  lemma ReadFits(n: nat, configured: int)
    requires n <= Configuration.BufferSize(configured)
    ensures DumpEnd(n) < CAPACITY == 262144
  {
  }

  /** One round of the first loop: a line break when the line is full, then the digits. */
  method PutHex(data: seq<Byte>, i: nat, buf: array<char>, j: nat, k: nat) returns (j': nat, k': nat)
    requires i < |data| && j == 2 * i + Breaks(i) && k == i - LINE_LENGTH * Breaks(i)
    requires HexAt(i) + 9 <= buf.Length
    requires forall p :: j <= p < buf.Length ==> buf[p] == Residue(data, i, p)
    modifies buf
    ensures j' == 2 * (i + 1) + Breaks(i + 1) && k' == i + 1 - LINE_LENGTH * Breaks(i + 1)
    ensures buf[..j'] == old(buf[..j]) + Break(i) + Kept(data[i])
    ensures forall p :: j' <= p < buf.Length ==> buf[p] == Residue(data, i + 1, p)
  {
    hide Hex;
    j', k' := j, k;
    if k' == LINE_LENGTH {
      buf[j'] := '\n';
      j' := j' + 1;
      k' := 0;
    }
    assert j' == HexAt(i) && buf[..j'] == old(buf[..j]) + Break(i);
    label L:
    SprintfHex(buf, j', data[i]);
    var h := Hex(data[i]);
    assert buf[..j' + 2] == old@L(buf[..j']) + h[..2];
    assert forall p :: j' <= p < j' + |h| ==> buf[p] == h[p - j'];
    assert forall p :: j' + |h| < p < buf.Length ==> buf[p] == old@L(buf[p]);
    j', k' := j' + 2, k' + 1;
  }

  /** The first loop. */
  method WriteHex(data: seq<Byte>, buf: array<char>) returns (j: nat)
    requires buf.Length == CAPACITY && DumpEnd(|data|) < CAPACITY
    requires forall p :: 0 <= p < CAPACITY ==> buf[p] == NUL
    modifies buf
    ensures j == |HexText(data)| && buf[..j] == HexText(data)
    ensures forall p :: j <= p < CAPACITY ==> buf[p] == Residue(data, |data|, p)
  {
    hide Kept, Hex;
    j := 0;
    var k := 0;
    for i := 0 to |data|
      invariant j == 2 * i + Breaks(i) <= CAPACITY && k == i - LINE_LENGTH * Breaks(i)
      invariant buf[..j] == HexText(data[..i])
      invariant forall p :: j <= p < CAPACITY ==> buf[p] == Residue(data, i, p)
    {
      assert data[..i + 1][..i] == data[..i];
      j, k := PutHex(data, i, buf, j, k);
    }
    assert data[..|data|] == data;
  }

  /** One round of the second loop. */
  method PutChar(b: Byte, i: nat, buf: array<char>, ghost start: nat, j: nat, k: nat) returns (j': nat, k': nat)
    requires j == start + i + Breaks(i) && k == i - LINE_LENGTH * Breaks(i)
    requires j + 2 <= buf.Length
    modifies buf
    ensures j' == start + i + 1 + Breaks(i + 1) && k' == i + 1 - LINE_LENGTH * Breaks(i + 1)
    ensures buf[..j'] == old(buf[..j]) + Break(i) + [Show(b)]
    ensures forall p :: j' <= p < buf.Length ==> buf[p] == old(buf[p])
  {
    j', k' := j, k;
    var c := SignedByte(b);
    if k' == LINE_LENGTH {
      buf[j'] := '\n';
      j' := j' + 1;
      k' := 0;
    }
    assert buf[..j'] == old(buf[..j]) + Break(i);
    if c >= 32 && c <= 127 {
      buf[j'] := c as char;
    } else {
      buf[j'] := '?';
    }
    assert buf[..j' + 1] == old(buf[..j]) + Break(i) + [Show(b)];
    j', k' := j' + 1, k' + 1;
  }

  /** One more character of the second section, behind `head`. */
  lemma CharNext(data: seq<Byte>, i: nat, head: string)
    requires i < |data|
    ensures head + CharText(data[..i + 1]) == head + CharText(data[..i]) + Break(i) + [Show(data[i])]
    ensures Breaks(i) <= Breaks(i + 1) <= Breaks(|data|)
  {
    hide Show, Break;
    assert data[..i + 1][..i] == data[..i];
    var t := CharText(data[..i]);
    assert head + (t + Break(i) + [Show(data[i])]) == head + t + Break(i) + [Show(data[i])];
  }

  lemma NoChars(head: string)
    ensures head + CharText([]) == head && Breaks(0) == 0
  {
  }

  /** The second loop, behind what the first one wrote. */
  method WriteChars(data: seq<Byte>, buf: array<char>, start: nat, ghost head: string) returns (j: nat)
    requires start + |data| + Breaks(|data|) < buf.Length && buf[..start] == head
    modifies buf
    ensures j == start + |CharText(data)| && buf[..j] == head + CharText(data)
    ensures forall p :: j <= p < buf.Length ==> buf[p] == old(buf[p])
  {
    hide Show, CharText, Break, Breaks;
    j := start;
    var k := 0;
    NoChars(head);
    for i := 0 to |data|
      invariant j == start + i + Breaks(i) <= buf.Length && k == i - LINE_LENGTH * Breaks(i)
      invariant buf[..j] == head + CharText(data[..i])
      invariant forall p :: j <= p < buf.Length ==> buf[p] == old(buf[p])
    {
      CharNext(data, i, head);
      j, k := PutChar(data[i], i, buf, start, j, k);
    }
    assert data[..|data|] == data;
  }

  /**
   Both loops, from a zeroed buffer: the buffer holds the hex section, a line break and the character
   section up to the cursor, and behind the cursor what the eight-digit bytes left there. `text` is the
   C string that is printed: it is the dump, and nothing more, exactly when the bytes are `Clean`.
   */
  method DumpMemory(data: seq<Byte>, buf: array<char>) returns (j: nat, text: string)
    requires buf.Length == CAPACITY && DumpEnd(|data|) < CAPACITY
    modifies buf
    ensures j == DumpEnd(|data|) && buf[..j] == DumpText(data)
    ensures forall p :: j <= p < CAPACITY ==> buf[p] == Residue(data, |data|, p)
    ensures DumpText(data) <= text
    ensures text == DumpText(data) <==> Clean(data)
  {
    hide Residue, Show, Hex, Kept, HexText, CharText;
    forall p | 0 <= p < buf.Length {
      buf[p] := NUL;
    }
    NothingPrinted(data);
    j := WriteHex(data, buf);
    assert buf[..j] == HexText(data);
    buf[j] := '\n';
    j := j + 1;
    j := WriteChars(data, buf, j, HexText(data) + "\n");
    CleanEnd(data);
    text := PrintString(buf, data, j);
  }

  /** `%s` of the buffer: up to its first NUL. */
  method PrintString(buf: array<char>, ghost data: seq<Byte>, ghost end: nat) returns (text: string)
    requires end < buf.Length && buf[..end] == DumpText(data)
    ensures DumpText(data) <= text
    ensures text == DumpText(data) <==> buf[end] == NUL
  {
    NoNulInside(data);
    assert forall i :: 0 <= i < end ==> buf[i] == buf[..end][i] == DumpText(data)[i] != NUL;
    var i := 0;
    while i < buf.Length && buf[i] != NUL
      invariant i <= buf.Length && forall k :: 0 <= k < i ==> buf[k] != NUL
      invariant i <= end || buf[end] != NUL
    {
      i := i + 1;
    }
    text := buf[..i];
    assert i >= end && buf[..end] <= text;
  }
}
