/** Reading the configuration file: the lines, the key and value of a line, and the text fields. */
module Configuration {
  import opened Constants
  import opened Options

  // ---------------------------------------------------------------- key and value of a line

  /** `str[c]` of a C string, whose terminator may be read. */
  function CharAt(str: string, c: nat): char {
    if c < |str| then str[c] else NUL
  }

  predicate EndsKey(c: char) {
    c == ' ' || c == '='
  }

  predicate Separates(c: char) {
    c == ' ' || c == '\t' || c == '='
  }

  predicate EndsValue(c: char) {
    c == ' ' || c == '\r' || c == '\n'
  }

  /** What a line says: a key, if a space or `=` follows it, and then a value, if something ends it. */
  datatype Pair = Pair(key: Option<string>, value: Option<string>)

  ghost predicate IsFirst(str: string, from: nat, to: nat, stop: char -> bool) {
    && from <= to <= |str|
    && (forall i :: from <= i < to ==> !stop(str[i]))
    && (to < |str| ==> stop(str[to]))
  }

  /** The first place from `from` on whose character stops the scan, or the end. */
  function Scan(str: string, from: nat, stop: char -> bool): (to: nat)
    requires from <= |str|
    ensures IsFirst(str, from, to, stop)
    decreases |str| - from
  {
    if from == |str| || stop(str[from]) then from else Scan(str, from + 1, stop)
  }

  function KeyEnd(str: string): nat {
    Scan(str, 0, c => EndsKey(c))
  }

  function Extract(str: string): Pair {
    var c := KeyEnd(str);
    if c == |str| then Pair(None, None)
    else
      var offset := Scan(str, c, x => !Separates(x));
      var end := Scan(str, offset, x => EndsValue(x));
      Pair(Some(str[..c]), if end < |str| then Some(str[offset..end]) else None)
  }

  lemma FirstIsUnique(str: string, from: nat, i: nat, j: nat, stop: char -> bool)
    requires IsFirst(str, from, i, stop) && IsFirst(str, from, j, stop)
    ensures i == j
  {
  }

  /** `extract_key_value`. The pointers keep what they had when the line does not set them. */
  method ExtractKeyValue(str: string, key: Option<string>, value: Option<string>)
    returns (key': Option<string>, value': Option<string>)
    requires forall i :: 0 <= i < |str| ==> str[i] != NUL
    ensures key' == if Extract(str).key.Some? then Extract(str).key else key
    ensures value' == if Extract(str).value.Some? then Extract(str).value else value
  {
    var c, offset := 0, 0;
    key', value' := key, value;
    while CharAt(str, c) != ' ' && CharAt(str, c) != '=' && c < |str|
      invariant c <= |str| && forall i :: 0 <= i < c ==> !EndsKey(str[i])
      decreases |str| - c
    {
      c := c + 1;
    }
    FirstIsUnique(str, 0, c, KeyEnd(str), x => EndsKey(x));
    if c < |str| {
      ghost var k := c;
      key' := Some(str[..c]);
      while (CharAt(str, c) == ' ' || CharAt(str, c) == '\t' || CharAt(str, c) == '=') && c < |str|
        invariant k <= c <= |str| && forall i :: k <= i < c ==> Separates(str[i])
      {
        c := c + 1;
      }
      FirstIsUnique(str, k, c, Scan(str, k, x => !Separates(x)), x => !Separates(x));
      offset := c;
      while CharAt(str, c) != ' ' && CharAt(str, c) != '\r' && CharAt(str, c) != '\n' && c < |str|
        invariant offset <= c <= |str| && forall i :: offset <= i < c ==> !EndsValue(str[i])
        decreases |str| - c
      {
        c := c + 1;
      }
      FirstIsUnique(str, offset, c, Scan(str, offset, x => EndsValue(x)), x => EndsValue(x));
      if c < |str| {
        value' := Some(str[offset..c]);
      }
    }
  }

  /** How a setting is written in the file. */
  function Setting(key: string, value: string): string {
    key + " = " + value + "\n"
  }

  predicate PlainKey(key: string) {
    forall i :: 0 <= i < |key| ==> key[i] != ' ' && key[i] != '='
  }

  predicate PlainValue(value: string) {
    && (forall i :: 0 <= i < |value| ==> value[i] != ' ' && value[i] != '\r' && value[i] != '\n')
    && (value != "" ==> value[0] != '\t' && value[0] != '=')
  }

  /** What may stand between key and value: spaces, tabs and `=`, the first one no tab. */
  predicate IsSeparator(sep: string) {
    && sep != "" && (sep[0] == ' ' || sep[0] == '=')
    && forall i :: 0 <= i < |sep| ==> sep[i] == ' ' || sep[i] == '\t' || sep[i] == '='
  }

  /**
   A setting, with any separator and with either ending of a line, is read back exactly when the key has no space
   and no `=`, and the value has no space, no carriage return and no newline and does not begin with a tab or `=`.
   */
  lemma LineIsReadBack(key: string, sep: string, value: string, end: string)
    requires IsSeparator(sep) && (end == "\n" || end == "\r\n")
    ensures Extract(key + sep + value + end) == Pair(Some(key), Some(value)) <==> PlainKey(key) && PlainValue(value)
  {
    var line := key + sep + value + end;
    var k := KeyEnd(line);
    assert line[|key|] == sep[0] && line[..|key|] == key;
    assert k <= |key|;
    assert forall i :: 0 <= i < |key| ==> line[i] == key[i];
    assert k == |key| <==> PlainKey(key);
    if k == |key| {
      ValueIsReadBack(key, sep, value, end);
    } else {
      assert |line[..k]| < |key|;
    }
  }

  /** In particular one written as `key = value`. */
  lemma SettingIsReadBack(key: string, value: string)
    ensures Extract(Setting(key, value)) == Pair(Some(key), Some(value)) <==> PlainKey(key) && PlainValue(value)
  {
    LineIsReadBack(key, " = ", value, "\n");
  }

  lemma ValueIsReadBack(key: string, sep: string, value: string, end: string)
    requires IsSeparator(sep) && (end == "\n" || end == "\r\n")
    requires PlainKey(key) && KeyEnd(key + sep + value + end) == |key|
    ensures Extract(key + sep + value + end).value == Some(value) <==> PlainValue(value)
    ensures Extract(key + sep + value + end).key == Some(key)
  {
    var line := key + sep + value + end;
    var start := |key| + |sep|;
    var last := start + |value|;
    assert line[..|key|] == key;
    assert forall i :: 0 <= i < |sep| ==> line[|key| + i] == sep[i];
    assert line[last] == end[0] && EndsValue(line[last]) && !Separates(line[last]);
    assert forall i :: 0 <= i < |value| ==> line[start + i] == value[i];
    var offset := Scan(line, |key|, x => !Separates(x));
    assert start <= offset <= last;
    var stop := Scan(line, offset, x => EndsValue(x));
    assert offset <= stop <= last;
    assert Extract(line).value == Some(line[offset..stop]);
    if offset == start {
      assert value != "" ==> line[start] == value[0];
      assert line[start..last] == value;
      WholeOrShorter(line, start, stop, last);
      assert forall i :: start <= i < last ==> line[i] == value[i - start];
    } else {
      assert value != "" && Separates(line[start]);
      assert |line[offset..stop]| < |value|;
    }
  }

  lemma WholeOrShorter(line: string, start: nat, end: nat, last: nat)
    requires start <= end <= last < |line| && EndsValue(line[last])
    requires IsFirst(line, start, end, x => EndsValue(x))
    ensures line[start..end] == line[start..last] <==> forall i :: start <= i < last ==> !EndsValue(line[i])
  {
    assert |line[start..end]| == end - start && |line[start..last]| == last - start;
  }

  // ---------------------------------------------------------------- the lines of the file

  /** A pair the loop acts on, in the section it stands in. */
  datatype Applied = Applied(section: string, key: string, value: string)

  /** The section a line opens: the text up to the first `]`, cut to fit its field. */
  function SectionOf(line: string): Option<string>
    requires line != ""
  {
    var close := Scan(line, 0, c => c == ']');
    if line[0] != '[' || close == |line| then None
    else if close - 1 > MISC_LENGTH - 1 then Some(line[1..MISC_LENGTH])
    else Some(line[1..close])
  }

  predicate IsComment(line: string) {
    line != "" && (line[0] == '#' || line[0] == ';')
  }

  predicate IsSetting(line: string) {
    line != "" && line[0] != '[' && !IsComment(line)
  }

  /** What reading comes to: the pairs acted on, the open section, the number of server sections, and
      whether reading was given up because there were too many of them. */
  datatype Reading = Reading(applied: seq<Applied>, section: string, servers: nat, failed: bool)

  /** The meaning of one line, which depends on nothing of the earlier ones but the section. */
  function Interpret(r: Reading, line: string): Reading {
    if line == "" || r.failed then r
    else if SectionOf(line).Some? then
      var section := SectionOf(line).value;
      if section == "pgprtdbg" then r.(section := section)
      else r.(section := section, servers := r.servers + 1, failed := r.servers > 0)
    else if IsSetting(line) && Extract(line).key.Some? && Extract(line).value.Some? then
      r.(applied := r.applied + [Applied(r.section, Extract(line).key.value, Extract(line).value.value)])
    else r
  }

  function InterpretAll(lines: seq<string>): Reading {
    if lines == [] then Reading([], "", 0, false)
    else Interpret(InterpretAll(lines[..|lines| - 1]), lines[|lines| - 1])
  }

  // ---------------------------------------------------------------- what kinds of lines there are

  lemma FirstBracket(name: string, rest: string)
    requires forall i :: 0 <= i < |name| ==> name[i] != ']'
    ensures Scan("[" + name + "]" + rest, 0, c => c == ']') == |name| + 1
  {
    var line := "[" + name + "]" + rest;
    assert line[|name| + 1] == ']';
    assert forall i :: 0 < i < |name| + 1 ==> line[i] == name[i - 1];
    FirstIsUnique(line, 0, |name| + 1, Scan(line, 0, c => c == ']'), c => c == ']');
  }

  /** A line `[name]` opens the section of that name, cut at 127 characters, whatever follows; it fails the reading
      if its name is not `pgprtdbg` and another such section has been opened before. */
  lemma SectionIsOpened(r: Reading, name: string, rest: string)
    requires !r.failed && forall i :: 0 <= i < |name| ==> name[i] != ']'
    ensures var section := if |name| <= 127 then name else name[..127];
            Interpret(r, "[" + name + "]" + rest)
            == if section == "pgprtdbg" then r.(section := section)
               else r.(section := section, servers := r.servers + 1, failed := r.servers >= 1)
  {
    var line := "[" + name + "]" + rest;
    FirstBracket(name, rest);
    assert line[0] == '[';
    assert line[1..|name| + 1] == name;
    assert |name| > 127 ==> line[1..128] == name[..127];
  }

  /** A line that begins with `#` or `;` says nothing, and neither does one that begins with `[` and has no `]`. */
  lemma CommentSaysNothing(r: Reading, text: string)
    ensures Interpret(r, "#" + text) == r && Interpret(r, ";" + text) == r
    ensures (forall i :: 0 <= i < |text| ==> text[i] != ']') ==> Interpret(r, "[" + text) == r
  {
    var line := "[" + text;
    if forall i :: 0 <= i < |text| ==> text[i] != ']' {
      assert forall i :: 0 < i < |line| ==> line[i] == text[i - 1];
      FirstIsUnique(line, 0, |line|, Scan(line, 0, c => c == ']'), c => c == ']');
    }
  }

  /** Any other line with a key and a value sets the key in the open section. */
  lemma SettingIsApplied(r: Reading, key: string, sep: string, value: string, end: string)
    requires !r.failed && IsSeparator(sep) && (end == "\n" || end == "\r\n")
    requires PlainKey(key) && PlainValue(value) && key != "" && key[0] != '[' && key[0] != '#' && key[0] != ';'
    ensures Interpret(r, key + sep + value + end) == r.(applied := r.applied + [Applied(r.section, key, value)])
  {
    hide Extract, SectionOf;
    LineIsReadBack(key, sep, value, end);
    var line := key + sep + value + end;
    assert line[0] == key[0];
    SettingsOpenNothing(line);
  }

  /** The line opens a section that is not `pgprtdbg`. */
  predicate OpensServer(line: string) {
    line != "" && SectionOf(line).Some? && SectionOf(line).value != "pgprtdbg"
  }

  /** Reading fails exactly when two lines open sections other than `pgprtdbg`. */
  lemma {:induction false} SecondServerFails(lines: seq<string>)
    ensures InterpretAll(lines).failed
            <==> exists i, j :: 0 <= i < j < |lines| && OpensServer(lines[i]) && OpensServer(lines[j])
    ensures InterpretAll(lines).servers > 0 <==> exists i :: 0 <= i < |lines| && OpensServer(lines[i])
  {
    hide Extract, SectionOf, IsSetting;
    if lines != [] {
      var n := |lines| - 1;
      var before := lines[..n];
      SecondServerFails(before);
      assert forall i :: 0 <= i < n ==> before[i] == lines[i];
      assert InterpretAll(lines) == Interpret(InterpretAll(before), lines[n]);
      if InterpretAll(before).failed {
        var i, j :| 0 <= i < j < n && OpensServer(before[i]) && OpensServer(before[j]);
        assert OpensServer(lines[i]) && OpensServer(lines[j]);
      } else if OpensServer(lines[n]) && InterpretAll(before).servers > 0 {
        var i :| 0 <= i < n && OpensServer(before[i]);
        assert OpensServer(lines[i]);
      }
    }
  }

  lemma {:induction false} FailureStays(lines: seq<string>, k: nat)
    requires k <= |lines| && InterpretAll(lines[..k]).failed
    ensures InterpretAll(lines) == InterpretAll(lines[..k])
  {
    if k < |lines| {
      assert lines[..|lines| - 1][..k] == lines[..k];
      FailureStays(lines[..|lines| - 1], k);
    } else {
      assert lines[..k] == lines;
    }
  }

  /** The section that is open behind these lines: that of the last line that opens one. */
  function OpenSection(lines: seq<string>): string {
    if lines == [] then ""
    else
      var last := lines[|lines| - 1];
      if last != "" && SectionOf(last).Some? then SectionOf(last).value else OpenSection(lines[..|lines| - 1])
  }

  /** What line `i` alone says, in the section that is open there. */
  function Said(lines: seq<string>, i: nat): Option<Applied>
    requires i < |lines|
  {
    if IsSetting(lines[i]) && Extract(lines[i]).key.Some? && Extract(lines[i]).value.Some?
    then Some(Applied(OpenSection(lines[..i]), Extract(lines[i]).key.value, Extract(lines[i]).value.value))
    else None
  }

  /** The pairs that the first `n` lines say, in their order. */
  function AllSaid(lines: seq<string>, n: nat): seq<Applied>
    requires n <= |lines|
  {
    if n == 0 then []
    else AllSaid(lines, n - 1) + if Said(lines, n - 1).Some? then [Said(lines, n - 1).value] else []
  }

  lemma {:induction false} AllSaidOfPrefix(lines: seq<string>, k: nat, n: nat)
    requires n <= k <= |lines|
    ensures AllSaid(lines[..k], n) == AllSaid(lines, n)
  {
    hide Said;
    if n > 0 {
      AllSaidOfPrefix(lines, k, n - 1);
      assert Said(lines[..k], n - 1) == Said(lines, n - 1) by {
        SaidOfPrefix(lines, k, n - 1);
      }
    }
  }

  lemma SaidOfPrefix(lines: seq<string>, k: nat, i: nat)
    requires i < k <= |lines|
    ensures Said(lines[..k], i) == Said(lines, i)
  {
    assert lines[..k][..i] == lines[..i];
  }

  /** A file that is read to its end has acted on exactly the pairs that single lines say, each once and in the
      order of the lines: no value is paired with a key of another line, none is left out, and none is put in
      the wrong section. */
  lemma {:induction false} PairsAreLines(lines: seq<string>)
    requires !InterpretAll(lines).failed
    ensures InterpretAll(lines).applied == AllSaid(lines, |lines|)
    ensures InterpretAll(lines).section == OpenSection(lines)
  {
    hide Extract, SectionOf, IsSetting;
    if lines != [] {
      var n := |lines| - 1;
      PairsAreLines(lines[..n]);
      AllSaidOfPrefix(lines, n, n);
      SettingsOpenNothing(lines[n]);
      assert InterpretAll(lines) == Interpret(InterpretAll(lines[..n]), lines[n]);
    }
  }

  /** The value that a key has in the end: that of the last pair with it. */
  function FinalValue(pairs: seq<Applied>, section: string, key: string): Option<string> {
    if pairs == [] then None
    else
      var last := pairs[|pairs| - 1];
      if last.section == section && last.key == key then Some(last.value)
      else FinalValue(pairs[..|pairs| - 1], section, key)
  }

  /** Line `i` sets the key. */
  predicate Sets(lines: seq<string>, i: nat, section: string, key: string)
    requires i < |lines|
  {
    var said := Said(lines, i);
    said.Some? && said.value.section == section && said.value.key == key
  }

  /** The last of the first `n` lines that sets the key. */
  function LastLine(lines: seq<string>, n: nat, section: string, key: string): (i: Option<nat>)
    requires n <= |lines|
    ensures i.Some? ==> i.value < n && Sets(lines, i.value, section, key)
    ensures forall k :: (if i.Some? then i.value + 1 else 0) <= k < n ==> !Sets(lines, k, section, key)
  {
    if n == 0 then None
    else if Sets(lines, n - 1, section, key) then Some(n - 1)
    else LastLine(lines, n - 1, section, key)
  }

  lemma FinalValueNext(pairs: seq<Applied>, p: Applied, section: string, key: string)
    ensures FinalValue(pairs + [p], section, key)
         == if p.section == section && p.key == key then Some(p.value) else FinalValue(pairs, section, key)
  {
    assert (pairs + [p])[..|pairs|] == pairs;
  }

  lemma {:induction false} FinalValueIsLast(lines: seq<string>, n: nat, section: string, key: string)
    requires n <= |lines|
    ensures var i := LastLine(lines, n, section, key);
            FinalValue(AllSaid(lines, n), section, key)
            == if i.Some? then Some(Said(lines, i.value).value.value) else None
  {
    hide Said, FinalValue;
    if n > 0 {
      FinalValueIsLast(lines, n - 1, section, key);
      var said, before := Said(lines, n - 1), AllSaid(lines, n - 1);
      if said.Some? {
        FinalValueNext(before, said.value, section, key);
      } else {
        assert AllSaid(lines, n) == before;
      }
    } else {
      NoFinalValue(section, key);
    }
  }

  lemma NoFinalValue(section: string, key: string)
    ensures FinalValue([], section, key) == None
  {
  }

  /** A setting has, in the end, the value of the last line that sets it, and none if no line does. */
  lemma LastLineWins(lines: seq<string>, section: string, key: string)
    requires !InterpretAll(lines).failed
    ensures var i := LastLine(lines, |lines|, section, key);
            FinalValue(InterpretAll(lines).applied, section, key)
            == if i.Some? then Some(Said(lines, i.value).value.value) else None
  {
    PairsAreLines(lines);
    FinalValueIsLast(lines, |lines|, section, key);
  }

  lemma SettingsOpenNothing(line: string)
    ensures IsSetting(line) ==> line != "" && SectionOf(line).None?
  {
  }

  /** A C string has no NUL inside. */
  predicate IsCString(line: string) {
    forall i :: 0 <= i < |line| ==> line[i] != NUL
  }

  /**
   The loop of `pgprtdbg_read_configuration`. Its key and value pointers live across lines, and a line
   without a complete value leaves its key behind; still every pair acted on is the key and the value of
   one line: the loop does what reading each line on its own does.
   */
  method ReadConfiguration(lines: seq<string>) returns (r: Reading)
    requires forall i :: 0 <= i < |lines| ==> IsCString(lines[i])
    ensures r == InterpretAll(lines)
  {
    var key: Option<string>, value: Option<string> := None, None;
    r := Reading([], "", 0, false);
    var n := 0;
    assert lines[..0] == [];
    while n < |lines|
      invariant n <= |lines| && r == InterpretAll(lines[..n]) && !r.failed
      invariant value.None?
    {
      var line := lines[n];
      assert lines[..n + 1][..n] == lines[..n];
      if line != "" {
        if line[0] == '[' {
          var section := SectionOf(line);
          if section.Some? {
            r := r.(section := section.value);
            if section.value != "pgprtdbg" {
              r := r.(servers := r.servers + 1);
              if r.servers > 1 {
                r := r.(failed := true);
                FailureStays(lines, n + 1);
                return;
              }
            }
          }
        } else if line[0] == '#' || line[0] == ';' {
        } else {
          key, value := ExtractKeyValue(line, key, value);
          if key.Some? && value.Some? {
            r := r.(applied := r.applied + [Applied(r.section, key.value, value.value)]);
            key, value := None, None;
          }
        }
      }
      n := n + 1;
    }
    assert lines[..n] == lines;
  }

  // ---------------------------------------------------------------- what a setting does

  /** `buffer_size`: larger values are cut to the limit; smaller ones, negative ones too, are taken as they are. */
  function BufferSize(n: int): (size: int)
    ensures size <= 65535 && (n <= 65535 ==> size == n) && (n > 65535 ==> size == 65535)
  {
    if n > MAX_BUFFER_SIZE then MAX_BUFFER_SIZE else n
  }

  /** `memcpy` of a value, without its terminator, over a text field of 128 characters. */
  function Store(field: string, value: string): string
    requires |field| == MISC_LENGTH
  {
    var max := if |value| > MISC_LENGTH - 1 then MISC_LENGTH - 1 else |value|;
    value[..max] + field[max..]
  }

  /** The C string in a field. */
  function Text(field: string): string {
    field[..Scan(field, 0, c => c == NUL)]
  }

  /** Behind its text a field is all zero. The shared memory starts that way. */
  predicate Padded(field: string) {
    forall i :: |Text(field)| <= i < |field| ==> field[i] == NUL
  }

  /** Setting a text field makes its text the value exactly when the value fits and the text the field had is not
      longer: the value is cut at 127 characters and copied without a terminator, so a longer text keeps its
      tail. */
  lemma StoreReplaces(field: string, value: string)
    requires |field| == MISC_LENGTH && Padded(field) && |Text(field)| < MISC_LENGTH && IsCString(value)
    ensures Padded(Store(field, value)) && |Text(Store(field, value))| < MISC_LENGTH
    ensures Text(Store(field, value)) == value <==> |Text(field)| <= |value| <= 127
    ensures var max := if |value| <= 127 then |value| else 127;
            Text(Store(field, value)) == value[..max] + (if |Text(field)| > max then Text(field)[max..] else "")
  {
    var f, n := Store(field, value), if |value| < MISC_LENGTH then |value| else MISC_LENGTH - 1;
    assert forall i :: 0 <= i < n ==> f[i] == value[i];
    assert forall i :: n <= i < MISC_LENGTH ==> f[i] == field[i];
    assert f[..n] == value[..n];
    var a, b := Scan(field, 0, c => c == NUL), Scan(f, 0, c => c == NUL);
    assert b >= n;
    if a <= n {
      assert f[n] == NUL;
      assert value[..n] + "" == value[..n];
    } else {
      assert forall i :: n <= i < a ==> f[i] == field[i] != NUL;
      assert b == a;
      assert f[..b] == value[..n] + field[..a][n..];
    }
    assert n == |value| ==> value[..n] == value;
  }
}
