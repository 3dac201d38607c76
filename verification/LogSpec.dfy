/** The text of the PLC log: one line a message, printed and scanned back (app/src/plc_rte_log.c:172-282). */
module LogSpec {
  import opened Bytes
  import opened Wrappers

  // ---------------------------------------------------------------- printing and scanning numbers

  predicate IsDigit(c: char) {
    '0' <= c <= '9'
  }

  function Digit(d: nat): (c: char)
    requires d < 10
    ensures IsDigit(c) && c as int - '0' as int == d
  {
    (d + '0' as int) as char
  }

  /** printf("%u"). */
  function Decimal(n: nat): (s: string)
    ensures s != "" && IsDigit(s[0]) && forall c :: c in s ==> IsDigit(c)
  {
    if n < 10 then [Digit(n)] else Decimal(n / 10) + [Digit(n % 10)]
  }

  /** The digits scanf("%u") takes, and what follows them. */
  function ScanDigits(s: string, value: nat): (nat, string) {
    if s != "" && IsDigit(s[0]) then ScanDigits(s[1..], 10 * value + (s[0] as int - '0' as int)) else (value, s)
  }

  lemma {:induction false} ScanDecimal(n: nat, rest: string)
    ensures ScanDigits(Decimal(n) + rest, 0) == ScanDigits(rest, n)
  {
    if n < 10 {
      assert ([Digit(n)] + rest)[1..] == rest;
    } else {
      var d := [Digit(n % 10)];
      assert Decimal(n) + rest == Decimal(n / 10) + (d + rest);
      ScanDecimal(n / 10, d + rest);
      assert (d + rest)[1..] == rest;
    }
  }

  // ---------------------------------------------------------------- the fields of a line

  /** "[%u] " for each of the numbers. */
  function FieldText(xs: seq<nat>): string {
    if xs == [] then "" else "[" + Decimal(xs[0]) + "] " + FieldText(xs[1..])
  }

  function SkipSpace(s: string): string {
    if s != "" && s[0] in " \t\n\r" then SkipSpace(s[1..]) else s
  }

  /** sscanf with `n` fields "[%u]" separated by blanks; the last bracket need not be there. */
  function ScanFields(s: string, n: nat): Option<seq<nat>>
    decreases n
  {
    if n == 0 then Some([])
    else if s == "" || s[0] != '[' || s[1..] == "" || !IsDigit(s[1]) then None
    else
      var (x, rest) := ScanDigits(s[1..], 0);
      if n == 1 then Some([x])
      else if rest == "" || rest[0] != ']' then None
      else
        match ScanFields(SkipSpace(rest[1..]), n - 1)
        case None => None
        case Some(xs) => Some([x] + xs)
  }

  /** strchr. */
  function IndexOf(s: string, c: char): Option<nat> {
    if s == "" then None
    else if s[0] == c then Some(0)
    else
      match IndexOf(s[1..], c)
      case None => None
      case Some(i) => Some(i + 1)
  }

  /** What follows the `n`-th closing bracket and the blank after it. */
  function AfterFields(s: string, n: nat): Option<string>
    decreases n
  {
    if n == 0 then Some(s)
    else
      match IndexOf(s, ']')
      case None => None
      case Some(i) => AfterFields(if i + 2 <= |s| then s[i + 2..] else "", n - 1)
  }

  /** One field is scanned, and the scan goes on behind the blank that follows it. */
  lemma OneField(x: nat, more: string, n: nat)
    requires n > 0
    ensures ScanFields("[" + Decimal(x) + "] " + more, n)
            == if n == 1 then Some([x])
               else match ScanFields(SkipSpace(more), n - 1) case None => None case Some(xs) => Some([x] + xs)
  {
    var s := "[" + Decimal(x) + "] " + more;
    assert s[1..] == Decimal(x) + ("] " + more);
    ScanDecimal(x, "] " + more);
    hide Decimal, ScanFields;
    assert ScanDigits("] " + more, x) == (x, "] " + more);
    assert ("] " + more)[1..] == " " + more;
    assert (" " + more)[1..] == more;
    FieldUnfolds(s, n, x, "] " + more);
  }

  lemma FieldUnfolds(s: string, n: nat, x: nat, rest: string)
    requires n > 0 && |s| > 1 && s[0] == '[' && IsDigit(s[1]) && ScanDigits(s[1..], 0) == (x, rest)
    requires rest != "" && rest[0] == ']'
    ensures ScanFields(s, n)
            == if n == 1 then Some([x])
               else match ScanFields(SkipSpace(rest[1..]), n - 1) case None => None case Some(xs) => Some([x] + xs)
  {
  }

  lemma FieldsStart(xs: seq<nat>, text: string)
    requires xs != []
    ensures SkipSpace(FieldText(xs) + text) == FieldText(xs) + text
    ensures FieldText(xs) + text == "[" + Decimal(xs[0]) + "] " + (FieldText(xs[1..]) + text)
  {
  }

  lemma {:induction false} FieldsScanBack(xs: seq<nat>, text: string)
    requires xs != []
    ensures ScanFields(FieldText(xs) + text, |xs|) == Some(xs)
  {
    hide ScanFields, SkipSpace, FieldText, Decimal;
    FieldsStart(xs, text);
    OneField(xs[0], FieldText(xs[1..]) + text, |xs|);
    if |xs| > 1 {
      FieldsScanBack(xs[1..], text);
      FieldsStart(xs[1..], text);
      assert [xs[0]] + xs[1..] == xs;
    } else {
      assert [xs[0]] == xs;
    }
  }

  lemma {:induction false} FirstIndex(s: string, c: char, rest: string)
    requires c !in s
    ensures IndexOf(s + [c] + rest, c) == Some(|s|)
  {
    if s == "" {
      assert s + [c] + rest == [c] + rest;
    } else {
      assert (s + [c] + rest)[1..] == s[1..] + [c] + rest;
      FirstIndex(s[1..], c, rest);
    }
  }

  lemma SkipField(head: string, more: string, n: nat)
    requires ']' !in head && n > 0
    ensures AfterFields(head + "] " + more, n) == AfterFields(more, n - 1)
  {
    assert head + "] " + more == head + [']'] + (" " + more);
    FirstIndex(head, ']', " " + more);
    assert (head + "] " + more)[|head| + 2..] == more;
  }

  lemma {:induction false} TextFollowsFields(xs: seq<nat>, text: string)
    ensures AfterFields(FieldText(xs) + text, |xs|) == Some(text)
  {
    if xs == [] {
      assert FieldText(xs) + text == text;
    } else {
      FieldsStart(xs, text);
      hide FieldText, AfterFields;
      SkipField("[" + Decimal(xs[0]), FieldText(xs[1..]) + text, |xs|);
      TextFollowsFields(xs[1..], text);
    }
  }

  lemma {:induction false} FieldsHaveNoNewline(xs: seq<nat>)
    ensures '\n' !in FieldText(xs)
  {
    if xs != [] {
      FieldsHaveNoNewline(xs[1..]);
    }
  }

  // ---------------------------------------------------------------- lines and the file

  const LINE_SIZE: nat := 512
  const LINE_LIMIT: nat := 255

  /** What a message records. */
  datatype Message = Message(level: nat, text: string, tick: nat, sec: nat, nsec: nat)

  function Line(id: nat, m: Message): string {
    FieldText([id, m.tick, m.sec, m.nsec, m.level]) + m.text
  }

  /** A number in brackets, a blank, and what follows. */
  function Bracketed(x: nat, more: string): string {
    "[" + Decimal(x) + "] " + more
  }

  /** "[id] [tick] [sec] [nsec] [level] text". */
  lemma LineText(id: nat, m: Message)
    ensures Line(id, m)
            == Bracketed(id, Bracketed(m.tick, Bracketed(m.sec, Bracketed(m.nsec, Bracketed(m.level, m.text)))))
  {
    hide Decimal, FieldText;
    FieldsStart([id, m.tick, m.sec, m.nsec, m.level], m.text);
    FieldsStart([m.tick, m.sec, m.nsec, m.level], m.text);
    FieldsStart([m.sec, m.nsec, m.level], m.text);
    FieldsStart([m.nsec, m.level], m.text);
    FieldsStart([m.level], m.text);
    assert [id, m.tick, m.sec, m.nsec, m.level][1..] == [m.tick, m.sec, m.nsec, m.level];
    assert [m.tick, m.sec, m.nsec, m.level][1..] == [m.sec, m.nsec, m.level];
    assert [m.sec, m.nsec, m.level][1..] == [m.nsec, m.level] && [m.nsec, m.level][1..] == [m.level];
    assert [m.level][1..] == [];
    NoFields(m.text);
  }

  lemma NoFields(text: string)
    ensures FieldText([]) + text == text
  {
  }

  /** The shortest decimal numeral of a number: its digits give it back, and only zero starts with a zero. */
  lemma {:induction false} DecimalIsShortest(n: nat)
    ensures n > 0 ==> Decimal(n)[0] != '0'
    ensures n < 10 ==> |Decimal(n)| == 1
    ensures n >= 10 ==> |Decimal(n)| == |Decimal(n / 10)| + 1
  {
    if n >= 10 {
      DecimalIsShortest(n / 10);
    }
  }

  predicate Small(id: nat, m: Message) {
    id < 0x1_0000_0000 && m.level < 0x1_0000_0000
    && m.tick < 0x1_0000_0000 && m.sec < 0x1_0000_0000 && m.nsec < 0x1_0000_0000
  }

  /** fgets with room for `n` characters. */
  function Fgets(s: string, n: nat): (r: (string, string))
    ensures n > 0 && s != "" ==> |r.1| < |s|
  {
    if s == "" || n == 0 then ("", s)
    else if s[0] == '\n' then ("\n", s[1..])
    else
      var rest := Fgets(s[1..], n - 1);
      ([s[0]] + rest.0, rest.1)
  }

  /** GetLogMessage's search: the first line whose ID and level are asked for. */
  function Find(file: string, level: nat, id: nat): Option<Message>
    decreases |file|
  {
    if file == "" then None
    else
      var (line, rest) := Fgets(file, LINE_SIZE - 1);
      match Match(line, level, id)
      case Some(m) => Some(m)
      case None => Find(rest, level, id)
  }

  /** A scanned number as it is stored in 32 bits: too large a one is clamped. */
  function Stored(x: nat): word {
    if x < 0x1_0000_0000 then x else 0xFFFF_FFFF
  }

  /** A line's message, if the line is the one asked for. */
  function Match(line: string, level: nat, id: nat): Option<Message> {
    var fields := ScanFields(line, 5);
    if fields.Some? && |fields.value| == 5 && Stored(fields.value[0]) == id && Stored(fields.value[4]) == level then
      match AfterFields(line, 5)
      case None => None
      case Some(text) =>
        Some(Message(level, text, Stored(fields.value[1]), Stored(fields.value[2]), Stored(fields.value[3])))
    else None
  }

  lemma {:induction false} LineIsRead(line: string, rest: string, n: nat)
    requires '\n' !in line && |line| < n
    ensures Fgets(line + "\n" + rest, n) == (line + "\n", rest)
  {
    if line == "" {
      assert line + "\n" + rest == "\n" + rest;
    } else {
      assert (line + "\n" + rest)[1..] == line[1..] + "\n" + rest;
      LineIsRead(line[1..], rest, n - 1);
      assert [line[0]] + (line[1..] + "\n") == line + "\n";
    }
  }

  /** The reader's buffer takes a line of up to 510 characters with its newline. */
  lemma LongestLine(line: string, rest: string)
    requires '\n' !in line && |line| <= 510
    ensures Fgets(line + "\n" + rest, LINE_SIZE - 1) == (line + "\n", rest)
  {
    LineIsRead(line, rest, LINE_SIZE - 1);
  }

  /** A written line gives back its message, with the newline, exactly when asked for its ID and level. */
  lemma LineMatches(id: nat, m: Message, level: nat, wanted: nat)
    requires Small(id, m)
    ensures Match(Line(id, m) + "\n", level, wanted)
            == if id == wanted && m.level == level then Some(m.(text := m.text + "\n")) else None
  {
    var fields := [id, m.tick, m.sec, m.nsec, m.level];
    assert Line(id, m) + "\n" == FieldText(fields) + (m.text + "\n");
    FieldsScanBack(fields, m.text + "\n");
    TextFollowsFields(fields, m.text + "\n");
  }

  /** Seconds that do not fit 32 bits come back as the largest number that does. */
  lemma LateMessage(id: nat, m: Message)
    requires id < 0x1_0000_0000 && m.level < 0x1_0000_0000 && m.tick < 0x1_0000_0000 && m.nsec < 0x1_0000_0000
    requires m.sec >= 0x1_0000_0000
    ensures Match(Line(id, m) + "\n", m.level, id) == Some(m.(text := m.text + "\n", sec := 0xFFFF_FFFF))
  {
    var fields := [id, m.tick, m.sec, m.nsec, m.level];
    assert Line(id, m) + "\n" == FieldText(fields) + (m.text + "\n");
    FieldsScanBack(fields, m.text + "\n");
    TextFollowsFields(fields, m.text + "\n");
  }

  // ---------------------------------------------------------------- the log of a list of messages

  /** The messages of one level, in order. */
  function OfLevel(ms: seq<Message>, level: nat): seq<Message> {
    if ms == [] then [] else
      OfLevel(ms[..|ms| - 1], level) + if ms[|ms| - 1].level == level then [ms[|ms| - 1]] else []
  }

  lemma OfLevelAppend(ms: seq<Message>, m: Message, level: nat)
    ensures OfLevel(ms + [m], level) == OfLevel(ms, level) + if m.level == level then [m] else []
  {
    assert (ms + [m])[..|ms|] == ms;
  }

  /** The file after these messages: each carries the number of earlier messages of its level. */
  function FileOf(ms: seq<Message>): string {
    if ms == [] then ""
    else
      var before := ms[..|ms| - 1];
      FileOf(before) + Line(|OfLevel(before, ms[|ms| - 1].level)|, ms[|ms| - 1]) + "\n"
  }

  /** A message that fits its line and whose numbers fit 32 bits. */
  predicate Fits(id: nat, m: Message) {
    '\n' !in m.text && |Line(id, m)| <= LINE_LIMIT && Small(id, m)
  }

  /** Every message of the list fits its line. */
  predicate AllFit(ms: seq<Message>) {
    ms == [] || (AllFit(ms[..|ms| - 1]) && Fits(|OfLevel(ms[..|ms| - 1], ms[|ms| - 1].level)|, ms[|ms| - 1]))
  }

  /** A line behind a complete file is looked at only if nothing in the file answers. */
  lemma {:induction false} FindInBoth(ms: seq<Message>, tail: string, level: nat, id: nat)
    requires AllFit(ms)
    ensures Find(FileOf(ms) + tail, level, id)
            == if Find(FileOf(ms), level, id).Some? then Find(FileOf(ms), level, id) else Find(tail, level, id)
    decreases |ms|
  {
    if ms == [] {
      assert FileOf(ms) + tail == tail;
    } else {
      var n := |ms| - 1;
      var before, m := ms[..n], ms[n];
      var k := |OfLevel(before, m.level)|;
      var last := Line(k, m) + "\n";
      assert FileOf(ms) + tail == FileOf(before) + (last + tail);
      assert FileOf(ms) == FileOf(before) + last;
      FindInBoth(before, last + tail, level, id);
      FindInBoth(before, last, level, id);
      FindInLine(k, m, tail, level, id);
      FindInLine(k, m, "", level, id);
      assert last + "" == last;
    }
  }

  lemma FindInLine(k: nat, m: Message, tail: string, level: nat, id: nat)
    requires Fits(k, m)
    ensures Find(Line(k, m) + "\n" + tail, level, id)
            == if k == id && m.level == level then Some(m.(text := m.text + "\n")) else Find(tail, level, id)
  {
    FieldsHaveNoNewline([k, m.tick, m.sec, m.nsec, m.level]);
    LineIsRead(Line(k, m), tail, LINE_SIZE - 1);
    LineMatches(k, m, level, id);
  }

  /** The search finds the `id`-th message of the level, and nothing if there are not that many. */
  lemma {:induction false} FindInFile(ms: seq<Message>, level: nat, id: nat)
    requires AllFit(ms)
    ensures Find(FileOf(ms), level, id)
            == if id < |OfLevel(ms, level)| then
                 Some(OfLevel(ms, level)[id].(text := OfLevel(ms, level)[id].text + "\n"))
               else None
    decreases |ms|
  {
    if ms != [] {
      var n := |ms| - 1;
      var before, m := ms[..n], ms[n];
      var k := |OfLevel(before, m.level)|;
      FindInFile(before, level, id);
      assert FileOf(ms) == FileOf(before) + (Line(k, m) + "\n");
      FindInBoth(before, Line(k, m) + "\n", level, id);
      FindInLine(k, m, "", level, id);
      assert Line(k, m) + "\n" + "" == Line(k, m) + "\n";
    }
  }
}
