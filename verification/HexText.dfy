/**
 * Intel HEX as text: lines of digits, and what the reader makes of them.  A text
 * whose lines write records is read as these records, but only if one of them ends
 * the file: behind the last newline there is an empty line, which has no first
 * character.
 */
module HexText {
  import opened Eeprom
  import opened Wrappers
  import opened Uf2Files

  // ---------------------------------------------------------------- lines

  /** The pieces between newlines; one more than there are newlines. */
  function Split(text: string): (lines: seq<string>)
    ensures lines != []
  {
    if text == "" then [""]
    else
      var before, c := Split(text[..|text| - 1]), text[|text| - 1];
      if c == '\n' then before + [""] else before[..|before| - 1] + [before[|before| - 1] + [c]]
  }

  /** Lines that each end with a newline. */
  function Joined(lines: seq<string>): string {
    if lines == [] then "" else Joined(lines[..|lines| - 1]) + lines[|lines| - 1] + "\n"
  }

  lemma {:induction false} SplitLine(text: string, line: string)
    requires '\n' !in line
    ensures var before := Split(text);
      Split(text + line) == before[..|before| - 1] + [before[|before| - 1] + line]
  {
    var before, n := Split(text), |line| - 1;
    var last := before[|before| - 1];
    if line == "" {
      assert text + line == text && last + line == last;
    } else {
      assert (text + line)[..|text| + n] == text + line[..n];
      SplitLine(text, line[..n]);
      assert (last + line[..n]) + [line[n]] == last + line;
      assert line[n] in line;
    }
  }

  /** Splitting gives the lines back, and an empty one behind the last newline. */
  lemma {:induction false} SplitJoined(lines: seq<string>)
    requires forall i :: 0 <= i < |lines| ==> '\n' !in lines[i]
    ensures Split(Joined(lines)) == lines + [""]
  {
    if lines != [] {
      var n := |lines| - 1;
      SplitJoined(lines[..n]);
      SplitLine(Joined(lines[..n]), lines[n]);
      var front := Joined(lines[..n]) + lines[n];
      assert (front + "\n")[..|front|] == front;
      assert "" + lines[n] == lines[n];
      assert Split(front) == lines[..n] + [lines[n]] == lines;
    }
  }

  // ---------------------------------------------------------------- digits

  function Digit(c: char): (d: Option<nat>)
    ensures d.Some? ==> d.value < 16
  {
    if '0' <= c <= '9' then Some((c - '0') as nat)
    else if 'a' <= c <= 'f' then Some((c - 'a') as nat + 10)
    else if 'A' <= c <= 'F' then Some((c - 'A') as nat + 10)
    else None
  }

  /** The sixteen digits, in either case, and nothing else. */
  lemma {:induction false} DigitsAre(c: char)
    ensures forall i :: 0 <= i < 16 && (c == "0123456789abcdef"[i] || c == "0123456789ABCDEF"[i]) ==>
      Digit(c) == Some(i)
    ensures Digit(c).Some? ==> c in "0123456789abcdefABCDEF"
  {
  }

  /** The byte that two characters write. */
  function Pair(hi: char, lo: char): Option<byte> {
    if Digit(hi).None? || Digit(lo).None? then None else Some(Digit(hi).value * 16 + Digit(lo).value)
  }

  /** The first `n` bytes behind the colon. */
  function LineBytes(line: string, n: nat): Result<seq<byte>>
    requires n == 0 || 2 * n < |line|
  {
    if n == 0 then Ok([])
    else
      match LineBytes(line, n - 1)
      case Err => Err
      case Ok(bytes) =>
        var b := Pair(line[2 * n - 1], line[2 * n]);
        if b.None? then Err else Ok(bytes + [b.value])
  }

  /** Pairs of digits up to the end of a line; a single character there is left alone. */
  function Pairs(line: string): (n: nat)
    requires line != ""
    ensures n == 0 || 2 * n < |line|
  {
    (|line| - 1) / 2
  }

  // ---------------------------------------------------------------- reading

  /** One line: an error when it is empty, skipped when it does not start with a colon. */
  function ReadLine(s: HexState, line: string): Result<HexState> {
    if line == "" then Err
    else if line[0] != ':' then Ok(s)
    else
      match LineBytes(line, Pairs(line))
      case Err => Err
      case Ok(rec) => ReadRecord(s, rec)
  }

  /** The first `n` lines; those behind the end record are not looked at. */
  function ReadLines(lines: seq<string>, n: nat): Result<HexState>
    requires n <= |lines|
  {
    if n == 0 then Ok(HexState(0, [], false))
    else
      match ReadLines(lines, n - 1)
      case Err => Err
      case Ok(s) => if s.ended then Ok(s) else ReadLine(s, lines[n - 1])
  }

  function ReadText(text: string): Result<HexState> {
    ReadLines(Split(text), |Split(text)|)
  }

  /** A line that writes a record, with one more character such as a carriage return or without. */
  predicate Writes(line: string, rec: seq<byte>) {
    && '\n' !in line && 1 + 2 * |rec| <= |line| <= 2 + 2 * |rec| && line[0] == ':'
    && forall i :: 0 <= i < |rec| ==> Pair(line[2 * i + 1], line[2 * i + 2]) == Some(rec[i])
  }

  lemma {:induction false} BytesWritten(line: string, rec: seq<byte>, n: nat)
    requires Writes(line, rec) && n <= |rec|
    ensures LineBytes(line, n) == Ok(rec[..n])
  {
    if n > 0 {
      BytesWritten(line, rec, n - 1);
      var i := n - 1;
      assert Pair(line[2 * i + 1], line[2 * i + 2]) == Some(rec[i]);
      assert rec[..n - 1] + [rec[n - 1]] == rec[..n];
    }
  }

  lemma {:induction false} LinesWritten(lines: seq<string>, more: seq<string>, recs: seq<seq<byte>>, n: nat)
    requires n <= |lines| == |recs| && forall i :: 0 <= i < |lines| ==> Writes(lines[i], recs[i])
    ensures ReadLines(lines + more, n) == ReadRecords(recs, n)
  {
    if n > 0 {
      LinesWritten(lines, more, recs, n - 1);
      var line, rec := lines[n - 1], recs[n - 1];
      assert Writes(line, rec) && Pairs(line) == |rec| && rec[..|rec|] == rec;
      BytesWritten(line, rec, |rec|);
    }
  }

  /**
   * A text of lines that write records, each ended by a newline, is read as these
   * records exactly when one of them is the end record; without it the empty line
   * behind the last newline is an error.
   */
  lemma {:induction false} TextRoundTrip(lines: seq<string>, recs: seq<seq<byte>>)
    requires |lines| == |recs| && forall i :: 0 <= i < |lines| ==> Writes(lines[i], recs[i])
    ensures var s, t := ReadRecords(recs, |recs|), ReadText(Joined(lines));
      && (t.Ok? <==> s.Ok? && s.value.ended)
      && (t.Ok? ==> t == s)
  {
    SplitJoined(lines);
    LinesWritten(lines, [""], recs, |lines|);
    assert (lines + [""])[|lines|] == "";
  }

  lemma {:induction false} OneRecord(recs: seq<seq<byte>>)
    requires |recs| == 1
    ensures ReadRecords(recs, 1) == ReadRecord(HexState(0, [], false), recs[0])
  {
    assert ReadRecords(recs, 0) == Ok(HexState(0, [], false));
  }

  lemma {:induction false} NoNewline(line: string)
    requires '\n' !in line
    ensures Split(line) == [line] && Joined([line]) == line + "\n"
  {
    SplitLine("", line);
    assert Split("") == [""] && "" + line == line;
    assert [line][..0] == [] && Joined([]) == "";
  }

  lemma {:induction false} OneLine(line: string, rec: seq<byte>)
    requires Writes(line, rec)
    ensures var r := ReadRecord(HexState(0, [], false), rec);
      && ReadText(line) == r
      && (ReadText(line + "\n").Ok? <==> r.Ok? && r.value.ended)
  {
    var lines, recs := [line], [rec];
    OneRecord(recs);
    NoNewline(line);
    LinesWritten(lines, [], recs, 1);
    assert lines + [] == lines;
    TextRoundTrip(lines, recs);
  }

  /** One byte, 0x41 at address 0, without an end record: an error only because of its newline. */
  lemma {:induction false} NewlineIsFatal(line: string)
    requires line == ":0100000041BE"
    ensures ReadText(line).Ok? && ReadText(line + "\n").Err?
  {
    OneLine(line, [1, 0, 0, 0, 0x41, 0xBE]);
  }
}
