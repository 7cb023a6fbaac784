/**
 * The two flat data files (users and tasks) as text: how `readlines()`
 * cuts a file into lines, and the append rule both registration and
 * task creation follow: if the existing content does not end with a
 * newline, a newline is written first, then the new record.
 */
module FileText {

  predicate EndsWithNewline(s: string) {
    |s| > 0 && s[|s| - 1] == '\n'
  }

  /** A single record line: ends with a newline and holds no other. */
  predicate IsLine(s: string) {
    EndsWithNewline(s) && forall i :: 0 <= i < |s| - 1 ==> s[i] != '\n'
  }

  /**
   * `file.readlines()`: every line keeps its terminating newline; text
   * after the last newline, if any, is one more line without one.
   */
  function SplitLines(s: string): (lines: seq<string>)
    ensures |lines| == 0 <==> s == ""
    decreases |s|
  {
    if s == "" then []
    else if s[0] == '\n' then ["\n"] + SplitLines(s[1..])
    else
      var rest := SplitLines(s[1..]);
      if rest == [] then [s] else [[s[0]] + rest[0]] + rest[1..]
  }

  /** `"".join(lines)`, i.e. what `writelines` puts in the file. */
  function Concat(lines: seq<string>): string {
    if lines == [] then "" else lines[0] + Concat(lines[1..])
  }

  /** The text written by the append rule. */
  function AppendContent(content: string, record: string): string {
    (if EndsWithNewline(content) then content else content + "\n") + record
  }

  function EnsureNewline(line: string): string {
    if EndsWithNewline(line) then line else line + "\n"
  }

  /**
   * The lines of a file once a newline has been ensured at its end: an
   * empty file becomes one blank line, otherwise only the last line can
   * change, by gaining its newline.
   */
  function Terminated(lines: seq<string>): seq<string> {
    if lines == [] then ["\n"]
    else lines[..|lines| - 1] + [EnsureNewline(lines[|lines| - 1])]
  }

  /** Reading back what was written gives the same text. */
  lemma {:induction false} ConcatSplitLines(s: string)
    ensures Concat(SplitLines(s)) == s
    decreases |s|
  {
    if s == "" {
    } else if s[0] == '\n' {
      ConcatSplitLines(s[1..]);
      assert (["\n"] + SplitLines(s[1..]))[1..] == SplitLines(s[1..]);
    } else {
      var rest := SplitLines(s[1..]);
      ConcatSplitLines(s[1..]);
      if rest != [] {
        var lines := [[s[0]] + rest[0]] + rest[1..];
        assert lines[1..] == rest[1..];
        assert Concat(rest) == rest[0] + Concat(rest[1..]);
      }
      assert [s[0]] + s[1..] == s;
    }
  }

  lemma {:induction false} SplitLinesOfLine(e: string)
    requires IsLine(e)
    ensures SplitLines(e) == [e]
    decreases |e|
  {
    if |e| > 1 {
      assert e[0] != '\n';
      SplitLinesOfLine(e[1..]);
      assert [e[0]] + e[1..] == e;
    } else {
      assert e == "\n";
      assert SplitLines(e) == ["\n"] + SplitLines("");
    }
  }

  /** After a newline-terminated prefix, a record line is read as one more line. */
  lemma {:induction false} SplitLinesAppendLine(c: string, e: string)
    requires c == "" || EndsWithNewline(c)
    requires IsLine(e)
    ensures SplitLines(c + e) == SplitLines(c) + [e]
    decreases |c|
  {
    if c == "" {
      SplitLinesOfLine(e);
      assert c + e == e;
    } else if c[0] == '\n' {
      assert (c + e)[1..] == c[1..] + e;
      SplitLinesAppendLine(c[1..], e);
    } else {
      assert (c + e)[1..] == c[1..] + e;
      SplitLinesAppendLine(c[1..], e);
      var rest := SplitLines(c[1..]);
      assert rest != [];
      assert ([[c[0]] + rest[0]] + rest[1..]) + [e] == [[c[0]] + (rest + [e])[0]] + (rest + [e])[1..];
    }
  }

  /** Writing a newline after text that lacks one terminates its last line. */
  lemma {:induction false} SplitLinesAddNewline(c: string)
    requires !EndsWithNewline(c)
    ensures SplitLines(c + "\n") == Terminated(SplitLines(c))
    decreases |c|
  {
    var t := c + "\n";
    if c == "" {
      assert SplitLines("\n") == ["\n"] + SplitLines("");
    } else if |c| == 1 {
      assert t[1..] == "\n";
      assert SplitLines("\n") == ["\n"] + SplitLines("");
      assert [c[0]] + "\n" == t;
    } else {
      assert t[1..] == c[1..] + "\n";
      SplitLinesAddNewline(c[1..]);
      var rest := SplitLines(c[1..]);
      if c[0] == '\n' {
        TerminatedAfterBlank(rest);
      } else {
        TerminatedExtendFirst(c[0], rest);
      }
    }
  }

  lemma TerminatedAfterBlank(rest: seq<string>)
    requires rest != []
    ensures Terminated(["\n"] + rest) == ["\n"] + Terminated(rest)
  {
    assert (["\n"] + rest)[..|rest|] == ["\n"] + rest[..|rest| - 1];
  }

  lemma TerminatedExtendFirst(ch: char, rest: seq<string>)
    requires rest != [] && ch != '\n'
    ensures Terminated([[ch] + rest[0]] + rest[1..])
         == [[ch] + Terminated(rest)[0]] + Terminated(rest)[1..]
  {
    var lines := [[ch] + rest[0]] + rest[1..];
    var n := |rest|;
    if n == 1 {
      assert Terminated(lines) == [EnsureNewline(lines[0])];
      assert Terminated(rest) == [EnsureNewline(rest[0])];
      assert [ch] + (rest[0] + "\n") == lines[0] + "\n";
    } else {
      assert lines[..n - 1] == [[ch] + rest[0]] + rest[1..n - 1];
    }
  }

  /**
   * The append rule, as `readlines()` sees the file afterwards: the old
   * lines come back (the last one newline-terminated), then the record on
   * a line of its own; an empty file gains a blank first line.
   */
  lemma AppendAddsOneLine(c: string, e: string)
    requires IsLine(e)
    ensures SplitLines(AppendContent(c, e)) == Terminated(SplitLines(c)) + [e]
  {
    if EndsWithNewline(c) {
      SplitLinesAppendLine(c, e);
      LastLineEndsWithNewline(c);
      var lines := SplitLines(c);
      assert lines[..|lines| - 1] + [lines[|lines| - 1]] == lines;
    } else {
      SplitLinesAddNewline(c);
      SplitLinesAppendLine(c + "\n", e);
    }
  }

  lemma {:induction false} LastLineEndsWithNewline(c: string)
    requires c != ""
    ensures EndsWithNewline(SplitLines(c)[|SplitLines(c)| - 1]) == EndsWithNewline(c)
    decreases |c|
  {
    if |c| > 1 {
      LastLineEndsWithNewline(c[1..]);
      LastLineStep(c);
    }
  }

  /** Reading one more character in front keeps the last line's ending. */
  lemma {:induction false} LastLineStep(c: string)
    requires |c| > 1
    ensures var lines, rest := SplitLines(c), SplitLines(c[1..]);
      EndsWithNewline(lines[|lines| - 1]) == EndsWithNewline(rest[|rest| - 1])
  {
    var tail := c[1..];
    var rest := SplitLines(tail);
    if c[0] == '\n' {
      assert SplitLines(c) == ["\n"] + rest;
    } else if |rest| == 1 {
      ConcatSplitLines(tail);
      assert Concat(rest) == rest[0] + Concat([]);
      assert SplitLines(c) == [[c[0]] + rest[0]];
    } else {
      assert SplitLines(c) == [[c[0]] + rest[0]] + rest[1..];
    }
  }
}
