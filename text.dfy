/**
 * The handful of Python string operations the task manager relies on,
 * restricted to ASCII: `str.lower`, `str.strip`, `str.isalpha`,
 * `str.isdigit`, `int` on a digit string, and `split(", ")` /
 * `", ".join(...)`, the record delimiter of both data files.
 */
module Text {

  /** Whitespace in the sense of Python's `str.isspace`, ASCII part. */
  predicate IsSpace(c: char) {
    c == ' ' || c == '\t' || c == '\n' || c == '\r' || c == '\U{0B}' || c == '\U{0C}'
    || ('\U{1C}' <= c <= '\U{1F}')
  }

  predicate IsUpper(c: char) { 'A' <= c <= 'Z' }

  predicate IsLetter(c: char) { 'A' <= c <= 'Z' || 'a' <= c <= 'z' }

  predicate IsDigit(c: char) { '0' <= c <= '9' }

  function LowerChar(c: char): char {
    if IsUpper(c) then (c as int + 32) as char else c
  }

  /** `s.lower()` */
  function Lower(s: string): string {
    seq(|s|, i requires 0 <= i < |s| => LowerChar(s[i]))
  }

  /** `s.isalpha()`: non-empty and letters only. */
  predicate IsAlpha(s: string) {
    |s| > 0 && forall i :: 0 <= i < |s| ==> IsLetter(s[i])
  }

  /** `s.isdigit()`: non-empty and decimal digits only. */
  predicate IsDigits(s: string) {
    |s| > 0 && forall i :: 0 <= i < |s| ==> IsDigit(s[i])
  }

  /** `int(s)` for a string of decimal digits (leading zeros allowed). */
  function DigitsValue(s: string): nat
    requires forall i :: 0 <= i < |s| ==> IsDigit(s[i])
  {
    if |s| == 0 then 0
    else
      assert IsDigit(s[|s| - 1]);
      10 * DigitsValue(s[..|s| - 1]) + (s[|s| - 1] as int - '0' as int)
  }

  /** No whitespace at either end. */
  predicate Trimmed(s: string) {
    |s| == 0 || (!IsSpace(s[0]) && !IsSpace(s[|s| - 1]))
  }

  /** Drops leading whitespace (`StripStartIsSuffix`: what is left is a suffix of `s`). */
  function StripStart(s: string): (r: string)
    ensures |r| <= |s|
    ensures |r| > 0 ==> !IsSpace(r[0])
    decreases |s|
  {
    if |s| > 0 && IsSpace(s[0]) then StripStart(s[1..]) else s
  }

  /** Drops trailing whitespace (`StripEndIsPrefix`: what is left is a prefix of `s`). */
  function StripEnd(s: string): (r: string)
    ensures |r| <= |s|
    ensures |r| > 0 ==> !IsSpace(r[|r| - 1])
    ensures |s| > 0 && !IsSpace(s[0]) ==> |r| > 0
    decreases |s|
  {
    if |s| > 0 && IsSpace(s[|s| - 1]) then StripEnd(s[..|s| - 1]) else s
  }

  /** `s.strip()` */
  function Strip(s: string): string {
    StripEnd(StripStart(s))
  }

  lemma {:induction false} StripStartIsSuffix(s: string)
    ensures StripStart(s) == s[|s| - |StripStart(s)|..]
    decreases |s|
  {
    if |s| > 0 && IsSpace(s[0]) {
      StripStartIsSuffix(s[1..]);
    }
  }

  lemma {:induction false} StripEndIsPrefix(s: string)
    ensures StripEnd(s) <= s
    decreases |s|
  {
    if |s| > 0 && IsSpace(s[|s| - 1]) {
      StripEndIsPrefix(s[..|s| - 1]);
    }
  }

  lemma StripIsTrimmed(s: string)
    ensures Trimmed(Strip(s))
  {
    var t := StripStart(s);
    var r := StripEnd(t);
    StripEndIsPrefix(t);
    if |r| > 0 {
      assert r[0] == t[0];
    }
  }

  lemma StripOfTrimmed(s: string)
    requires Trimmed(s)
    ensures Strip(s) == s
  {
  }

  /** A newline at the end of a line never survives `strip()`. */
  lemma StripIgnoresNewline(s: string)
    ensures Strip(s + "\n") == Strip(s)
  {
    StripStartNewline(s);
    var t := StripStart(s);
    if t != "" {
      assert (t + "\n")[..|t + "\n"| - 1] == t;
    }
  }

  lemma {:induction false} StripStartNewline(s: string)
    ensures StripStart(s + "\n") == if StripStart(s) == "" then "" else StripStart(s) + "\n"
    decreases |s|
  {
    if s == "" {
    } else if IsSpace(s[0]) {
      assert (s + "\n")[1..] == s[1..] + "\n";
      StripStartNewline(s[1..]);
    } else {
    }
  }

  // ---------------------------------------------------------------------
  // The ", " delimiter
  // ---------------------------------------------------------------------

  /** `", " in s` */
  predicate HasSep(s: string) {
    exists i :: 0 <= i < |s| - 1 && s[i] == ',' && s[i + 1] == ' '
  }

  /**
   * `s.split(", ")`: the pieces between successive, non-overlapping
   * occurrences of ", ", scanned from the left. Python never returns an
   * empty list here (`SplitFirstPiece`: the first piece is a prefix of `s`).
   */
  function Split(s: string): (parts: seq<string>)
    ensures |parts| >= 1
    decreases |s|
  {
    if |s| < 2 then [s]
    else if s[0] == ',' && s[1] == ' ' then [""] + Split(s[2..])
    else
      var rest := Split(s[1..]);
      [[s[0]] + rest[0]] + rest[1..]
  }

  lemma {:induction false} SplitFirstPiece(s: string)
    ensures Split(s)[0] <= s
    decreases |s|
  {
    if |s| >= 2 && !(s[0] == ',' && s[1] == ' ') {
      SplitFirstPiece(s[1..]);
    }
  }

  /** `", ".join(parts)` */
  function Join(parts: seq<string>): string {
    if |parts| == 0 then ""
    else if |parts| == 1 then parts[0]
    else parts[0] + ", " + Join(parts[1..])
  }

  /** Joining the pieces of a split gives back the original text. */
  lemma {:induction false} JoinSplit(s: string)
    ensures Join(Split(s)) == s
    decreases |s|
  {
    if |s| < 2 {
    } else if s[0] == ',' && s[1] == ' ' {
      JoinSplit(s[2..]);
      assert ", " + s[2..] == s;
    } else {
      JoinSplit(s[1..]);
      JoinExtendsFirst(s[0], Split(s[1..]));
      assert [s[0]] + s[1..] == s;
    }
  }

  lemma {:induction false} JoinExtendsFirst(c: char, parts: seq<string>)
    requires |parts| >= 1
    ensures Join([[c] + parts[0]] + parts[1..]) == [c] + Join(parts)
  {
    var ext := [[c] + parts[0]] + parts[1..];
    if |parts| == 1 {
      assert ext == [[c] + parts[0]];
    } else {
      var tail := Join(parts[1..]);
      assert ext[1..] == parts[1..];
      assert Join(ext) == ([c] + parts[0]) + ", " + tail;
      assert Join(parts) == parts[0] + ", " + tail;
      assert ([c] + parts[0]) + ", " + tail == [c] + (parts[0] + ", " + tail);
    }
  }

  /** Dropping the first character of a delimiter-free text keeps it so. */
  lemma NoSepInTail(p: string)
    requires |p| > 0 && !HasSep(p)
    ensures !HasSep(p[1..])
  {
    forall i | 0 <= i < |p[1..]| - 1
      ensures !(p[1..][i] == ',' && p[1..][i + 1] == ' ')
    {
      assert p[1..][i] == p[i + 1] && p[1..][i + 1] == p[i + 2];
    }
  }

  /** No piece of a split contains the delimiter. */
  lemma {:induction false} SplitPiecesHaveNoSep(s: string)
    ensures forall k :: 0 <= k < |Split(s)| ==> !HasSep(Split(s)[k])
    decreases |s|
  {
    if |s| < 2 {
    } else if s[0] == ',' && s[1] == ' ' {
      SplitPiecesHaveNoSep(s[2..]);
      assert Split(s)[1..] == Split(s[2..]);
    } else {
      var rest := Split(s[1..]);
      SplitPiecesHaveNoSep(s[1..]);
      var first := [s[0]] + rest[0];
      assert Split(s)[1..] == rest[1..];
      forall i | 0 <= i < |first| - 1
        ensures !(first[i] == ',' && first[i + 1] == ' ')
      {
        if i == 0 {
          assert first[1] == rest[0][0] == s[1];
        } else {
          assert first[i] == rest[0][i - 1] && first[i + 1] == rest[0][i];
        }
      }
    }
  }

  lemma {:induction false} SplitWithoutSep(p: string)
    requires !HasSep(p)
    ensures Split(p) == [p]
    decreases |p|
  {
    if |p| >= 2 {
      assert !(p[0] == ',' && p[1] == ' ');
      NoSepInTail(p);
      SplitWithoutSep(p[1..]);
      assert [p[0]] + p[1..] == p;
    }
  }

  /** A delimiter-free field followed by ", " is split off as one piece. */
  lemma {:induction false} SplitAfterField(p: string, rest: string)
    requires !HasSep(p)
    ensures Split(p + ", " + rest) == [p] + Split(rest)
    decreases |p|
  {
    var s := p + ", " + rest;
    if |p| == 0 {
      assert s[2..] == rest;
    } else {
      assert !(s[0] == ',' && s[1] == ' ') by {
        if |p| >= 2 { assert s[1] == p[1]; } else { assert s[1] == ','; }
      }
      NoSepInTail(p);
      assert s[1..] == p[1..] + ", " + rest;
      SplitAfterField(p[1..], rest);
      assert [p[0]] + p[1..] == p;
    }
  }

  /** Splitting joined fields gives back the fields, when none holds ", ". */
  lemma {:induction false} SplitJoin(parts: seq<string>)
    requires |parts| >= 1
    requires forall k :: 0 <= k < |parts| ==> !HasSep(parts[k])
    ensures Split(Join(parts)) == parts
    decreases |parts|
  {
    if |parts| == 1 {
      SplitWithoutSep(parts[0]);
    } else {
      SplitJoin(parts[1..]);
      SplitAfterField(parts[0], Join(parts[1..]));
      assert [parts[0]] + parts[1..] == parts;
    }
  }

  /** The joined text begins with the first field and ends with the last. */
  lemma {:induction false} JoinEnds(parts: seq<string>)
    requires |parts| >= 1
    ensures parts[0] <= Join(parts)
    ensures |parts[|parts| - 1]| <= |Join(parts)|
    ensures Join(parts)[|Join(parts)| - |parts[|parts| - 1]|..] == parts[|parts| - 1]
    decreases |parts|
  {
    if |parts| > 1 {
      JoinEnds(parts[1..]);
      var tail := Join(parts[1..]);
      assert Join(parts) == parts[0] + ", " + tail;
      assert Join(parts)[|Join(parts)| - |tail|..] == tail;
    }
  }

  /**
   * Whatever precedes it, the text after the last ", " is the last piece
   * of a split, and there are at least two pieces.
   */
  lemma {:induction false} SplitLastPiece(y: string, p: string)
    requires !HasSep(p)
    ensures |Split(y + ", " + p)| >= 2
    ensures Split(y + ", " + p)[|Split(y + ", " + p)| - 1] == p
    decreases |y|
  {
    var s := y + ", " + p;
    if |y| == 0 {
      assert s[2..] == p;
      SplitWithoutSep(p);
    } else if |y| >= 2 && s[0] == ',' && s[1] == ' ' {
      assert s[2..] == y[2..] + ", " + p;
      SplitLastPiece(y[2..], p);
      assert Split(s) == [""] + Split(s[2..]);
    } else {
      if |y| == 1 { assert s[1] == ','; }
      assert s[1..] == y[1..] + ", " + p;
      SplitLastPiece(y[1..], p);
      var rest := Split(s[1..]);
      assert Split(s) == [[s[0]] + rest[0]] + rest[1..];
      assert Split(s)[|Split(s)| - 1] == rest[|rest| - 1];
    }
  }

  /** Leading whitespace is only looked for before the first other character. */
  lemma {:induction false} StripStartConcat(x: string, y: string)
    requires |y| > 0 && !IsSpace(y[0])
    ensures StripStart(x + y) == StripStart(x) + y
    decreases |x|
  {
    if |x| > 0 {
      assert (x + y)[1..] == x[1..] + y;
      StripStartConcat(x[1..], y);
    }
  }

  /** `x.lower() == "x"` exactly for the two spellings of the cancel key. */
  lemma LowerIsX(s: string)
    ensures Lower(s) == "x" <==> s == "x" || s == "X"
  {
    if Lower(s) == "x" {
      assert |s| == 1 && Lower(s)[0] == LowerChar(s[0]);
      assert s == [s[0]];
    }
    if s == "x" || s == "X" {
      assert Lower(s)[0] == LowerChar(s[0]);
    }
  }

  /** Lower-casing is idempotent and never introduces or removes ", ". */
  lemma LowerKeepsSep(s: string)
    ensures Lower(Lower(s)) == Lower(s)
    ensures HasSep(Lower(s)) == HasSep(s)
    ensures |s| > 0 ==> (IsSpace(Lower(s)[0]) <==> IsSpace(s[0]))
  {
    if HasSep(s) {
      var i :| 0 <= i < |s| - 1 && s[i] == ',' && s[i + 1] == ' ';
      assert Lower(s)[i] == ',' && Lower(s)[i + 1] == ' ';
    }
    if HasSep(Lower(s)) {
      var i :| 0 <= i < |s| - 1 && Lower(s)[i] == ',' && Lower(s)[i + 1] == ' ';
      assert s[i] == ',' && s[i + 1] == ' ';
    }
  }
}
