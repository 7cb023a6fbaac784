/**
 * One line of the task file: six fields joined by ", " —
 * assignee, title, description, date assigned, due date, "Yes"/"No" —
 * and a newline (a title or description holding ", " reads back as more
 * fields). A line is read with `line.strip().split(", ")` and, after one
 * field is changed, written back with `", ".join(parts) + "\n"`.
 */
module TaskLine {
  import opened Text
  import opened FileText

  const AssigneeField := 0
  const DueField := 4
  const FieldCount := 6

  /** `line.strip().split(", ")` */
  function Fields(line: string): (parts: seq<string>)
    ensures |parts| >= 1
  {
    Split(Strip(line))
  }

  /** `", ".join(parts) + "\n"` */
  function Serialise(parts: seq<string>): string {
    Join(parts) + "\n"
  }

  /**
   * At least the six fields `display_task` reads (`task_parts[0]` to
   * `task_parts[5]`); a title or description holding ", " gives more.
   */
  predicate WellFormed(line: string) {
    |Fields(line)| >= FieldCount
  }

  /** `task_parts[-1].lower() == "yes"` */
  predicate IsCompleted(line: string) {
    Lower(Fields(line)[|Fields(line)| - 1]) == "yes"
  }

  /** `task_parts[0].lower()`: who the task is assigned to. */
  function Owner(line: string): string {
    Lower(Fields(line)[AssigneeField])
  }

  /**
   * Text `v` can stand as field `k` of `n` and be read back unchanged:
   * no ", " inside, no leading whitespace if it comes first, and
   * non-empty without trailing whitespace if it comes last.
   */
  predicate FitsAt(v: string, k: nat, n: nat) {
    && !HasSep(v)
    && (k == 0 && |v| > 0 ==> !IsSpace(v[0]))
    && (k == n - 1 ==> |v| > 0 && !IsSpace(v[|v| - 1]))
  }

  predicate CleanFields(parts: seq<string>) {
    |parts| >= 1 && forall k :: 0 <= k < |parts| ==> FitsAt(parts[k], k, |parts|)
  }

  /** Writing clean fields and reading the line back gives the same fields. */
  lemma ParseSerialise(parts: seq<string>)
    requires CleanFields(parts)
    ensures Fields(Serialise(parts)) == parts
  {
    var j := Join(parts);
    var last := parts[|parts| - 1];
    JoinEnds(parts);
    assert FitsAt(parts[0], 0, |parts|) && FitsAt(last, |parts| - 1, |parts|);
    assert j[|j| - 1] == last[|last| - 1];
    if |parts[0]| == 0 && |parts| > 1 {
      assert j[0] == ',';
    } else if |parts[0]| > 0 {
      assert j[0] == parts[0][0];
    }
    assert Trimmed(j);
    StripIgnoresNewline(j);
    StripOfTrimmed(j);
    SplitJoin(parts);
  }

  /**
   * The fields read from any line fit where they stand, except that the
   * last may be empty when the line is blank.
   */
  lemma FieldsFit(line: string)
    ensures forall k :: 0 <= k < |Fields(line)| - 1 ==> FitsAt(Fields(line)[k], k, |Fields(line)|)
    ensures Strip(line) != "" ==> CleanFields(Fields(line))
  {
    var parts := Fields(line);
    SplitPiecesHaveNoSep(Strip(line));
    FirstFieldFits(line);
    if Strip(line) != "" {
      LastFieldFits(line);
    }
  }

  lemma FirstFieldFits(line: string)
    ensures |Fields(line)[0]| > 0 ==> !IsSpace(Fields(line)[0][0])
  {
    var s := Strip(line);
    StripIsTrimmed(line);
    if |Fields(line)[0]| > 0 {
      assert Fields(line)[0][0] == s[0];
    }
  }

  lemma LastFieldFits(line: string)
    requires Strip(line) != ""
    ensures var last := Fields(line)[|Fields(line)| - 1]; |last| > 0 && !IsSpace(last[|last| - 1])
  {
    StripIsTrimmed(line);
    JoinSplit(Strip(line));
    LastPieceOfTrimmed(Fields(line), Strip(line));
  }

  lemma LastPieceOfTrimmed(parts: seq<string>, s: string)
    requires |parts| >= 1 && Join(parts) == s
    requires s != "" && Trimmed(s)
    ensures |parts[|parts| - 1]| > 0 && !IsSpace(parts[|parts| - 1][|parts[|parts| - 1]| - 1])
  {
    var n := |parts|;
    var last := parts[n - 1];
    JoinEnds(parts);
    assert s[|s| - |last|..] == last;
    if n > 1 {
      JoinSplitLast(parts);
      assert s[|s| - |last| - 1] == ' ';
    }
    assert last[|last| - 1] == s[|s| - 1];
  }

  lemma {:induction false} JoinSplitLast(parts: seq<string>)
    requires |parts| >= 2
    ensures Join(parts) == Join(parts[..|parts| - 1]) + ", " + parts[|parts| - 1]
    decreases |parts|
  {
    if |parts| > 2 {
      JoinSplitLast(parts[1..]);
      assert parts[1..][..|parts| - 2] == parts[..|parts| - 1][1..];
    }
  }

  /** Re-joining the fields of a line gives back the stripped line. */
  lemma SerialiseFields(line: string)
    ensures Serialise(Fields(line)) == Strip(line) + "\n"
  {
    JoinSplit(Strip(line));
  }

  /** Ensuring the final newline leaves the fields of every line as they were. */
  lemma FieldsOfTerminated(lines: seq<string>)
    requires lines != []
    ensures |Terminated(lines)| == |lines|
    ensures forall i :: 0 <= i < |lines| ==> Fields(Terminated(lines)[i]) == Fields(lines[i])
  {
    var n := |lines|;
    var t := Terminated(lines);
    assert t == lines[..n - 1] + [EnsureNewline(lines[n - 1])];
    if !EndsWithNewline(lines[n - 1]) {
      StripIgnoresNewline(lines[n - 1]);
    }
    forall i | 0 <= i < n ensures Fields(t[i]) == Fields(lines[i]) {
      if i < n - 1 {
        assert t[i] == lines[i];
      }
    }
  }

  /**
   * `parts[k] = v; tasks[i] = ", ".join(parts) + "\n"`: the line with one
   * field replaced.
   */
  function WithField(line: string, k: nat, v: string): string
    requires k < |Fields(line)|
  {
    Serialise(Fields(line)[k := v])
  }

  /**
   * Replacing one field leaves the text of every other field intact: the
   * rewritten line reads back as the old fields with only field `k` changed.
   */
  lemma WithFieldReadsBack(line: string, k: nat, v: string)
    requires k < |Fields(line)|
    requires FitsAt(v, k, |Fields(line)|)
    requires k == |Fields(line)| - 1 || Strip(line) != ""
    ensures Fields(WithField(line, k, v)) == Fields(line)[k := v]
  {
    var parts := Fields(line);
    FieldsFit(line);
    var updated := parts[k := v];
    forall j | 0 <= j < |updated| ensures FitsAt(updated[j], j, |updated|) {
    }
    ParseSerialise(updated);
  }

  /**
   * The mark-complete rewrite `task_parts[-1] = "Yes"`: every other field is
   * kept and the line now reads as completed.
   */
  function MarkedComplete(line: string): (r: string)
    ensures Fields(r) == Fields(line)[|Fields(line)| - 1 := "Yes"]
    ensures IsCompleted(r)
    ensures WellFormed(r) == WellFormed(line)
  {
    var last := |Fields(line)| - 1;
    MarkReadsBack(line, last);
    WithField(line, last, "Yes")
  }

  lemma MarkReadsBack(line: string, last: nat)
    requires last == |Fields(line)| - 1
    ensures Fields(WithField(line, last, "Yes")) == Fields(line)[last := "Yes"]
    ensures IsCompleted(WithField(line, last, "Yes"))
  {
    YesFits(last + 1);
    WithFieldReadsBack(line, last, "Yes");
  }

  lemma YesFits(n: nat)
    requires n >= 1
    ensures FitsAt("Yes", n - 1, n)
    ensures Lower("Yes") == "yes"
  {
    var y := "Yes";
    assert !HasSep(y) by {
      assert y[0] == 'Y' && y[1] == 'e' && y[2] == 's';
    }
    assert Lower(y)[0] == 'y';
  }

  /** The reassignment rewrite `task_parts[0] = new_user`. */
  function Reassign(line: string, user: string): string
    requires WellFormed(line)
  {
    WithField(line, AssigneeField, user)
  }

  /**
   * Reassigning a line of at least six fields to a name that can stand as
   * the first field changes the assignee and nothing else: the other
   * fields, and so whether the task is complete, read back as before.
   */
  lemma ReassignChangesOnlyAssignee(line: string, user: string)
    requires WellFormed(line)
    requires FitsAt(user, AssigneeField, FieldCount)
    ensures Fields(Reassign(line, user)) == Fields(line)[AssigneeField := user]
    ensures WellFormed(Reassign(line, user))
    ensures IsCompleted(Reassign(line, user)) == IsCompleted(line)
    ensures Owner(Reassign(line, user)) == Lower(user)
  {
    WithFieldReadsBack(line, AssigneeField, user);
    SameStatus(Reassign(line, user), line);
  }

  /** The due-date rewrite `task_parts[4] = formatted_date`. */
  function Redate(line: string, due: string): string
    requires WellFormed(line)
  {
    WithField(line, DueField, due)
  }

  /**
   * Re-dating a line of at least six fields to a date text without ", "
   * changes field 4 and nothing else; in particular the assignee and
   * completion stay.
   */
  lemma RedateChangesOnlyDueDate(line: string, due: string)
    requires WellFormed(line)
    requires !HasSep(due)
    ensures Fields(Redate(line, due)) == Fields(line)[DueField := due]
    ensures WellFormed(Redate(line, due))
    ensures IsCompleted(Redate(line, due)) == IsCompleted(line)
    ensures Owner(Redate(line, due)) == Owner(line)
  {
    WithFieldReadsBack(line, DueField, due);
    SameShape(Redate(line, due), line);
  }

  /** Lines with as many fields and the same last field. */
  lemma SameStatus(a: string, b: string)
    requires |Fields(a)| == |Fields(b)|
    requires Fields(a)[|Fields(a)| - 1] == Fields(b)[|Fields(b)| - 1]
    ensures WellFormed(a) == WellFormed(b)
    ensures IsCompleted(a) == IsCompleted(b)
  {
  }

  /** Lines with the same number of fields, first field and last field. */
  lemma SameShape(a: string, b: string)
    requires |Fields(a)| == |Fields(b)|
    requires Fields(a)[AssigneeField] == Fields(b)[AssigneeField]
    requires Fields(a)[|Fields(a)| - 1] == Fields(b)[|Fields(b)| - 1]
    ensures WellFormed(a) == WellFormed(b)
    ensures IsCompleted(a) == IsCompleted(b)
    ensures Owner(a) == Owner(b)
  {
    SameStatus(a, b);
  }

  /**
   * The record `add_task` writes:
   * `f"{user}, {title}, {description}, {assigned}, {due}, No\n"`.
   * It always reads back as not completed, whatever the fields hold; when
   * the fields are clean it reads back as exactly those six fields.
   */
  function NewEntry(user: string, title: string, description: string,
                    assignedOn: string, due: string): (line: string)
    ensures !IsCompleted(line)
    ensures CleanFields([user, title, description, assignedOn, due, "No"])
            ==> Fields(line) == [user, title, description, assignedOn, due, "No"]
  {
    var head := user + ", " + title + ", " + description + ", " + assignedOn + ", " + due;
    NewEntryIsIncomplete(head);
    NewEntryReadsBack([user, title, description, assignedOn, due, "No"], head);
    head + ", No\n"
  }

  lemma NewEntryReadsBack(parts: seq<string>, head: string)
    requires |parts| == 6 && parts[5] == "No"
    requires head == parts[0] + ", " + parts[1] + ", " + parts[2] + ", " + parts[3] + ", " + parts[4]
    ensures CleanFields(parts) ==> Fields(head + ", No\n") == parts
  {
    assert Join(parts[5..]) == "No";
    assert Join(parts[4..]) == parts[4] + ", " + Join(parts[5..]);
    assert Join(parts[3..]) == parts[3] + ", " + Join(parts[4..]);
    assert Join(parts[2..]) == parts[2] + ", " + Join(parts[3..]);
    assert Join(parts[1..]) == parts[1] + ", " + Join(parts[2..]);
    assert Join(parts) == parts[0] + ", " + Join(parts[1..]);
    assert head + ", No\n" == Serialise(parts);
    if CleanFields(parts) {
      ParseSerialise(parts);
    }
  }

  lemma NewEntryIsIncomplete(head: string)
    ensures !IsCompleted(head + ", No\n")
  {
    StripOfEntry(head);
    LastPieceIsNo(head + ", No\n", StripStart(head));
  }

  lemma LastPieceIsNo(line: string, x: string)
    requires Strip(line) == x + ", " + "No"
    ensures !IsCompleted(line)
  {
    NoFits();
    SplitLastPiece(x, "No");
  }

  lemma StripOfEntry(head: string)
    ensures Strip(head + ", No\n") == StripStart(head) + ", " + "No"
  {
    var tail := ", " + "No";
    assert tail[0] == ',' && tail[|tail| - 1] == 'o';
    assert head + ", No\n" == head + tail + "\n";
    StripKeepsTail(head, tail);
  }

  lemma StripKeepsTail(head: string, tail: string)
    requires |tail| > 0 && !IsSpace(tail[0]) && !IsSpace(tail[|tail| - 1])
    ensures Strip(head + tail + "\n") == StripStart(head) + tail
  {
    var body := head + tail;
    StripIgnoresNewline(body);
    StripStartConcat(head, tail);
    var start := StripStart(head) + tail;
    assert start[|start| - 1] == tail[|tail| - 1];
    assert StripEnd(start) == start;
  }

  lemma NoFits()
    ensures !HasSep("No")
    ensures Lower("No") != "yes"
  {
    var no := "No";
    assert no[0] == 'N' && no[1] == 'o';
  }
}
