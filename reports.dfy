/**
 * `generate_reports`: one pass over the task file counts the tasks that
 * are complete, open and overdue; then, for every user of the user file,
 * a pass over the task file counts the same for that user's tasks. A task
 * is overdue when it is open and its due date, read as midnight, lies
 * before the current moment.
 */
module Reports {
  import opened Wrappers
  import opened Text
  import opened Dates
  import opened TaskLine
  import opened Users
  import opened Selection
  import opened Tasks

  /** The line has a due-date field and `strptime` reads it (otherwise the report raises). */
  predicate Readable(line: string, cal: Calendar) {
    |Fields(line)| > DueField && cal.parse(Fields(line)[DueField]).Some?
  }

  predicate AllReadable(lines: seq<string>, cal: Calendar) {
    forall i :: 0 <= i < |lines| ==> Readable(lines[i], cal)
  }

  function DueOf(line: string, cal: Calendar): Date
    requires Readable(line, cal)
  {
    cal.parse(Fields(line)[DueField]).value
  }

  /** Open, readable, and due (as midnight) before the current moment. */
  predicate IsOverdue(line: string, cal: Calendar, now: Instant) {
    !IsCompleted(line) && Readable(line, cal) && MidnightBefore(DueOf(line, cal), now)
  }

  /** The four counters of a report. */
  datatype Overview = Overview(total: int, completed: int, uncompleted: int, overdue: int)

  // ---------------------------------------------------------------------
  // Counting: a sum of per-line marks
  // ---------------------------------------------------------------------

  function Sum(xs: seq<int>): int
    decreases |xs|
  {
    if |xs| == 0 then 0 else Sum(xs[..|xs| - 1]) + xs[|xs| - 1]
  }

  /** Per line: 1 for a completed task, else 0. */
  function CompletedMarks(lines: seq<string>): (m: seq<int>)
    ensures |m| == |lines|
  {
    seq(|lines|, i requires 0 <= i < |lines| => if IsCompleted(lines[i]) then 1 else 0)
  }

  /** Per line: 1 for an open task, else 0. */
  function OpenMarks(lines: seq<string>): (m: seq<int>)
    ensures |m| == |lines|
  {
    seq(|lines|, i requires 0 <= i < |lines| => if IsCompleted(lines[i]) then 0 else 1)
  }

  /** Per line: 1 for an overdue task, else 0. */
  function OverdueMarks(lines: seq<string>, cal: Calendar, now: Instant): (m: seq<int>)
    ensures |m| == |lines|
  {
    seq(|lines|, i requires 0 <= i < |lines| => if IsOverdue(lines[i], cal, now) then 1 else 0)
  }

  /** Per line: 1 for a task of `user`, else 0. */
  function OwnedMarks(lines: seq<string>, user: string): (m: seq<int>)
    ensures |m| == |lines|
  {
    seq(|lines|, i requires 0 <= i < |lines| => if Owner(lines[i]) == user then 1 else 0)
  }

  /** `marks` kept on the lines of `user` and cleared on the others. */
  function Only(marks: seq<int>, lines: seq<string>, user: string): (m: seq<int>)
    requires |marks| == |lines|
    ensures |m| == |lines|
  {
    seq(|lines|, i requires 0 <= i < |lines| => if Owner(lines[i]) == user then marks[i] else 0)
  }

  /** The task overview of `lines`. */
  function Tally(lines: seq<string>, cal: Calendar, now: Instant): Overview {
    Overview(|lines|, Sum(CompletedMarks(lines)), Sum(OpenMarks(lines)), Sum(OverdueMarks(lines, cal, now)))
  }

  /** The counters of the report of `user` over `lines`. */
  function UserTally(lines: seq<string>, user: string, cal: Calendar, now: Instant): Overview {
    Overview(Sum(OwnedMarks(lines, user)),
             Sum(Only(CompletedMarks(lines), lines, user)),
             Sum(Only(OpenMarks(lines), lines, user)),
             Sum(Only(OverdueMarks(lines, cal, now), lines, user)))
  }

  // ---------------------------------------------------------------------
  // Sums
  // ---------------------------------------------------------------------

  lemma {:induction false} SumAppend(xs: seq<int>, ys: seq<int>)
    ensures Sum(xs + ys) == Sum(xs) + Sum(ys)
    decreases |ys|
  {
    if |ys| == 0 {
      assert xs + ys == xs;
    } else {
      var front := ys[..|ys| - 1];
      assert (xs + ys)[..|xs + ys| - 1] == xs + front;
      SumAppend(xs, front);
    }
  }

  lemma SumAround(xs: seq<int>, i: nat)
    requires i < |xs|
    ensures Sum(xs) == Sum(xs[..i]) + xs[i] + Sum(xs[i + 1..])
  {
    assert xs == xs[..i] + [xs[i]] + xs[i + 1..];
    SumAppend(xs[..i] + [xs[i]], xs[i + 1..]);
    SumAppend(xs[..i], [xs[i]]);
    assert [xs[i]][..0] == [];
  }

  /** Changing one mark changes the sum by the difference. */
  lemma SumUpdate(xs: seq<int>, i: nat, v: int)
    requires i < |xs|
    ensures Sum(xs[i := v]) == Sum(xs) - xs[i] + v
  {
    var ys := xs[i := v];
    SumAround(xs, i);
    SumAround(ys, i);
    assert ys[..i] == xs[..i] && ys[i + 1..] == xs[i + 1..];
  }

  /** Dropping one mark takes it off the sum. */
  lemma SumRemove(xs: seq<int>, i: nat)
    requires i < |xs|
    ensures Sum(xs[..i] + xs[i + 1..]) == Sum(xs) - xs[i]
  {
    SumAround(xs, i);
    SumAppend(xs[..i], xs[i + 1..]);
  }

  lemma {:induction false} SumPointwise(xs: seq<int>, ys: seq<int>, zs: seq<int>)
    requires |xs| == |ys| == |zs|
    requires forall k :: 0 <= k < |zs| ==> zs[k] == xs[k] + ys[k]
    ensures Sum(zs) == Sum(xs) + Sum(ys)
    decreases |zs|
  {
    if |zs| > 0 {
      var n := |zs| - 1;
      SumPointwise(xs[..n], ys[..n], zs[..n]);
    }
  }

  lemma {:induction false} SumMonotone(xs: seq<int>, ys: seq<int>)
    requires |xs| == |ys|
    requires forall k :: 0 <= k < |xs| ==> xs[k] <= ys[k]
    ensures Sum(xs) <= Sum(ys)
    decreases |xs|
  {
    if |xs| > 0 {
      var n := |xs| - 1;
      SumMonotone(xs[..n], ys[..n]);
    }
  }

  /** Marks that are 0 or 1 sum to a count between 0 and their number. */
  lemma {:induction false} SumOfBits(xs: seq<int>)
    requires forall k :: 0 <= k < |xs| ==> 0 <= xs[k] <= 1
    ensures 0 <= Sum(xs) <= |xs|
    ensures (forall k :: 0 <= k < |xs| ==> xs[k] == 1) ==> Sum(xs) == |xs|
    decreases |xs|
  {
    if |xs| > 0 {
      var n := |xs| - 1;
      SumOfBits(xs[..n]);
    }
  }

  // ---------------------------------------------------------------------
  // What the counters mean
  // ---------------------------------------------------------------------

  /**
   * Every task is counted once, as complete or as open; only open tasks
   * are counted overdue.
   */
  lemma CountsAddUp(lines: seq<string>, cal: Calendar, now: Instant)
    ensures var o := Tally(lines, cal, now);
      && o.total == |lines|
      && o.completed + o.uncompleted == o.total
      && 0 <= o.overdue <= o.uncompleted
      && 0 <= o.completed
  {
    var c, u, d := CompletedMarks(lines), OpenMarks(lines), OverdueMarks(lines, cal, now);
    var ones := seq(|lines|, i => 1);
    SumPointwise(c, u, ones);
    SumOfBits(ones);
    SumOfBits(c);
    SumOfBits(d);
    SumMonotone(d, u);
  }

  /**
   * A user's counters add up the same way, and a user has no more tasks
   * than the file: so the `total_tasks > 0` half of the percentage guard
   * adds nothing once the user has a task.
   */
  lemma UserCountsAddUp(lines: seq<string>, user: string, cal: Calendar, now: Instant)
    ensures var o := UserTally(lines, user, cal, now);
      && o.total <= |lines|
      && o.completed + o.uncompleted == o.total
      && 0 <= o.overdue <= o.uncompleted
      && 0 <= o.completed
      && (o.total > 0 ==> |lines| > 0)
  {
    var owned := OwnedMarks(lines, user);
    var c := Only(CompletedMarks(lines), lines, user);
    var u := Only(OpenMarks(lines), lines, user);
    var d := Only(OverdueMarks(lines, cal, now), lines, user);
    SumPointwise(c, u, owned);
    SumOfBits(owned);
    SumOfBits(c);
    SumOfBits(d);
    SumMonotone(d, u);
  }

  /**
   * Marking an open task complete moves it from the open count to the
   * complete count, and out of the overdue count if it was there.
   */
  lemma MarkMovesCount(lines: seq<string>, i: nat, cal: Calendar, now: Instant)
    requires i < |lines| && !IsCompleted(lines[i])
    ensures var o, p := Tally(lines, cal, now), Tally(lines[i := MarkedComplete(lines[i])], cal, now);
      && p.total == o.total
      && p.completed == o.completed + 1
      && p.uncompleted + 1 == o.uncompleted
      && p.overdue + (if IsOverdue(lines[i], cal, now) then 1 else 0) == o.overdue
  {
    var after := lines[i := MarkedComplete(lines[i])];
    assert CompletedMarks(after) == CompletedMarks(lines)[i := 1];
    assert OpenMarks(after) == OpenMarks(lines)[i := 0];
    assert OverdueMarks(after, cal, now) == OverdueMarks(lines, cal, now)[i := 0];
    SumUpdate(CompletedMarks(lines), i, 1);
    SumUpdate(OpenMarks(lines), i, 0);
    SumUpdate(OverdueMarks(lines, cal, now), i, 0);
  }

  /** Deleting line `i` takes exactly that line off the counters it was counted in. */
  lemma DeleteDropsCount(lines: seq<string>, i: nat, cal: Calendar, now: Instant)
    requires i < |lines|
    ensures var o, p := Tally(lines, cal, now), Tally(RemoveAt(lines, i), cal, now);
      && p.total + 1 == o.total
      && p.completed + (if IsCompleted(lines[i]) then 1 else 0) == o.completed
      && p.uncompleted + (if IsCompleted(lines[i]) then 0 else 1) == o.uncompleted
      && p.overdue + (if IsOverdue(lines[i], cal, now) then 1 else 0) == o.overdue
  {
    var rest := RemoveAt(lines, i);
    var c, u, d := CompletedMarks(lines), OpenMarks(lines), OverdueMarks(lines, cal, now);
    assert CompletedMarks(rest) == c[..i] + c[i + 1..];
    assert OpenMarks(rest) == u[..i] + u[i + 1..];
    assert OverdueMarks(rest, cal, now) == d[..i] + d[i + 1..];
    SumRemove(c, i);
    SumRemove(u, i);
    SumRemove(d, i);
  }

  /**
   * The number of tasks the user report gives a user is the number of
   * tasks `view_mine` numbers for that user.
   */
  lemma UserCountIsOwnedCount(lines: seq<string>, user: string, cal: Calendar, now: Instant)
    requires Lower(user) == user
    ensures UserTally(lines, user, cal, now).total == OwnedCount(lines, user)
  {
    var m := OwnedMarks(lines, user);
    OwnedPrefix(lines, user, |lines|);
    assert m[..|lines|] == m;
  }

  lemma {:induction false} OwnedPrefix(lines: seq<string>, user: string, n: nat)
    requires n <= |lines| && Lower(user) == user
    ensures Sum(OwnedMarks(lines, user)[..n]) == |Positions(Owners(lines), user, n)|
    decreases n
  {
    if n > 0 {
      var m := OwnedMarks(lines, user);
      assert m[..n][..n - 1] == m[..n - 1];
      OwnedPrefix(lines, user, n - 1);
    }
  }

  // ---------------------------------------------------------------------
  // The counting loops
  // ---------------------------------------------------------------------

  /** The task overview: one pass over every line of the task file. */
  method CountTasks(lines: seq<string>, cal: Calendar, now: Instant) returns (o: Overview)
    requires AllReadable(lines, cal)
    ensures o == Tally(lines, cal, now)
  {
    ghost var c, u, d := CompletedMarks(lines), OpenMarks(lines), OverdueMarks(lines, cal, now);
    var completed, uncompleted, overdue := 0, 0, 0;
    for i := 0 to |lines|
      invariant completed == Sum(c[..i]) && uncompleted == Sum(u[..i]) && overdue == Sum(d[..i])
    {
      assert c[..i + 1][..i] == c[..i] && u[..i + 1][..i] == u[..i] && d[..i + 1][..i] == d[..i];
      var line := lines[i];
      if IsCompleted(line) {
        completed := completed + 1;
      } else {
        uncompleted := uncompleted + 1;
        if MidnightBefore(DueOf(line, cal), now) {
          overdue := overdue + 1;
        }
      }
    }
    assert c[..|lines|] == c && u[..|lines|] == u && d[..|lines|] == d;
    o := Overview(|lines|, completed, uncompleted, overdue);
  }

  /** The lines of `user` have a readable due date. */
  predicate UserReadable(lines: seq<string>, user: string, cal: Calendar) {
    forall i :: 0 <= i < |lines| && Owner(lines[i]) == user ==> Readable(lines[i], cal)
  }

  /** The counters of one user: a pass over the task file looking at that user's lines only. */
  method CountUserTasks(lines: seq<string>, user: string, cal: Calendar, now: Instant) returns (o: Overview)
    requires UserReadable(lines, user, cal)
    ensures o == UserTally(lines, user, cal, now)
  {
    ghost var n := OwnedMarks(lines, user);
    ghost var c := Only(CompletedMarks(lines), lines, user);
    ghost var u := Only(OpenMarks(lines), lines, user);
    ghost var d := Only(OverdueMarks(lines, cal, now), lines, user);
    var count, completed, uncompleted, overdue := 0, 0, 0, 0;
    for i := 0 to |lines|
      invariant count == Sum(n[..i])
      invariant completed == Sum(c[..i]) && uncompleted == Sum(u[..i]) && overdue == Sum(d[..i])
    {
      assert n[..i + 1][..i] == n[..i];
      assert c[..i + 1][..i] == c[..i] && u[..i + 1][..i] == u[..i] && d[..i + 1][..i] == d[..i];
      var line := lines[i];
      if Owner(line) == user {
        count := count + 1;
        if IsCompleted(line) {
          completed := completed + 1;
        } else {
          uncompleted := uncompleted + 1;
          if MidnightBefore(DueOf(line, cal), now) {
            overdue := overdue + 1;
          }
        }
      }
    }
    assert n[..|lines|] == n;
    assert c[..|lines|] == c && u[..|lines|] == u && d[..|lines|] == d;
    o := Overview(count, completed, uncompleted, overdue);
  }

  /** One user's part of the user overview. */
  datatype UserReport = UserReport(user: string, counts: Overview, showsPercentages: bool)

  /**
   * `r` is the report of `user` over `lines`: that user's counters, with
   * percentages exactly when the file and the user's share are non-empty.
   */
  predicate IsUserReport(r: UserReport, user: string, lines: seq<string>, cal: Calendar, now: Instant) {
    && r.user == user
    && r.counts == UserTally(lines, user, cal, now)
    && (r.showsPercentages <==> |lines| > 0 && r.counts.total > 0)
  }

  /**
   * `generate_reports`: the task overview, then one user report per line
   * of the user file, in file order. Percentages are written for a user
   * only when the file and the user's share of it are both non-empty.
   */
  method GenerateReports(lines: seq<string>, userLines: seq<string>, cal: Calendar, now: Instant)
    returns (overview: Overview, users: seq<UserReport>)
    requires AllReadable(lines, cal)
    ensures overview == Tally(lines, cal, now)
    ensures |users| == |userLines|
    ensures forall k :: 0 <= k < |users| ==> IsUserReport(users[k], Usernames(userLines)[k], lines, cal, now)
  {
    overview := CountTasks(lines, cal, now);
    var names := GetExistingUsernames(userLines);
    users := [];
    for k := 0 to |names|
      invariant |users| == k
      invariant forall j :: 0 <= j < k ==> IsUserReport(users[j], names[j], lines, cal, now)
    {
      var user := names[k];
      var counts := CountUserTasks(lines, user, cal, now);
      users := users + [UserReport(user, counts, overview.total > 0 && counts.total > 0)];
    }
  }
}
