/**
 * `view_mine`: the current user's tasks are numbered once, then a menu
 * loop offers "1" (mark complete), "2" (edit) and "x" (leave) until the
 * user leaves. The numbering is built before the loop and never rebuilt,
 * so a task the user reassigns away keeps its number for the rest of the
 * session; `ViewMineFresh` is the loop with the numbering rebuilt before
 * every action.
 */
module Session {
  import opened Text
  import opened Dates
  import opened TaskLine
  import opened Prompts
  import opened Users
  import opened Selection
  import opened Tasks

  /** The user's own lines have at least six fields: `view_mine` shows each of them field by field. */
  predicate OwnLinesWellFormed(lines: seq<string>, user: string) {
    forall i :: 0 <= i < |lines| && AssignedTo(lines[i], user) ==> WellFormed(lines[i])
  }

  /**
   * What the menu needs of the list: the lines a display map names have
   * at least six fields, and so do the user's own lines.
   */
  ghost predicate Workable(userTasks: map<nat, nat>, lines: seq<string>, user: string) {
    && (forall d :: d in userTasks ==> userTasks[d] < |lines| && WellFormed(lines[userTasks[d]]))
    && OwnLinesWellFormed(lines, user)
  }

  /** `strftime("%d %b %Y")` never writes ", ", so a re-dated line keeps at least six fields. */
  ghost predicate FormatsCleanly(cal: Calendar) {
    forall d :: !HasSep(cal.format(d))
  }

  /** Every number of the map names a line of the list. */
  predicate NamesLines(userTasks: map<nat, nat>, lines: seq<string>) {
    forall d :: d in userTasks ==> userTasks[d] < |lines|
  }

  /** The numbering an action uses: the one built at the start, or one rebuilt from the current lines. */
  function Numbering(fixed: map<nat, nat>, rebuilt: bool, lines: seq<string>, user: string): (userTasks: map<nat, nat>)
    ensures NamesLines(fixed, lines) ==> NamesLines(userTasks, lines)
  {
    if rebuilt then DisplayMap(lines, user) else fixed
  }

  /** A rebuilt numbering is the display map of the current lines, and names only lines with at least six fields. */
  lemma NumberingIsWorkable(fixed: map<nat, nat>, rebuilt: bool, lines: seq<string>, user: string)
    ensures rebuilt ==> IsDisplayMap(Numbering(fixed, rebuilt, lines, user), lines, user)
    ensures Workable(fixed, lines, user) ==> Workable(Numbering(fixed, rebuilt, lines, user), lines, user)
  {
  }

  /** The tasks a mark outcome marks: the one marked, if any. */
  function MarkedBy(outcome: MarkOutcome): seq<nat> {
    if outcome.Marked? then [outcome.index] else []
  }

  /** The lines after `mark_task_complete` has ended with `outcome`. */
  function AfterMark(lines: seq<string>, outcome: MarkOutcome): (after: seq<string>)
    ensures |after| == |lines|
  {
    if outcome.Marked? && outcome.index < |lines| then lines[outcome.index := MarkedComplete(lines[outcome.index])]
    else lines
  }

  /**
   * The lines after `edit_task` has ended with `outcome`; `edit_task` only
   * reports an edit of a line with at least six fields.
   */
  function AfterEdit(lines: seq<string>, cal: Calendar, outcome: EditOutcome): (after: seq<string>)
    ensures |after| == |lines|
  {
    if !(outcome.Reassigned? || outcome.Redated?) || outcome.index >= |lines| || !WellFormed(lines[outcome.index]) then lines
    else if outcome.Reassigned? then lines[outcome.index := Reassign(lines[outcome.index], outcome.user)]
    else lines[outcome.index := Redate(lines[outcome.index], cal.format(outcome.due))]
  }

  datatype SessionEnd = NothingAssigned | Exited | SessionInputEnded

  /** How a session ended, the lines it left and the tasks it marked, in order. */
  datatype SessionState = SessionState(finish: SessionEnd, lines: seq<string>, marked: seq<nat>)

  /** Every line an action changed has at least six fields afterwards. */
  ghost predicate ChangedWellFormed(before: seq<string>, after: seq<string>) {
    && |after| == |before|
    && (forall i :: 0 <= i < |after| && after[i] != before[i] ==> WellFormed(after[i]))
  }

  /** An action that leaves changed lines with at least six fields keeps the list workable. */
  lemma StaysWorkable(fixed: map<nat, nat>, before: seq<string>, after: seq<string>, user: string)
    requires Workable(fixed, before, user) && ChangedWellFormed(before, after)
    ensures Workable(fixed, after, user)
  {
    forall d | d in fixed ensures fixed[d] < |after| && WellFormed(after[fixed[d]]) {
      assert after[fixed[d]] != before[fixed[d]] ==> WellFormed(after[fixed[d]]);
    }
  }

  /** Marking keeps at least six fields and the assignee. */
  lemma MarkKeepsOwner(line: string)
    requires WellFormed(line)
    ensures Owner(MarkedComplete(line)) == Owner(line)
  {
    assert Fields(MarkedComplete(line))[AssigneeField] == Fields(line)[AssigneeField];
  }

  /**
   * An edit `edit_task` reports as made leaves the edited line with at
   * least six fields and its completion status; a reassignment gives it the new
   * assignee, a new due date keeps the old one.
   */
  lemma EditEffect(lines: seq<string>, userLines: seq<string>, cal: Calendar, outcome: EditOutcome)
    requires FormatsCleanly(cal)
    requires outcome.Reassigned? || outcome.Redated? ==> outcome.index < |lines| && WellFormed(lines[outcome.index])
    requires outcome.Reassigned? ==> outcome.user in Usernames(userLines)
    ensures ChangedWellFormed(lines, AfterEdit(lines, cal, outcome))
    ensures outcome.Reassigned? || outcome.Redated? ==>
      && IsCompleted(AfterEdit(lines, cal, outcome)[outcome.index]) == IsCompleted(lines[outcome.index])
      && (outcome.Redated? ==> Owner(AfterEdit(lines, cal, outcome)[outcome.index]) == Owner(lines[outcome.index]))
  {
    match outcome
    case Reassigned(i, user) =>
      ExistingUserFits(user, userLines);
      ReassignChangesOnlyAssignee(lines[i], user);
    case Redated(i, due) =>
      RedateChangesOnlyDueDate(lines[i], cal.format(due));
    case _ =>
  }

  /** A mark reported by `mark_task_complete` over a workable numbering leaves the changed line with at least six fields. */
  lemma MarkEffect(userTasks: map<nat, nat>, lines: seq<string>, user: string, outcome: MarkOutcome)
    requires Workable(userTasks, lines, user)
    requires outcome.Marked? ==> outcome.index in userTasks.Values
    ensures ChangedWellFormed(lines, AfterMark(lines, outcome))
  {
    if outcome.Marked? {
      var d :| d in userTasks && userTasks[d] == outcome.index;
    }
  }

  /** The two actions of the `view_mine` menu. */
  datatype MenuAction = MarkAction | EditAction

  /**
   * The menu prompt of `view_mine` with one answer, lower-cased: "x"
   * leaves, "1" and "2" pick an action, anything else is an invalid
   * option and the menu asks again.
   */
  function MenuStep(input: string): Step<MenuAction> {
    var choice := Lower(input);
    if IsCancel(choice) then Cancel
    else if choice == "1" then Take(MarkAction)
    else if choice == "2" then Take(EditAction)
    else Retry
  }

  /** The steps of the menu prompt over the typed lines. */
  function MenuSteps(inputs: seq<string>): seq<Step<MenuAction>> {
    Steps(MenuStep, inputs)
  }

  /** The menu leaves exactly on "x" in either case, and picks actions on "1" and "2" in any case. */
  lemma MenuAnswer(inputs: seq<string>, pos: nat)
    requires pos < |inputs|
    ensures MenuSteps(inputs)[pos].Cancel? <==> inputs[pos] == "x" || inputs[pos] == "X"
    ensures MenuSteps(inputs)[pos] == Take(MarkAction) <==> Lower(inputs[pos]) == "1"
    ensures MenuSteps(inputs)[pos] == Take(EditAction) <==> Lower(inputs[pos]) == "2"
  {
    StepsAt(MenuStep, inputs, pos);
    LowerKeepsSep(inputs[pos]);
    LowerIsX(inputs[pos]);
  }

  /**
   * The menu loop of `view_mine` from position `pos` of the typed lines,
   * with the tasks marked so far: it leaves on "x", runs
   * `mark_task_complete` on "1" and `edit_task` on "2", and asks again on
   * anything else; each action reads on from the answer after the choice
   * and works on the lines as the previous actions left them. With
   * `rebuilt` the numbering is rebuilt before each action; `view_mine`
   * keeps `fixed`.
   */
  function Menu(fixed: map<nat, nat>, rebuilt: bool, user: string, lines: seq<string>, userLines: seq<string>,
                cal: Calendar, inputs: seq<string>, pos: nat, marked: seq<nat>): (s: SessionState)
    requires pos <= |inputs|
    requires NamesLines(fixed, lines)
    ensures s.finish.SessionInputEnded? || s.finish.Exited?
    ensures |s.lines| == |lines|
    decreases |inputs| - pos, 1
  {
    if pos == |inputs| then SessionState(SessionInputEnded, lines, marked)
    else
      match MenuSteps(inputs)[pos]
      case Cancel => SessionState(Exited, lines, marked)
      case Retry => Menu(fixed, rebuilt, user, lines, userLines, cal, inputs, pos + 1, marked)
      case Take(action) => Act(action, fixed, rebuilt, user, lines, userLines, cal, inputs, pos + 1, marked)
  }

  /**
   * The menu once `action` is chosen, the action reading its answers from
   * `from` on: the action runs on the lines as they are, then the menu
   * goes on where the action stopped.
   */
  function Act(action: MenuAction, fixed: map<nat, nat>, rebuilt: bool, user: string, lines: seq<string>,
               userLines: seq<string>, cal: Calendar, inputs: seq<string>, from: nat, marked: seq<nat>)
    : (s: SessionState)
    requires from <= |inputs|
    requires NamesLines(fixed, lines)
    ensures s.finish.SessionInputEnded? || s.finish.Exited?
    ensures |s.lines| == |lines|
    decreases |inputs| - from + 1, 0
  {
    var userTasks := Numbering(fixed, rebuilt, lines, user);
    match action
    case MarkAction =>
      var d := MarkDialogue(lines, userTasks, inputs, from);
      Menu(fixed, rebuilt, user, AfterMark(lines, d.outcome), userLines, cal, inputs, d.next, marked + MarkedBy(d.outcome))
    case EditAction =>
      var d := EditDialogue(lines, userTasks, Usernames(userLines), cal, inputs, from);
      Menu(fixed, rebuilt, user, AfterEdit(lines, cal, d.outcome), userLines, cal, inputs, d.next, marked)
  }

  /** Marking runs on the lines as they are, then the menu goes on where the mark stopped. */
  lemma ActOfMark(fixed: map<nat, nat>, rebuilt: bool, user: string, lines: seq<string>,
                  userLines: seq<string>, cal: Calendar, inputs: seq<string>, from: nat, marked: seq<nat>)
    requires from <= |inputs|
    requires NamesLines(fixed, lines)
    ensures Act(MarkAction, fixed, rebuilt, user, lines, userLines, cal, inputs, from, marked) ==
      Menu(fixed, rebuilt, user,
           AfterMark(lines, MarkDialogue(lines, Numbering(fixed, rebuilt, lines, user), inputs, from).outcome),
           userLines, cal, inputs,
           MarkDialogue(lines, Numbering(fixed, rebuilt, lines, user), inputs, from).next,
           marked + MarkedBy(MarkDialogue(lines, Numbering(fixed, rebuilt, lines, user), inputs, from).outcome))
  {
  }

  /** Editing runs on the lines as they are, then the menu goes on where the edit stopped. */
  lemma ActOfEdit(fixed: map<nat, nat>, rebuilt: bool, user: string, lines: seq<string>,
                  userLines: seq<string>, cal: Calendar, inputs: seq<string>, from: nat, marked: seq<nat>)
    requires from <= |inputs|
    requires NamesLines(fixed, lines)
    ensures Act(EditAction, fixed, rebuilt, user, lines, userLines, cal, inputs, from, marked) ==
      Menu(fixed, rebuilt, user,
           AfterEdit(lines, cal, EditDialogue(lines, Numbering(fixed, rebuilt, lines, user), Usernames(userLines), cal,
                                              inputs, from).outcome),
           userLines, cal, inputs,
           EditDialogue(lines, Numbering(fixed, rebuilt, lines, user), Usernames(userLines), cal, inputs, from).next,
           marked)
  {
  }

  /** "x" in either case at the menu leaves the session with the lines and marks as they are. */
  lemma MenuLeavesOnX(fixed: map<nat, nat>, rebuilt: bool, user: string, lines: seq<string>, userLines: seq<string>,
                      cal: Calendar, inputs: seq<string>, pos: nat, marked: seq<nat>)
    requires pos < |inputs| && (inputs[pos] == "x" || inputs[pos] == "X")
    requires NamesLines(fixed, lines)
    ensures Menu(fixed, rebuilt, user, lines, userLines, cal, inputs, pos, marked) == SessionState(Exited, lines, marked)
  {
    MenuAnswer(inputs, pos);
  }

  /** Any other answer than "1", "2" or "x" (in any case) is ignored and the menu asks again. */
  lemma MenuAsksAgain(fixed: map<nat, nat>, rebuilt: bool, user: string, lines: seq<string>, userLines: seq<string>,
                      cal: Calendar, inputs: seq<string>, pos: nat, marked: seq<nat>)
    requires pos < |inputs| && inputs[pos] != "x" && inputs[pos] != "X"
    requires Lower(inputs[pos]) != "1" && Lower(inputs[pos]) != "2"
    requires NamesLines(fixed, lines)
    ensures Menu(fixed, rebuilt, user, lines, userLines, cal, inputs, pos, marked) ==
      Menu(fixed, rebuilt, user, lines, userLines, cal, inputs, pos + 1, marked)
  {
    MenuAnswer(inputs, pos);
  }

  /** "1" at the menu runs `mark_task_complete` from the next answer on, then the menu goes on where it stopped. */
  lemma MenuOnMark(fixed: map<nat, nat>, rebuilt: bool, user: string, lines: seq<string>,
                   userLines: seq<string>, cal: Calendar, inputs: seq<string>, pos: nat, marked: seq<nat>)
    requires pos < |inputs| && Lower(inputs[pos]) == "1"
    requires NamesLines(fixed, lines)
    ensures Menu(fixed, rebuilt, user, lines, userLines, cal, inputs, pos, marked) ==
      Act(MarkAction, fixed, rebuilt, user, lines, userLines, cal, inputs, pos + 1, marked)
  {
    MenuAnswer(inputs, pos);
  }

  /** "2" at the menu runs `edit_task` from the next answer on, then the menu goes on where it stopped. */
  lemma MenuOnEdit(fixed: map<nat, nat>, rebuilt: bool, user: string, lines: seq<string>,
                   userLines: seq<string>, cal: Calendar, inputs: seq<string>, pos: nat, marked: seq<nat>)
    requires pos < |inputs| && Lower(inputs[pos]) == "2"
    requires NamesLines(fixed, lines)
    ensures Menu(fixed, rebuilt, user, lines, userLines, cal, inputs, pos, marked) ==
      Act(EditAction, fixed, rebuilt, user, lines, userLines, cal, inputs, pos + 1, marked)
  {
    MenuAnswer(inputs, pos);
  }

  /**
   * The first answer naming a task, read by `mark_task_complete`: the
   * lines and marks it leaves, and the answer after it is next.
   */
  lemma MarkOfAnswer(lines: seq<string>, userTasks: map<nat, nat>, inputs: seq<string>, from: nat, k: nat,
                     i: nat, marked: seq<nat>)
    requires NamesLines(userTasks, lines)
    requires FirstTaken(TaskNumberSteps(userTasks, inputs), from, k) && TaskNumberSteps(userTasks, inputs)[k] == Take(i)
    ensures i < |lines|
    ensures MarkDialogue(lines, userTasks, inputs, from).next == k + 1
    ensures AfterMark(lines, MarkDialogue(lines, userTasks, inputs, from).outcome) ==
      if IsCompleted(lines[i]) then lines else lines[i := MarkedComplete(lines[i])]
    ensures marked + MarkedBy(MarkDialogue(lines, userTasks, inputs, from).outcome) ==
      if IsCompleted(lines[i]) then marked else marked + [i]
  {
    MarkOfAnsweredTask(lines, userTasks, inputs, from, k);
    assert marked + [] == marked;
  }

  /**
   * The first answer naming a task, read by `edit_task`: a completed task
   * leaves the lines as they are and the answer after it is next.
   */
  lemma EditOfAnswer(lines: seq<string>, userTasks: map<nat, nat>, known: seq<string>, cal: Calendar,
                     inputs: seq<string>, from: nat, k: nat, i: nat)
    requires NamesLines(userTasks, lines)
    requires FirstTaken(TaskNumberSteps(userTasks, inputs), from, k) && TaskNumberSteps(userTasks, inputs)[k] == Take(i)
    ensures i < |lines|
    ensures IsCompleted(lines[i]) ==>
      && AfterEdit(lines, cal, EditDialogue(lines, userTasks, known, cal, inputs, from).outcome) == lines
      && EditDialogue(lines, userTasks, known, cal, inputs, from).next == k + 1
    ensures !IsCompleted(lines[i]) ==>
      EditDialogue(lines, userTasks, known, cal, inputs, from) == OpenEditDialogue(i, Owner(lines[i]), known, cal, inputs, k + 1)
  {
    EditOfAnsweredTask(lines, userTasks, known, cal, inputs, from, k);
  }

  /** `MenuMarksAnsweredTask` once the menu has taken the choice. */
  lemma MenuMarksTask(fixed: map<nat, nat>, rebuilt: bool, user: string, lines: seq<string>,
                      userLines: seq<string>, cal: Calendar, inputs: seq<string>, pos: nat,
                      marked: seq<nat>, k: nat, i: nat)
    requires pos < |inputs| && MenuSteps(inputs)[pos] == Take(MarkAction)
    requires NamesLines(fixed, lines)
    requires FirstTaken(TaskNumberSteps(Numbering(fixed, rebuilt, lines, user), inputs), pos + 1, k)
    requires TaskNumberSteps(Numbering(fixed, rebuilt, lines, user), inputs)[k] == Take(i)
    ensures i < |lines|
    ensures Menu(fixed, rebuilt, user, lines, userLines, cal, inputs, pos, marked) ==
      Menu(fixed, rebuilt, user, if IsCompleted(lines[i]) then lines else lines[i := MarkedComplete(lines[i])],
           userLines, cal, inputs, k + 1, if IsCompleted(lines[i]) then marked else marked + [i])
  {
    MarkOfAnswer(lines, Numbering(fixed, rebuilt, lines, user), inputs, pos + 1, k, i, marked);
    ActOfMark(fixed, rebuilt, user, lines, userLines, cal, inputs, pos + 1, marked);
  }

  /**
   * "1" followed by the first answer naming a task marks that task (or
   * finds it complete already), and the menu goes on after that answer.
   */
  lemma MenuMarksAnsweredTask(fixed: map<nat, nat>, rebuilt: bool, user: string, lines: seq<string>,
                              userLines: seq<string>, cal: Calendar, inputs: seq<string>, pos: nat,
                              marked: seq<nat>, k: nat, i: nat)
    requires pos < |inputs| && Lower(inputs[pos]) == "1"
    requires NamesLines(fixed, lines)
    requires FirstTaken(TaskNumberSteps(Numbering(fixed, rebuilt, lines, user), inputs), pos + 1, k)
    requires TaskNumberSteps(Numbering(fixed, rebuilt, lines, user), inputs)[k] == Take(i)
    ensures i < |lines|
    ensures Menu(fixed, rebuilt, user, lines, userLines, cal, inputs, pos, marked) ==
      Menu(fixed, rebuilt, user, if IsCompleted(lines[i]) then lines else lines[i := MarkedComplete(lines[i])],
           userLines, cal, inputs, k + 1, if IsCompleted(lines[i]) then marked else marked + [i])
  {
    MenuAnswer(inputs, pos);
    MenuMarksTask(fixed, rebuilt, user, lines, userLines, cal, inputs, pos, marked, k, i);
  }

  /** `MenuEditsAnsweredTask` once the menu has taken the choice. */
  lemma MenuEditsTask(fixed: map<nat, nat>, rebuilt: bool, user: string, lines: seq<string>,
                      userLines: seq<string>, cal: Calendar, inputs: seq<string>, pos: nat,
                      marked: seq<nat>, k: nat, i: nat)
    requires pos < |inputs| && MenuSteps(inputs)[pos] == Take(EditAction)
    requires NamesLines(fixed, lines)
    requires FirstTaken(TaskNumberSteps(Numbering(fixed, rebuilt, lines, user), inputs), pos + 1, k)
    requires TaskNumberSteps(Numbering(fixed, rebuilt, lines, user), inputs)[k] == Take(i)
    ensures i < |lines|
    ensures IsCompleted(lines[i]) ==>
      Menu(fixed, rebuilt, user, lines, userLines, cal, inputs, pos, marked) ==
        Menu(fixed, rebuilt, user, lines, userLines, cal, inputs, k + 1, marked)
    ensures !IsCompleted(lines[i]) ==>
      Menu(fixed, rebuilt, user, lines, userLines, cal, inputs, pos, marked) ==
        Menu(fixed, rebuilt, user,
             AfterEdit(lines, cal, OpenEditDialogue(i, Owner(lines[i]), Usernames(userLines), cal, inputs, k + 1).outcome),
             userLines, cal, inputs,
             OpenEditDialogue(i, Owner(lines[i]), Usernames(userLines), cal, inputs, k + 1).next, marked)
  {
    EditOfAnswer(lines, Numbering(fixed, rebuilt, lines, user), Usernames(userLines), cal, inputs, pos + 1, k, i);
    ActOfEdit(fixed, rebuilt, user, lines, userLines, cal, inputs, pos + 1, marked);
  }

  /**
   * "2" followed by the first answer naming a task edits that task: a
   * completed one is refused and the menu goes on after the answer; for
   * an open one the edit reads on from there and the menu goes on where
   * the edit stopped.
   */
  lemma MenuEditsAnsweredTask(fixed: map<nat, nat>, rebuilt: bool, user: string, lines: seq<string>,
                              userLines: seq<string>, cal: Calendar, inputs: seq<string>, pos: nat,
                              marked: seq<nat>, k: nat, i: nat)
    requires pos < |inputs| && Lower(inputs[pos]) == "2"
    requires NamesLines(fixed, lines)
    requires FirstTaken(TaskNumberSteps(Numbering(fixed, rebuilt, lines, user), inputs), pos + 1, k)
    requires TaskNumberSteps(Numbering(fixed, rebuilt, lines, user), inputs)[k] == Take(i)
    ensures i < |lines|
    ensures IsCompleted(lines[i]) ==>
      Menu(fixed, rebuilt, user, lines, userLines, cal, inputs, pos, marked) ==
        Menu(fixed, rebuilt, user, lines, userLines, cal, inputs, k + 1, marked)
    ensures !IsCompleted(lines[i]) ==>
      Menu(fixed, rebuilt, user, lines, userLines, cal, inputs, pos, marked) ==
        Menu(fixed, rebuilt, user,
             AfterEdit(lines, cal, OpenEditDialogue(i, Owner(lines[i]), Usernames(userLines), cal, inputs, k + 1).outcome),
             userLines, cal, inputs,
             OpenEditDialogue(i, Owner(lines[i]), Usernames(userLines), cal, inputs, k + 1).next, marked)
  {
    MenuAnswer(inputs, pos);
    MenuEditsTask(fixed, rebuilt, user, lines, userLines, cal, inputs, pos, marked, k, i);
  }

  /**
   * What a session may have done to the task list it started from: the
   * lines are as many as before, and a line that was not the current
   * user's task at the start is untouched.
   */
  ghost predicate OnlyOwnTasksTouched(start: seq<string>, lines: seq<string>, user: string) {
    && |lines| == |start|
    && (forall i :: 0 <= i < |lines| && !AssignedTo(start[i], user) ==> lines[i] == start[i])
  }

  /** Lines that were complete are still there, unchanged. */
  ghost predicate CompletedKept(before: seq<string>, after: seq<string>) {
    && |after| == |before|
    && (forall j :: 0 <= j < |before| && IsCompleted(before[j]) ==> after[j] == before[j])
  }

  /** No line became the user's task that was not already. */
  ghost predicate NoTaskGained(before: seq<string>, after: seq<string>, user: string) {
    && |after| == |before|
    && (forall i :: 0 <= i < |after| && AssignedTo(after[i], user) ==> AssignedTo(before[i], user))
  }

  /** The tasks marked in the session are all complete. */
  ghost predicate MarkedAreComplete(marked: seq<nat>, lines: seq<string>) {
    forall k :: 0 <= k < |marked| ==> marked[k] < |lines| && IsCompleted(lines[marked[k]])
  }

  /** The tasks marked in the session were all the user's in `lines`. */
  ghost predicate MarkedWereOwn(marked: seq<nat>, lines: seq<string>, user: string) {
    forall k :: 0 <= k < |marked| ==> marked[k] < |lines| && AssignedTo(lines[marked[k]], user)
  }

  lemma MarkedGrow(marked: seq<nat>, newly: seq<nat>, lines: seq<string>)
    requires MarkedAreComplete(marked, lines) && MarkedAreComplete(newly, lines)
    ensures MarkedAreComplete(marked + newly, lines)
  {
    var all := marked + newly;
    forall k | 0 <= k < |all| ensures all[k] < |lines| && IsCompleted(lines[all[k]]) {
      if k < |marked| {
        assert all[k] == marked[k];
      } else {
        assert all[k] == newly[k - |marked|];
      }
    }
  }

  lemma OwnMarkedGrow(marked: seq<nat>, newly: seq<nat>, lines: seq<string>, user: string)
    requires MarkedWereOwn(marked, lines, user) && MarkedWereOwn(newly, lines, user)
    ensures MarkedWereOwn(marked + newly, lines, user)
  {
    var all := marked + newly;
    forall k | 0 <= k < |all| ensures all[k] < |lines| && AssignedTo(lines[all[k]], user) {
      if k < |marked| {
        assert all[k] == marked[k];
      } else {
        assert all[k] == newly[k - |marked|];
      }
    }
  }

  /**
   * What one menu action taken with the display map of `ref` may do to
   * `before`: it keeps the session's frame, leaves complete lines as they
   * were, leaves every line it changes with at least six fields, and a
   * line can only become the user's task if it was the user's in `before` or in
   * `ref`.
   */
  ghost predicate ActionKept(start: seq<string>, ref: seq<string>, before: seq<string>, after: seq<string>,
                             user: string)
  {
    && OnlyOwnTasksTouched(start, after, user)
    && CompletedKept(before, after)
    && ChangedWellFormed(before, after)
    && |ref| == |after|
    && (forall i :: 0 <= i < |after| && AssignedTo(after[i], user) ==>
          AssignedTo(before[i], user) || AssignedTo(ref[i], user))
  }

  /**
   * What menu choice "1" may do: it is an action the session may take
   * that gives no line to the user, and it marks at most one task, which
   * is now complete, was the user's in `ref` and keeps its assignee.
   */
  ghost predicate MarkKept(start: seq<string>, ref: seq<string>, before: seq<string>, after: seq<string>,
                           user: string, newly: seq<nat>)
  {
    && ActionKept(start, ref, before, after, user)
    && NoTaskGained(before, after, user)
    && |newly| <= 1
    && MarkedAreComplete(newly, after)
    && MarkedWereOwn(newly, ref, user)
    && (forall k :: 0 <= k < |newly| ==> Owner(after[newly[k]]) == Owner(before[newly[k]]))
  }

  /**
   * Marking an open task with at least six fields that is the user's in
   * `ref` (and so at the start) is what menu choice "1" may do.
   */
  lemma MarkKeepsFrame(start: seq<string>, ref: seq<string>, lines: seq<string>, user: string, i: nat)
    requires OnlyOwnTasksTouched(start, lines, user)
    requires i < |lines| && AssignedTo(start[i], user) && !IsCompleted(lines[i]) && WellFormed(lines[i])
    requires |ref| == |lines| && AssignedTo(ref[i], user)
    ensures MarkKept(start, ref, lines, lines[i := MarkedComplete(lines[i])], user, [i])
  {
    MarkKeepsOwner(lines[i]);
  }

  /**
   * An edit that `edit_task` reports as made, on an open task with at
   * least six fields that is the user's in `ref`, is an action the session may take.
   */
  lemma EditKeepsFrame(start: seq<string>, ref: seq<string>, lines: seq<string>, user: string,
                       userLines: seq<string>, cal: Calendar, outcome: EditOutcome)
    requires OnlyOwnTasksTouched(start, lines, user)
    requires FormatsCleanly(cal)
    requires outcome.Reassigned? || outcome.Redated?
    requires outcome.index < |lines| && AssignedTo(start[outcome.index], user) && WellFormed(lines[outcome.index])
    requires |ref| == |lines| && AssignedTo(ref[outcome.index], user)
    requires !IsCompleted(lines[outcome.index])
    requires outcome.Reassigned? ==> outcome.user in Usernames(userLines)
    ensures ActionKept(start, ref, lines, AfterEdit(lines, cal, outcome), user)
  {
    EditEffect(lines, userLines, cal, outcome);
  }

  /** Doing nothing is an action the session may take. */
  lemma NothingKeepsFrame(start: seq<string>, ref: seq<string>, lines: seq<string>, user: string)
    requires OnlyOwnTasksTouched(start, lines, user)
    requires |ref| == |lines|
    ensures ActionKept(start, ref, lines, lines, user)
    ensures MarkKept(start, ref, lines, lines, user, [])
  {
  }

  /**
   * Menu choice "1", reading from `from`, with the display map `userTasks`
   * of `ref` (the list as it was when the map was built): it is
   * `mark_task_complete`, and the one task it may mark was the user's in
   * `ref`; a mark changes no assignee.
   */
  method ChooseMark(tasks: TaskList, userTasks: map<nat, nat>, ghost ref: seq<string>, ghost start: seq<string>,
                    currentUser: string, inputs: seq<string>, from: nat)
    returns (outcome: MarkOutcome, next: nat)
    requires from <= |inputs|
    requires OnlyOwnTasksTouched(start, tasks.lines, currentUser)
    requires Workable(userTasks, tasks.lines, currentUser)
    requires IsDisplayMap(userTasks, ref, currentUser)
    requires |ref| == |tasks.lines|
    requires forall i :: 0 <= i < |ref| && AssignedTo(ref[i], currentUser) ==> AssignedTo(start[i], currentUser)
    modifies tasks
    ensures Dialogue(outcome, next) == MarkDialogue(old(tasks.lines), userTasks, inputs, from)
    ensures tasks.lines == AfterMark(old(tasks.lines), outcome)
    ensures MarkKept(start, ref, old(tasks.lines), tasks.lines, currentUser, MarkedBy(outcome))
  {
    ghost var before := tasks.lines;
    outcome, next := tasks.MarkTaskComplete(userTasks, inputs, from);
    if outcome.Marked? {
      var d :| d in userTasks && userTasks[d] == outcome.index;
      MarkKeepsFrame(start, ref, before, currentUser, outcome.index);
    } else {
      NothingKeepsFrame(start, ref, before, currentUser);
    }
  }

  /**
   * Menu choice "2", reading from `from`, with the display map `userTasks`
   * of `ref`: it is `edit_task`; complete lines stay as they are, and a
   * line can only become the user's task if it was the user's in `ref`.
   */
  method ChooseEdit(tasks: TaskList, userTasks: map<nat, nat>, ghost ref: seq<string>, ghost start: seq<string>,
                    currentUser: string, userLines: seq<string>, cal: Calendar, inputs: seq<string>, from: nat)
    returns (outcome: EditOutcome, next: nat)
    requires from <= |inputs|
    requires OnlyOwnTasksTouched(start, tasks.lines, currentUser)
    requires Workable(userTasks, tasks.lines, currentUser)
    requires IsDisplayMap(userTasks, ref, currentUser)
    requires |ref| == |tasks.lines|
    requires forall i :: 0 <= i < |ref| && AssignedTo(ref[i], currentUser) ==> AssignedTo(start[i], currentUser)
    requires FormatsCleanly(cal)
    modifies tasks
    ensures Dialogue(outcome, next) == EditDialogue(old(tasks.lines), userTasks, Usernames(userLines), cal, inputs, from)
    ensures outcome.Reassigned? || outcome.Redated? ==>
      outcome.index < |old(tasks.lines)| && WellFormed(old(tasks.lines)[outcome.index])
    ensures tasks.lines == AfterEdit(old(tasks.lines), cal, outcome)
    ensures ActionKept(start, ref, old(tasks.lines), tasks.lines, currentUser)
  {
    ghost var before := tasks.lines;
    outcome, next := tasks.EditTask(userTasks, userLines, cal, inputs, from);
    if outcome.Reassigned? || outcome.Redated? {
      var d :| d in userTasks && userTasks[d] == outcome.index;
      EditKeepsFrame(start, ref, before, currentUser, userLines, cal, outcome);
    } else {
      NothingKeepsFrame(start, ref, before, currentUser);
    }
  }

  /**
   * What `view_mine` keeps between menu actions: only lines the user
   * had at the start are touched, completed lines stay as they were, and
   * every task marked so far is complete and was the user's at the start.
   */
  ghost predicate SessionFrame(start: seq<string>, lines: seq<string>, marked: seq<nat>, user: string) {
    && OnlyOwnTasksTouched(start, lines, user)
    && CompletedKept(start, lines)
    && MarkedAreComplete(marked, lines)
    && MarkedWereOwn(marked, start, user)
  }

  /** A mark with the numbering built at the start keeps the session's frame. */
  lemma MarkKeepsSession(start: seq<string>, before: seq<string>, after: seq<string>, user: string,
                         marked: seq<nat>, newly: seq<nat>)
    requires SessionFrame(start, before, marked, user)
    requires MarkKept(start, start, before, after, user, newly)
    ensures SessionFrame(start, after, marked + newly, user)
  {
    MarkedGrow(marked, newly, after);
    OwnMarkedGrow(marked, newly, start, user);
  }

  /** An edit with the numbering built at the start keeps the session's frame. */
  lemma EditKeepsSession(start: seq<string>, before: seq<string>, after: seq<string>, user: string,
                         marked: seq<nat>)
    requires SessionFrame(start, before, marked, user)
    requires ActionKept(start, start, before, after, user)
    ensures SessionFrame(start, after, marked, user)
  {
  }

  /**
   * One pass of the menu loop of `view_mine` on an answer other than "x":
   * "1" marks, "2" edits, anything else is passed over. The pass is the
   * step `Menu` takes there, and it keeps the session's frame.
   */
  method MenuRound(tasks: TaskList, userTasks: map<nat, nat>, ghost start: seq<string>, currentUser: string,
                   userLines: seq<string>, cal: Calendar, inputs: seq<string>, pos: nat, marked: seq<nat>)
    returns (next: nat, nowMarked: seq<nat>)
    requires pos < |inputs| && !MenuSteps(inputs)[pos].Cancel?
    requires FormatsCleanly(cal)
    requires IsDisplayMap(userTasks, start, currentUser)
    requires Workable(userTasks, tasks.lines, currentUser)
    requires SessionFrame(start, tasks.lines, marked, currentUser)
    modifies tasks
    ensures pos < next <= |inputs|
    ensures Workable(userTasks, tasks.lines, currentUser)
    ensures SessionFrame(start, tasks.lines, nowMarked, currentUser)
    ensures Menu(userTasks, false, currentUser, tasks.lines, userLines, cal, inputs, next, nowMarked) ==
      Menu(userTasks, false, currentUser, old(tasks.lines), userLines, cal, inputs, pos, marked)
  {
    StepsAt(MenuStep, inputs, pos);
    var choice := Lower(inputs[pos]);
    ghost var before := tasks.lines;
    if choice == "1" {
      var outcome;
      outcome, next := ChooseMark(tasks, userTasks, start, start, currentUser, inputs, pos + 1);
      MenuOnMark(userTasks, false, currentUser, before, userLines, cal, inputs, pos, marked);
      StaysWorkable(userTasks, before, tasks.lines, currentUser);
      MarkKeepsSession(start, before, tasks.lines, currentUser, marked, MarkedBy(outcome));
      nowMarked := marked + MarkedBy(outcome);
    } else if choice == "2" {
      var outcome;
      outcome, next := ChooseEdit(tasks, userTasks, start, start, currentUser, userLines, cal, inputs, pos + 1);
      MenuOnEdit(userTasks, false, currentUser, before, userLines, cal, inputs, pos, marked);
      StaysWorkable(userTasks, before, tasks.lines, currentUser);
      EditKeepsSession(start, before, tasks.lines, currentUser, marked);
      nowMarked := marked;
    } else {
      next, nowMarked := pos + 1, marked;
    }
  }

  /**
   * The menu loop of `view_mine`, over the numbering `userTasks` of the
   * lines at the start: it is `Menu`, and it keeps the session's frame.
   */
  method MenuLoop(tasks: TaskList, userTasks: map<nat, nat>, currentUser: string, userLines: seq<string>,
                  cal: Calendar, inputs: seq<string>)
    returns (finish: SessionEnd, marked: seq<nat>)
    requires IsDisplayMap(userTasks, tasks.lines, currentUser)
    requires OwnLinesWellFormed(tasks.lines, currentUser)
    requires FormatsCleanly(cal)
    modifies tasks
    ensures SessionState(finish, tasks.lines, marked) ==
      Menu(userTasks, false, currentUser, old(tasks.lines), userLines, cal, inputs, 0, [])
    ensures SessionFrame(old(tasks.lines), tasks.lines, marked, currentUser)
  {
    ghost var start := tasks.lines;
    ghost var whole := Menu(userTasks, false, currentUser, start, userLines, cal, inputs, 0, []);
    marked := [];
    var pos := 0;
    while pos < |inputs|
      invariant pos <= |inputs|
      invariant IsDisplayMap(userTasks, start, currentUser)
      invariant Workable(userTasks, tasks.lines, currentUser)
      invariant Menu(userTasks, false, currentUser, tasks.lines, userLines, cal, inputs, pos, marked) == whole
      invariant SessionFrame(start, tasks.lines, marked, currentUser)
      decreases |inputs| - pos
    {
      StepsAt(MenuStep, inputs, pos);
      if IsCancel(Lower(inputs[pos])) {
        return Exited, marked;
      }
      pos, marked := MenuRound(tasks, userTasks, start, currentUser, userLines, cal, inputs, pos, marked);
    }
    return SessionInputEnded, marked;
  }

  /**
   * `view_mine` as written: the session is `Menu` over the numbering
   * built at the start. Every task it marks complete was the user's task
   * when the session began, only those tasks are touched, and completed
   * lines stay as they were; whether a task is still the user's when it
   * is marked is not promised (see `StaleEntryAfterReassign`).
   */
  method ViewMine(tasks: TaskList, currentUser: string, userLines: seq<string>, cal: Calendar,
                  inputs: seq<string>)
    returns (finish: SessionEnd, marked: seq<nat>)
    requires OwnLinesWellFormed(tasks.lines, currentUser)
    requires FormatsCleanly(cal)
    modifies tasks
    ensures finish.NothingAssigned? <==> OwnedCount(old(tasks.lines), currentUser) == 0
    ensures finish.NothingAssigned? ==> tasks.lines == old(tasks.lines) && marked == []
    ensures !finish.NothingAssigned? ==>
      SessionState(finish, tasks.lines, marked) ==
        Menu(DisplayMap(old(tasks.lines), currentUser), false, currentUser, old(tasks.lines), userLines, cal, inputs, 0, [])
    ensures OnlyOwnTasksTouched(old(tasks.lines), tasks.lines, currentUser)
    ensures CompletedKept(old(tasks.lines), tasks.lines)
    ensures MarkedAreComplete(marked, tasks.lines)
    ensures MarkedWereOwn(marked, old(tasks.lines), currentUser)
  {
    var userTasks := BuildUserTasks(tasks.lines, currentUser);
    if OwnedCount(tasks.lines, currentUser) > 0 {
      assert 1 in userTasks;
    }
    if |userTasks.Keys| == 0 {
      return NothingAssigned, [];
    }
    finish, marked := MenuLoop(tasks, userTasks, currentUser, userLines, cal, inputs);
  }

  /**
   * The numbering `view_mine` builds goes stale: after the user's only
   * task is reassigned to another user (an edit the session allows),
   * display number 1 still names that line, so choosing "1" marks a task
   * that is no longer the user's; the map is no longer the display map of
   * the list.
   */
  lemma StaleEntryAfterReassign(line: string, user: string, other: string, userLines: seq<string>)
    requires WellFormed(line) && AssignedTo(line, user) && !IsCompleted(line)
    requires other in Usernames(userLines) && Lower(other) != Lower(user)
    ensures IsDisplayMap(map[1 := 0], [line], user)
    ensures var after := [Reassign(line, other)];
      && OnlyOwnTasksTouched([line], after, user)
      && !IsCompleted(after[0])
      && !AssignedTo(after[map[1 := 0][1]], user)
      && !IsDisplayMap(map[1 := 0], after, user)
  {
    ExistingUserFits(other, userLines);
    ReassignChangesOnlyAssignee(line, other);
    var owners := Owners([line]);
    assert Positions(owners, Lower(user), 1) == Positions(owners, Lower(user), 0) + [0];
    assert OwnedCount([line], user) == 1;
    var m := map[1 := 0];
    assert forall d :: d in m <==> 1 <= d <= OwnedCount([line], user);
    assert forall i :: 0 <= i < |[line]| && AssignedTo([line][i], user) ==> m[1] == i;
    var after := [Reassign(line, other)];
    assert after[0] == Reassign(line, other);
    assert !AssignedTo(after[0], user);
  }

  /**
   * What `ViewMineFresh` keeps between menu actions: besides the frame of
   * `view_mine`, no line has become the user's, and every task marked so
   * far is still the user's.
   */
  ghost predicate FreshFrame(start: seq<string>, lines: seq<string>, marked: seq<nat>, user: string) {
    && OnlyOwnTasksTouched(start, lines, user)
    && CompletedKept(start, lines)
    && NoTaskGained(start, lines, user)
    && MarkedAreComplete(marked, lines)
    && MarkedWereOwn(marked, lines, user)
  }

  /** A mark with the numbering rebuilt from `before` keeps the frame of `ViewMineFresh`. */
  lemma MarkKeepsFreshSession(start: seq<string>, before: seq<string>, after: seq<string>, user: string,
                              marked: seq<nat>, newly: seq<nat>)
    requires FreshFrame(start, before, marked, user)
    requires MarkKept(start, before, before, after, user, newly)
    ensures FreshFrame(start, after, marked + newly, user)
  {
    assert MarkedWereOwn(newly, after, user);
    MarkedGrow(marked, newly, after);
    OwnMarkedGrow(marked, newly, after, user);
  }

  /** An edit with the numbering rebuilt from `before` keeps the frame of `ViewMineFresh`. */
  lemma EditKeepsFreshSession(start: seq<string>, before: seq<string>, after: seq<string>, user: string,
                              marked: seq<nat>)
    requires FreshFrame(start, before, marked, user)
    requires ActionKept(start, before, before, after, user)
    ensures FreshFrame(start, after, marked, user)
  {
  }

  /**
   * One pass of the menu loop of `ViewMineFresh` on an answer other than
   * "x": the numbering is rebuilt from the current lines, then "1" marks,
   * "2" edits, anything else is passed over. The pass is the step `Menu`
   * takes there, and it keeps the frame of `ViewMineFresh`.
   */
  method FreshMenuRound(tasks: TaskList, ghost fixed: map<nat, nat>, ghost start: seq<string>, currentUser: string,
                        userLines: seq<string>, cal: Calendar, inputs: seq<string>, pos: nat, marked: seq<nat>)
    returns (next: nat, nowMarked: seq<nat>)
    requires pos < |inputs| && !MenuSteps(inputs)[pos].Cancel?
    requires FormatsCleanly(cal)
    requires Workable(fixed, tasks.lines, currentUser)
    requires FreshFrame(start, tasks.lines, marked, currentUser)
    modifies tasks
    ensures pos < next <= |inputs|
    ensures Workable(fixed, tasks.lines, currentUser)
    ensures FreshFrame(start, tasks.lines, nowMarked, currentUser)
    ensures Menu(fixed, true, currentUser, tasks.lines, userLines, cal, inputs, next, nowMarked) ==
      Menu(fixed, true, currentUser, old(tasks.lines), userLines, cal, inputs, pos, marked)
  {
    StepsAt(MenuStep, inputs, pos);
    var choice := Lower(inputs[pos]);
    ghost var before := tasks.lines;
    var userTasks := BuildUserTasks(tasks.lines, currentUser);
    assert userTasks == Numbering(fixed, true, tasks.lines, currentUser);
    NumberingIsWorkable(fixed, true, tasks.lines, currentUser);
    if choice == "1" {
      var outcome;
      outcome, next := ChooseMark(tasks, userTasks, before, start, currentUser, inputs, pos + 1);
      MenuOnMark(fixed, true, currentUser, before, userLines, cal, inputs, pos, marked);
      StaysWorkable(fixed, before, tasks.lines, currentUser);
      MarkKeepsFreshSession(start, before, tasks.lines, currentUser, marked, MarkedBy(outcome));
      nowMarked := marked + MarkedBy(outcome);
    } else if choice == "2" {
      var outcome;
      outcome, next := ChooseEdit(tasks, userTasks, before, start, currentUser, userLines, cal, inputs, pos + 1);
      MenuOnEdit(fixed, true, currentUser, before, userLines, cal, inputs, pos, marked);
      StaysWorkable(fixed, before, tasks.lines, currentUser);
      EditKeepsFreshSession(start, before, tasks.lines, currentUser, marked);
      nowMarked := marked;
    } else {
      next, nowMarked := pos + 1, marked;
    }
  }

  /**
   * The menu loop of `ViewMineFresh`, over the numbering `userTasks` of the
   * lines at the start: it is `Menu`, and it keeps the frame of `ViewMineFresh`.
   */
  method FreshMenuLoop(tasks: TaskList, userTasks: map<nat, nat>, currentUser: string, userLines: seq<string>,
                       cal: Calendar, inputs: seq<string>)
    returns (finish: SessionEnd, marked: seq<nat>)
    requires IsDisplayMap(userTasks, tasks.lines, currentUser)
    requires OwnLinesWellFormed(tasks.lines, currentUser)
    requires FormatsCleanly(cal)
    modifies tasks
    ensures SessionState(finish, tasks.lines, marked) ==
      Menu(userTasks, true, currentUser, old(tasks.lines), userLines, cal, inputs, 0, [])
    ensures FreshFrame(old(tasks.lines), tasks.lines, marked, currentUser)
  {
    ghost var start := tasks.lines;
    ghost var whole := Menu(userTasks, true, currentUser, start, userLines, cal, inputs, 0, []);
    marked := [];
    var pos := 0;
    while pos < |inputs|
      invariant pos <= |inputs|
      invariant Workable(userTasks, tasks.lines, currentUser)
      invariant Menu(userTasks, true, currentUser, tasks.lines, userLines, cal, inputs, pos, marked) == whole
      invariant FreshFrame(start, tasks.lines, marked, currentUser)
      decreases |inputs| - pos
    {
      StepsAt(MenuStep, inputs, pos);
      if IsCancel(Lower(inputs[pos])) {
        return Exited, marked;
      }
      pos, marked := FreshMenuRound(tasks, userTasks, start, currentUser, userLines, cal, inputs, pos, marked);
    }
    return SessionInputEnded, marked;
  }

  /**
   * `view_mine` with the numbering rebuilt from the current list before
   * every action: the session is `Menu` with `rebuilt` set. Besides what
   * `ViewMine` promises, no task becomes the user's, and every task the
   * session marks is still the user's task at the end.
   */
  method ViewMineFresh(tasks: TaskList, currentUser: string, userLines: seq<string>, cal: Calendar,
                       inputs: seq<string>)
    returns (finish: SessionEnd, marked: seq<nat>)
    requires OwnLinesWellFormed(tasks.lines, currentUser)
    requires FormatsCleanly(cal)
    modifies tasks
    ensures finish.NothingAssigned? <==> OwnedCount(old(tasks.lines), currentUser) == 0
    ensures finish.NothingAssigned? ==> tasks.lines == old(tasks.lines) && marked == []
    ensures !finish.NothingAssigned? ==>
      SessionState(finish, tasks.lines, marked) ==
        Menu(DisplayMap(old(tasks.lines), currentUser), true, currentUser, old(tasks.lines), userLines, cal, inputs, 0, [])
    ensures OnlyOwnTasksTouched(old(tasks.lines), tasks.lines, currentUser)
    ensures CompletedKept(old(tasks.lines), tasks.lines)
    ensures NoTaskGained(old(tasks.lines), tasks.lines, currentUser)
    ensures MarkedAreComplete(marked, tasks.lines)
    ensures MarkedWereOwn(marked, tasks.lines, currentUser)
  {
    var userTasks := BuildUserTasks(tasks.lines, currentUser);
    if OwnedCount(tasks.lines, currentUser) > 0 {
      assert 1 in userTasks;
    }
    if |userTasks.Keys| == 0 {
      return NothingAssigned, [];
    }
    finish, marked := FreshMenuLoop(tasks, userTasks, currentUser, userLines, cal, inputs);
  }
}
