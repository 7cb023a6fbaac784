/**
 * The task file as a list of lines, and the four operations that change
 * it: adding a task (appended after the trailing-newline check), marking
 * one complete, editing its assignee or due date, and deleting one.
 */
module Tasks {
  import opened Wrappers
  import opened Text
  import opened FileText
  import opened Dates
  import opened TaskLine
  import opened Prompts
  import opened Users
  import opened Selection

  /** `tasks.pop(i)`: the list without element `i`, the others in order. */
  function RemoveAt(lines: seq<string>, i: nat): (r: seq<string>)
    requires i < |lines|
    ensures |r| == |lines| - 1
    ensures forall j :: 0 <= j < i ==> r[j] == lines[j]
    ensures forall j :: i <= j < |r| ==> r[j] == lines[j + 1]
    ensures multiset(r) + multiset{lines[i]} == multiset(lines)
  {
    assert lines == lines[..i] + [lines[i]] + lines[i + 1..];
    lines[..i] + lines[i + 1..]
  }

  datatype AddOutcome =
    | Added(assignee: string, title: string, description: string, due: Date)
    | AddCancelled
    | AddInputEnded

  datatype MarkOutcome =
    | Marked(index: nat)
    | AlreadyComplete(index: nat)
    | MarkCancelled
    | MarkInputEnded

  /** Why an edit of an open task ended without a change. */
  datatype Refusal =
    | ChoiceCancelled
    | ReassignCancelled
    | UnknownUser
    | SameAssignee
    | RedateCancelled
    | InvalidDate
  {
    predicate AssigneeRefusal() {
      ReassignCancelled? || UnknownUser? || SameAssignee?
    }

    predicate DueDateRefusal() {
      RedateCancelled? || InvalidDate?
    }
  }

  datatype EditOutcome =
    | Reassigned(index: nat, user: string)
    | Redated(index: nat, due: Date)
    | Immutable(index: nat)
    | NotChanged(index: nat, why: Refusal)
    | EditCancelled
    | EditInputEnded
  {
    predicate Chosen() {
      Reassigned? || Redated? || Immutable? || NotChanged?
    }
  }

  datatype DeleteOutcome =
    | Deleted(index: nat)
    | Kept(index: nat)
    | NoTasks
    | DeleteCancelled
    | DeleteInputEnded

  // ---------------------------------------------------------------------
  // The prompt loops of add_task, edit_task and delete_task
  // ---------------------------------------------------------------------

  /** `input().lower().strip()`, as the assignee prompt reads it. */
  function AssigneeAnswer(input: string): string {
    Strip(Lower(input))
  }

  /**
   * The assignee prompt of `add_task`: the answer is lower-cased and
   * stripped; "x" cancels, an existing username is taken, anything else
   * is asked for again.
   */
  function AssigneeStep(existing: seq<string>, input: string): Step<string> {
    var answer := AssigneeAnswer(input);
    if IsCancel(answer) then Cancel
    else if answer in existing then Take(answer)
    else Retry
  }

  /** The steps of the assignee prompt over the typed lines. */
  function AssigneeSteps(existing: seq<string>, inputs: seq<string>): seq<Step<string>> {
    Steps(input => AssigneeStep(existing, input), inputs)
  }

  /** The assignee loop itself. */
  method ReadAssignee(existing: seq<string>, inputs: seq<string>, from: nat) returns (r: Reply<string>, next: nat)
    requires from <= |inputs|
    ensures Read(r, next) == Run(AssigneeSteps(existing, inputs), from)
  {
    next := from;
    while next < |inputs|
      invariant from <= next <= |inputs|
      invariant Run(AssigneeSteps(existing, inputs), next) == Run(AssigneeSteps(existing, inputs), from)
    {
      StepsAt(input => AssigneeStep(existing, input), inputs, next);
      var answer := AssigneeAnswer(inputs[next]);
      next := next + 1;
      if IsCancel(answer) {
        return Cancelled, next;
      }
      if answer in existing {
        return Accepted(answer), next;
      }
    }
    return Exhausted, next;
  }

  /**
   * The title and description prompts of `add_task`: "x" cancels; an
   * answer that is not blank once stripped is taken as typed; a blank
   * one is asked for again.
   */
  function NonBlankStep(input: string): Step<string> {
    if IsCancel(input) then Cancel
    else if Strip(input) != "" then Take(input)
    else Retry
  }

  /** The steps of the title or description prompt over the typed lines. */
  function NonBlankSteps(inputs: seq<string>): seq<Step<string>> {
    Steps(NonBlankStep, inputs)
  }

  /** The title or description loop itself. */
  method ReadNonBlank(inputs: seq<string>, from: nat) returns (r: Reply<string>, next: nat)
    requires from <= |inputs|
    ensures Read(r, next) == Run(NonBlankSteps(inputs), from)
  {
    next := from;
    while next < |inputs|
      invariant from <= next <= |inputs|
      invariant Run(NonBlankSteps(inputs), next) == Run(NonBlankSteps(inputs), from)
    {
      StepsAt(NonBlankStep, inputs, next);
      var answer := inputs[next];
      next := next + 1;
      if IsCancel(answer) {
        return Cancelled, next;
      }
      if Strip(answer) != "" {
        return Accepted(answer), next;
      }
    }
    return Exhausted, next;
  }

  /**
   * The due-date prompt of `add_task`: "x" cancels, an answer that parses
   * as a date is taken, anything else is asked for again.
   */
  function DueDateStep(cal: Calendar, input: string): Step<Date> {
    if IsCancel(input) then Cancel
    else if cal.parse(input).Some? then Take(cal.parse(input).value)
    else Retry
  }

  /** The steps of the due-date prompt over the typed lines. */
  function DueDateSteps(cal: Calendar, inputs: seq<string>): seq<Step<Date>> {
    Steps(input => DueDateStep(cal, input), inputs)
  }

  /** The due-date loop itself. */
  method ReadDueDate(cal: Calendar, inputs: seq<string>, from: nat) returns (r: Reply<Date>, next: nat)
    requires from <= |inputs|
    ensures Read(r, next) == Run(DueDateSteps(cal, inputs), from)
  {
    next := from;
    while next < |inputs|
      invariant from <= next <= |inputs|
      invariant Run(DueDateSteps(cal, inputs), next) == Run(DueDateSteps(cal, inputs), from)
    {
      StepsAt(input => DueDateStep(cal, input), inputs, next);
      var answer := inputs[next];
      next := next + 1;
      if IsCancel(answer) {
        return Cancelled, next;
      }
      var parsed := cal.parse(answer);
      if parsed.Some? {
        return Accepted(parsed.value), next;
      }
    }
    return Exhausted, next;
  }

  /** `isdigit()` and `0 <= int(s) - 1 < count`. */
  predicate InRange(input: string, count: nat) {
    IsDigits(input) && 1 <= DigitsValue(input) <= count
  }

  /**
   * The task-number prompt of `delete_task`, `count` being the number of
   * tasks in the file: "x" cancels; a number from 1 to `count` is taken
   * as the index one below it; anything else is asked for again.
   */
  function DeleteNumberStep(count: nat, input: string): (s: Step<nat>)
    ensures s.Take? ==> s.value < count
  {
    if IsCancel(input) then Cancel
    else if InRange(input, count) then Take(DigitsValue(input) - 1)
    else Retry
  }

  /** The steps of the task-number prompt of `delete_task` over the typed lines. */
  function DeleteNumberSteps(count: nat, inputs: seq<string>): seq<Step<nat>> {
    Steps(input => DeleteNumberStep(count, input), inputs)
  }

  /** The task-number loop of `delete_task` itself. */
  method ReadDeleteNumber(count: nat, inputs: seq<string>, from: nat) returns (r: Reply<nat>, next: nat)
    requires from <= |inputs|
    ensures Read(r, next) == Run(DeleteNumberSteps(count, inputs), from)
    ensures r.Accepted? ==> r.value < count
  {
    next := from;
    while next < |inputs|
      invariant from <= next <= |inputs|
      invariant Run(DeleteNumberSteps(count, inputs), next) == Run(DeleteNumberSteps(count, inputs), from)
    {
      StepsAt(input => DeleteNumberStep(count, input), inputs, next);
      var answer := inputs[next];
      next := next + 1;
      if IsCancel(answer) {
        return Cancelled, next;
      }
      if IsDigits(answer) {
        var number := DigitsValue(answer) - 1;
        if 0 <= number < count {
          return Accepted(number), next;
        }
      }
    }
    return Exhausted, next;
  }

  /** `input().lower().strip()`, as the confirmation prompt reads it. */
  function ConfirmAnswer(input: string): string {
    Strip(Lower(input))
  }

  /** The two answers that end the confirmation prompt. */
  datatype Confirm = Yes | No

  /**
   * The confirmation prompt of `delete_task`: the answer is lower-cased
   * and stripped; "yes" and "no" are taken, anything else is asked for
   * again. There is no cancel key here.
   */
  function ConfirmStep(input: string): Step<Confirm> {
    var answer := ConfirmAnswer(input);
    if answer == "yes" then Take(Yes)
    else if answer == "no" then Take(No)
    else Retry
  }

  /** The steps of the confirmation prompt over the typed lines. */
  function ConfirmSteps(inputs: seq<string>): seq<Step<Confirm>> {
    Steps(ConfirmStep, inputs)
  }

  /** The confirmation prompt has no cancel key: it ends with an answer or for lack of input. */
  lemma ConfirmNeverCancels(inputs: seq<string>, from: nat)
    requires from <= |inputs|
    ensures !Run(ConfirmSteps(inputs), from).reply.Cancelled?
  {
    var r := Run(ConfirmSteps(inputs), from);
    if from < r.next {
      StepsAt(ConfirmStep, inputs, r.next - 1);
    }
  }

  /** The confirmation loop itself. */
  method ReadConfirm(inputs: seq<string>, from: nat) returns (r: Reply<Confirm>, next: nat)
    requires from <= |inputs|
    ensures Read(r, next) == Run(ConfirmSteps(inputs), from)
  {
    next := from;
    while next < |inputs|
      invariant from <= next <= |inputs|
      invariant Run(ConfirmSteps(inputs), next) == Run(ConfirmSteps(inputs), from)
    {
      StepsAt(ConfirmStep, inputs, next);
      var answer := ConfirmAnswer(inputs[next]);
      next := next + 1;
      if answer == "yes" {
        return Accepted(Yes), next;
      }
      if answer == "no" {
        return Accepted(No), next;
      }
    }
    return Exhausted, next;
  }

  /** The two things `edit_task` can change. */
  datatype EditField = AssigneeOption | DueDateOption

  /**
   * The option prompt of `edit_task`: the answer is lower-cased; "x"
   * cancels, "1" picks the assignee and "2" the due date; anything else
   * is asked for again.
   */
  function EditOptionStep(input: string): Step<EditField> {
    var option := Lower(input);
    if option == "x" then Cancel
    else if option == "1" then Take(AssigneeOption)
    else if option == "2" then Take(DueDateOption)
    else Retry
  }

  /** The steps of the option prompt over the typed lines. */
  function EditOptionSteps(inputs: seq<string>): seq<Step<EditField>> {
    Steps(EditOptionStep, inputs)
  }

  /**
   * The option prompt cancels exactly on "x" in either case, and takes
   * "1" as the assignee and "2" as the due date.
   */
  lemma EditOptionAnswer(inputs: seq<string>, k: nat)
    requires k < |inputs|
    ensures EditOptionSteps(inputs)[k].Cancel? <==> inputs[k] == "x" || inputs[k] == "X"
    ensures EditOptionSteps(inputs)[k] == Take(AssigneeOption) <==> Lower(inputs[k]) == "1"
    ensures EditOptionSteps(inputs)[k] == Take(DueDateOption) <==> Lower(inputs[k]) == "2"
  {
    StepsAt(EditOptionStep, inputs, k);
    LowerIsX(inputs[k]);
  }

  /** The option loop itself. */
  method ReadEditOption(inputs: seq<string>, from: nat) returns (r: Reply<EditField>, next: nat)
    requires from <= |inputs|
    ensures Read(r, next) == Run(EditOptionSteps(inputs), from)
  {
    next := from;
    while next < |inputs|
      invariant from <= next <= |inputs|
      invariant Run(EditOptionSteps(inputs), next) == Run(EditOptionSteps(inputs), from)
    {
      StepsAt(EditOptionStep, inputs, next);
      var option := Lower(inputs[next]);
      next := next + 1;
      if option == "x" {
        return Cancelled, next;
      }
      if option == "1" {
        return Accepted(AssigneeOption), next;
      }
      if option == "2" {
        return Accepted(DueDateOption), next;
      }
    }
    return Exhausted, next;
  }

  /**
   * What the answer to "Enter the new username" says about an edit of a
   * task assigned to `owner`, `known` being the registered usernames: the
   * name it set, or why it set none.
   */
  predicate AssigneeAnswered(outcome: EditOutcome, owner: string, known: seq<string>, answer: string) {
    match outcome
    case Reassigned(_, user) => user == Lower(answer) && user in known && user != owner
    case NotChanged(_, ReassignCancelled) => Lower(answer) == "x"
    case NotChanged(_, UnknownUser) => Lower(answer) !in known
    case NotChanged(_, SameAssignee) => Lower(answer) == owner
    case _ => true
  }

  /** What the answer to "Enter the new due date" says about an edit. */
  predicate DueDateAnswered(outcome: EditOutcome, cal: Calendar, answer: string) {
    match outcome
    case Redated(_, due) => cal.parse(answer) == Some(due)
    case NotChanged(_, RedateCancelled) => IsCancel(answer)
    case NotChanged(_, InvalidDate) => cal.parse(answer).None?
    case _ => true
  }

  /**
   * Option "1" of `edit_task` given the answer to "Enter the new username":
   * lower-cased, "x" cancels; the name must be one of the registered
   * usernames `known` and not `owner`, the task's assignee.
   */
  function AssigneeEdit(i: nat, owner: string, known: seq<string>, answer: string): (outcome: EditOutcome)
    ensures outcome.Reassigned? || (outcome.NotChanged? && outcome.why.AssigneeRefusal())
    ensures outcome.index == i
    ensures AssigneeAnswered(outcome, owner, known, answer)
    ensures outcome.Reassigned? <==> Lower(answer) != "x" && Lower(answer) in known && Lower(answer) != owner
  {
    var newUser := Lower(answer);
    if newUser == "x" then NotChanged(i, ReassignCancelled)
    else if newUser !in known then NotChanged(i, UnknownUser)
    else if newUser == owner then NotChanged(i, SameAssignee)
    else Reassigned(i, newUser)
  }

  /**
   * Option "2" of `edit_task` given the answer to "Enter the new due date":
   * "x" cancels, an answer that does not parse changes nothing.
   */
  function DueDateEdit(i: nat, cal: Calendar, answer: string): (outcome: EditOutcome)
    ensures outcome.Redated? || (outcome.NotChanged? && outcome.why.DueDateRefusal())
    ensures outcome.index == i
    ensures DueDateAnswered(outcome, cal, answer)
    ensures outcome.Redated? <==> !IsCancel(answer) && cal.parse(answer).Some?
  {
    if IsCancel(answer) then NotChanged(i, RedateCancelled)
    else if cal.parse(answer).None? then NotChanged(i, InvalidDate)
    else Redated(i, cal.parse(answer).value)
  }

  /** How `add_task` ends at a prompt loop that did not take a value: cancelled, or out of input. */
  function AddStopped<T>(reply: Reply<T>): AddOutcome {
    if reply.Cancelled? then AddCancelled else AddInputEnded
  }

  /**
   * The prompts of `add_task`, in order: the assignee, the title, the
   * description and the due date, each a prompt loop over the typed lines;
   * the first loop that takes no value stops it.
   */
  function NewTaskDialogue(existing: seq<string>, cal: Calendar, inputs: seq<string>): (r: Dialogue<AddOutcome>)
    ensures r.next <= |inputs|
    ensures r.outcome.AddInputEnded? ==> r.next == |inputs|
    ensures r.outcome.AddCancelled? ==>
      && 0 < r.next
      && (|| AssigneeSteps(existing, inputs)[r.next - 1].Cancel?
          || NonBlankSteps(inputs)[r.next - 1].Cancel?
          || DueDateSteps(cal, inputs)[r.next - 1].Cancel?)
    ensures r.outcome.Added? ==> 0 < r.next && DueDateSteps(cal, inputs)[r.next - 1] == Take(r.outcome.due)
  {
    var assignee := Run(AssigneeSteps(existing, inputs), 0);
    if assignee.reply.Accepted? then TitleOnwards(assignee.reply.value, cal, inputs, assignee.next)
    else Dialogue(AddStopped(assignee.reply), assignee.next)
  }

  /** The prompts of `add_task` after the assignee, from position `from`. */
  function TitleOnwards(assignee: string, cal: Calendar, inputs: seq<string>, from: nat): (r: Dialogue<AddOutcome>)
    requires from <= |inputs|
    ensures from <= r.next <= |inputs|
    ensures r.outcome.AddInputEnded? ==> r.next == |inputs|
    ensures r.outcome.AddCancelled? ==>
      from < r.next && (NonBlankSteps(inputs)[r.next - 1].Cancel? || DueDateSteps(cal, inputs)[r.next - 1].Cancel?)
    ensures r.outcome.Added? ==>
      && from < r.next
      && r.outcome.assignee == assignee
      && DueDateSteps(cal, inputs)[r.next - 1] == Take(r.outcome.due)
  {
    var title := Run(NonBlankSteps(inputs), from);
    if title.reply.Accepted? then DescriptionOnwards(assignee, title.reply.value, cal, inputs, title.next)
    else Dialogue(AddStopped(title.reply), title.next)
  }

  /** The prompts of `add_task` after the title, from position `from`. */
  function DescriptionOnwards(assignee: string, title: string, cal: Calendar, inputs: seq<string>, from: nat)
    : (r: Dialogue<AddOutcome>)
    requires from <= |inputs|
    ensures from <= r.next <= |inputs|
    ensures r.outcome.AddInputEnded? ==> r.next == |inputs|
    ensures r.outcome.AddCancelled? ==>
      from < r.next && (NonBlankSteps(inputs)[r.next - 1].Cancel? || DueDateSteps(cal, inputs)[r.next - 1].Cancel?)
    ensures r.outcome.Added? ==>
      && from < r.next
      && r.outcome.assignee == assignee && r.outcome.title == title
      && DueDateSteps(cal, inputs)[r.next - 1] == Take(r.outcome.due)
  {
    var description := Run(NonBlankSteps(inputs), from);
    if description.reply.Accepted? then DueDateOnwards(assignee, title, description.reply.value, cal, inputs, description.next)
    else Dialogue(AddStopped(description.reply), description.next)
  }

  /** The last prompt of `add_task`, the due date, from position `from`. */
  function DueDateOnwards(assignee: string, title: string, description: string, cal: Calendar,
                          inputs: seq<string>, from: nat): (r: Dialogue<AddOutcome>)
    requires from <= |inputs|
    ensures from <= r.next <= |inputs|
    ensures r.outcome.AddInputEnded? ==> r.next == |inputs|
    ensures r.outcome.AddCancelled? ==> from < r.next && DueDateSteps(cal, inputs)[r.next - 1].Cancel?
    ensures r.outcome.Added? ==>
      && from < r.next
      && r.outcome.assignee == assignee && r.outcome.title == title && r.outcome.description == description
      && DueDateSteps(cal, inputs)[r.next - 1] == Take(r.outcome.due)
  {
    var due := Run(DueDateSteps(cal, inputs), from);
    if due.reply.Accepted? then Dialogue(Added(assignee, title, description, due.reply.value), due.next)
    else Dialogue(AddStopped(due.reply), due.next)
  }

  /**
   * `add_task` is cancelled only by "x" (either case) at the title,
   * description or due-date prompt, or by an assignee answer that is "x"
   * once lower-cased and stripped.
   */
  lemma NewTaskCancelled(existing: seq<string>, cal: Calendar, inputs: seq<string>)
    ensures var r := NewTaskDialogue(existing, cal, inputs);
      r.outcome.AddCancelled? ==>
        0 < r.next && (IsCancel(inputs[r.next - 1]) || IsCancel(AssigneeAnswer(inputs[r.next - 1])))
  {
    var r := NewTaskDialogue(existing, cal, inputs);
    if r.outcome.AddCancelled? {
      AddPromptsCancel(existing, cal, inputs, r.next - 1);
    }
  }

  /** Which answers the four prompts of `add_task` cancel on. */
  lemma AddPromptsCancel(existing: seq<string>, cal: Calendar, inputs: seq<string>, k: nat)
    requires k < |inputs|
    ensures AssigneeSteps(existing, inputs)[k].Cancel? ==> IsCancel(AssigneeAnswer(inputs[k]))
    ensures NonBlankSteps(inputs)[k].Cancel? ==> IsCancel(inputs[k])
    ensures DueDateSteps(cal, inputs)[k].Cancel? ==> IsCancel(inputs[k])
  {
    StepsAt(input => AssigneeStep(existing, input), inputs, k);
    StepsAt(NonBlankStep, inputs, k);
    StepsAt(input => DueDateStep(cal, input), inputs, k);
  }

  /**
   * `inputs` answer the prompts of `add_task` at positions `a`, `b`, `c`
   * and `e`: each is the first answer its prompt takes, every answer
   * between them being one the prompt asks again for.
   */
  predicate TaskAnswered(existing: seq<string>, cal: Calendar, inputs: seq<string>, a: nat, b: nat, c: nat, e: nat) {
    && FirstTaken(AssigneeSteps(existing, inputs), 0, a)
    && FirstTaken(NonBlankSteps(inputs), a + 1, b)
    && FirstTaken(NonBlankSteps(inputs), b + 1, c)
    && FirstTaken(DueDateSteps(cal, inputs), c + 1, e)
  }

  /**
   * Four answers to the prompts of `add_task` add the task they describe:
   * the assignee lower-cased and stripped, the title and description as
   * typed, the due date as parsed; nothing after the due date is read.
   */
  lemma AnsweredTaskIsAdded(existing: seq<string>, cal: Calendar, inputs: seq<string>,
                                               a: nat, b: nat, c: nat, e: nat)
    requires TaskAnswered(existing, cal, inputs, a, b, c, e)
    ensures cal.parse(inputs[e]).Some?
    ensures NewTaskDialogue(existing, cal, inputs) ==
      Dialogue(Added(AssigneeAnswer(inputs[a]), inputs[b], inputs[c], cal.parse(inputs[e]).value), e + 1)
  {
    RunTakesFirst(AssigneeSteps(existing, inputs), 0, a);
    AnsweredFromTitle(AssigneeSteps(existing, inputs)[a].value, cal, inputs, a + 1, b, c, e);
    AssigneeTaken(existing, inputs, a);
    NonBlankTaken(inputs, b);
    NonBlankTaken(inputs, c);
    DueDateTaken(cal, inputs, e);
  }

  /** The title, description and due-date prompts, answered at `b`, `c` and `e`. */
  lemma AnsweredFromTitle(assignee: string, cal: Calendar, inputs: seq<string>,
                                             from: nat, b: nat, c: nat, e: nat)
    requires FirstTaken(NonBlankSteps(inputs), from, b)
    requires FirstTaken(NonBlankSteps(inputs), b + 1, c)
    requires FirstTaken(DueDateSteps(cal, inputs), c + 1, e)
    ensures TitleOnwards(assignee, cal, inputs, from) ==
      Dialogue(Added(assignee, NonBlankSteps(inputs)[b].value, NonBlankSteps(inputs)[c].value,
                     DueDateSteps(cal, inputs)[e].value), e + 1)
  {
    RunTakesFirst(NonBlankSteps(inputs), from, b);
    AnsweredFromDescription(assignee, NonBlankSteps(inputs)[b].value, cal, inputs, b + 1, c, e);
  }

  /** The description and due-date prompts, answered at `c` and `e`. */
  lemma AnsweredFromDescription(assignee: string, title: string, cal: Calendar,
                                                   inputs: seq<string>, from: nat, c: nat, e: nat)
    requires FirstTaken(NonBlankSteps(inputs), from, c)
    requires FirstTaken(DueDateSteps(cal, inputs), c + 1, e)
    ensures DescriptionOnwards(assignee, title, cal, inputs, from) ==
      Dialogue(Added(assignee, title, NonBlankSteps(inputs)[c].value, DueDateSteps(cal, inputs)[e].value), e + 1)
  {
    RunTakesFirst(NonBlankSteps(inputs), from, c);
    RunTakesFirst(DueDateSteps(cal, inputs), c + 1, e);
  }

  /** The assignee prompt takes an existing username, lower-cased and stripped. */
  lemma AssigneeTaken(existing: seq<string>, inputs: seq<string>, k: nat)
    requires k < |inputs| && AssigneeSteps(existing, inputs)[k].Take?
    ensures AssigneeSteps(existing, inputs)[k].value == AssigneeAnswer(inputs[k])
    ensures AssigneeAnswer(inputs[k]) in existing
  {
    StepsAt(input => AssigneeStep(existing, input), inputs, k);
  }

  /** The title and description prompts take an answer as typed, not "x" and not blank. */
  lemma NonBlankTaken(inputs: seq<string>, k: nat)
    requires k < |inputs| && NonBlankSteps(inputs)[k].Take?
    ensures NonBlankSteps(inputs)[k].value == inputs[k]
    ensures !IsCancel(inputs[k]) && Strip(inputs[k]) != ""
  {
    StepsAt(NonBlankStep, inputs, k);
  }

  /** The due-date prompt takes the date its answer parses as. */
  lemma DueDateTaken(cal: Calendar, inputs: seq<string>, k: nat)
    requires k < |inputs| && DueDateSteps(cal, inputs)[k].Take?
    ensures cal.parse(inputs[k]) == Some(DueDateSteps(cal, inputs)[k].value)
    ensures !IsCancel(inputs[k])
  {
    StepsAt(input => DueDateStep(cal, input), inputs, k);
  }

  /**
   * A task is added only when the four prompts are answered, and it is
   * the task those answers describe.
   */
  lemma AddedTaskWasAnswered(existing: seq<string>, cal: Calendar, inputs: seq<string>)
    requires NewTaskDialogue(existing, cal, inputs).outcome.Added?
    ensures exists a: nat, b: nat, c: nat, e: nat :: TaskAnswered(existing, cal, inputs, a, b, c, e)
    ensures forall a: nat, b: nat, c: nat, e: nat :: TaskAnswered(existing, cal, inputs, a, b, c, e) ==>
      && cal.parse(inputs[e]).Some?
      && NewTaskDialogue(existing, cal, inputs) ==
           Dialogue(Added(AssigneeAnswer(inputs[a]), inputs[b], inputs[c], cal.parse(inputs[e]).value), e + 1)
  {
    var a, b, c, e := AddedPositions(existing, cal, inputs);
    forall a: nat, b: nat, c: nat, e: nat | TaskAnswered(existing, cal, inputs, a, b, c, e)
      ensures && cal.parse(inputs[e]).Some?
              && NewTaskDialogue(existing, cal, inputs) ==
                   Dialogue(Added(AssigneeAnswer(inputs[a]), inputs[b], inputs[c], cal.parse(inputs[e]).value), e + 1)
    {
      AnsweredTaskIsAdded(existing, cal, inputs, a, b, c, e);
    }
  }

  /** The positions of the four answers an added task was read from. */
  lemma AddedPositions(existing: seq<string>, cal: Calendar, inputs: seq<string>)
    returns (a: nat, b: nat, c: nat, e: nat)
    requires NewTaskDialogue(existing, cal, inputs).outcome.Added?
    ensures TaskAnswered(existing, cal, inputs, a, b, c, e)
  {
    var assignee := Run(AssigneeSteps(existing, inputs), 0);
    RunSkipsRetries(AssigneeSteps(existing, inputs), 0);
    a := assignee.next - 1;
    b, c, e := AddedAfterAssignee(assignee.reply.value, cal, inputs, assignee.next);
  }

  /** Past the assignee, a task is added only when the other three prompts are answered. */
  lemma AddedAfterAssignee(assignee: string, cal: Calendar, inputs: seq<string>, from: nat)
    returns (b: nat, c: nat, e: nat)
    requires from <= |inputs| && TitleOnwards(assignee, cal, inputs, from).outcome.Added?
    ensures FirstTaken(NonBlankSteps(inputs), from, b)
    ensures FirstTaken(NonBlankSteps(inputs), b + 1, c)
    ensures FirstTaken(DueDateSteps(cal, inputs), c + 1, e)
  {
    var title := Run(NonBlankSteps(inputs), from);
    RunSkipsRetries(NonBlankSteps(inputs), from);
    b := title.next - 1;
    var description := Run(NonBlankSteps(inputs), title.next);
    RunSkipsRetries(NonBlankSteps(inputs), title.next);
    c := description.next - 1;
    var due := Run(DueDateSteps(cal, inputs), description.next);
    RunSkipsRetries(DueDateSteps(cal, inputs), description.next);
    e := due.next - 1;
  }

  /**
   * What an added task holds: an existing username as assignee, a title
   * and a description that are neither blank nor "x", and the date the
   * last answer read parses as.
   */
  lemma AddedTaskIsValid(existing: seq<string>, cal: Calendar, inputs: seq<string>)
    requires NewTaskDialogue(existing, cal, inputs).outcome.Added?
    ensures var r := NewTaskDialogue(existing, cal, inputs);
      && r.outcome.assignee in existing
      && Strip(r.outcome.title) != "" && !IsCancel(r.outcome.title)
      && Strip(r.outcome.description) != "" && !IsCancel(r.outcome.description)
      && cal.parse(inputs[r.next - 1]) == Some(r.outcome.due)
  {
    var a, b, c, e := AddedPositions(existing, cal, inputs);
    AnsweredTaskIsAdded(existing, cal, inputs, a, b, c, e);
    AnswersAreValid(existing, cal, inputs, a, b, c, e);
  }

  /** The answers an added task is read from are valid ones. */
  lemma AnswersAreValid(existing: seq<string>, cal: Calendar, inputs: seq<string>,
                                           a: nat, b: nat, c: nat, e: nat)
    requires TaskAnswered(existing, cal, inputs, a, b, c, e)
    ensures AssigneeAnswer(inputs[a]) in existing
    ensures Strip(inputs[b]) != "" && !IsCancel(inputs[b])
    ensures Strip(inputs[c]) != "" && !IsCancel(inputs[c])
    ensures cal.parse(inputs[e]).Some?
  {
    AssigneeTaken(existing, inputs, a);
    NonBlankTaken(inputs, b);
    NonBlankTaken(inputs, c);
    DueDateTaken(cal, inputs, e);
  }

  /** The prompts of `add_task`, one loop after another. */
  method ReadNewTask(existing: seq<string>, cal: Calendar, inputs: seq<string>)
    returns (outcome: AddOutcome, next: nat)
    ensures Dialogue(outcome, next) == NewTaskDialogue(existing, cal, inputs)
  {
    var assignee, title, description, due;
    assignee, next := ReadAssignee(existing, inputs, 0);
    if !assignee.Accepted? {
      return if assignee.Cancelled? then AddCancelled else AddInputEnded, next;
    }
    title, next := ReadNonBlank(inputs, next);
    if !title.Accepted? {
      return if title.Cancelled? then AddCancelled else AddInputEnded, next;
    }
    description, next := ReadNonBlank(inputs, next);
    if !description.Accepted? {
      return if description.Cancelled? then AddCancelled else AddInputEnded, next;
    }
    due, next := ReadDueDate(cal, inputs, next);
    if !due.Accepted? {
      return if due.Cancelled? then AddCancelled else AddInputEnded, next;
    }
    outcome := Added(assignee.value, title.value, description.value, due.value);
  }

  /**
   * What `mark_task_complete` does with the answers from `from` on: the
   * task-number prompt, then the chosen line is either complete already
   * or gets marked.
   */
  function MarkDialogue(lines: seq<string>, userTasks: map<nat, nat>, inputs: seq<string>, from: nat)
    : (r: Dialogue<MarkOutcome>)
    requires from <= |inputs|
    requires forall d :: d in userTasks ==> userTasks[d] < |lines|
    ensures from <= r.next <= |inputs|
    ensures r.outcome.MarkCancelled? ==> from < r.next && TaskNumberSteps(userTasks, inputs)[r.next - 1].Cancel?
    ensures r.outcome.MarkInputEnded? ==> r.next == |inputs|
    ensures r.outcome.Marked? || r.outcome.AlreadyComplete? ==>
      && from < r.next
      && FirstTaken(TaskNumberSteps(userTasks, inputs), from, r.next - 1)
      && TaskNumberSteps(userTasks, inputs)[r.next - 1].value == r.outcome.index
      && r.outcome.index in userTasks.Values
      && (r.outcome.AlreadyComplete? <==> IsCompleted(lines[r.outcome.index]))
  {
    var number := Run(TaskNumberSteps(userTasks, inputs), from);
    RunSkipsRetries(TaskNumberSteps(userTasks, inputs), from);
    match number.reply
    case Exhausted => Dialogue(MarkInputEnded, number.next)
    case Cancelled => Dialogue(MarkCancelled, number.next)
    case Accepted(i) =>
      StepsAt(input => TaskNumberStep(userTasks, input), inputs, number.next - 1);
      Dialogue(if IsCompleted(lines[i]) then AlreadyComplete(i) else Marked(i), number.next)
  }

  /**
   * The first answer naming a task decides `mark_task_complete`: that
   * task is marked, or found complete already, and nothing after it is read.
   */
  lemma MarkOfAnsweredTask(lines: seq<string>, userTasks: map<nat, nat>, inputs: seq<string>,
                                               from: nat, k: nat)
    requires forall d :: d in userTasks ==> userTasks[d] < |lines|
    requires FirstTaken(TaskNumberSteps(userTasks, inputs), from, k)
    ensures TaskNumberSteps(userTasks, inputs)[k].value in userTasks.Values
    ensures var i := TaskNumberSteps(userTasks, inputs)[k].value;
      MarkDialogue(lines, userTasks, inputs, from) ==
        Dialogue(if IsCompleted(lines[i]) then AlreadyComplete(i) else Marked(i), k + 1)
  {
    StepsAt(input => TaskNumberStep(userTasks, input), inputs, k);
    RunTakesFirst(TaskNumberSteps(userTasks, inputs), from, k);
  }

  /**
   * What `edit_task` does once an open task `i` assigned to `owner` is
   * chosen, reading from `from`: the option loop, then the one answer the
   * chosen option asks for.
   */
  function OpenEditDialogue(i: nat, owner: string, known: seq<string>, cal: Calendar, inputs: seq<string>, from: nat)
    : (r: Dialogue<EditOutcome>)
    requires from <= |inputs|
    ensures from <= r.next <= |inputs|
    ensures r.outcome.EditInputEnded? || (r.outcome.Chosen() && !r.outcome.Immutable? && r.outcome.index == i)
    ensures r.outcome.EditInputEnded? ==> r.next == |inputs|
    ensures r.outcome == NotChanged(i, ChoiceCancelled) ==>
      from < r.next && EditOptionSteps(inputs)[r.next - 1].Cancel?
    ensures r.outcome.Chosen() && r.outcome != NotChanged(i, ChoiceCancelled) ==>
      && from + 2 <= r.next
      && FirstTaken(EditOptionSteps(inputs), from, r.next - 2)
      && r.outcome == (if EditOptionSteps(inputs)[r.next - 2].value.AssigneeOption?
                       then AssigneeEdit(i, owner, known, inputs[r.next - 1])
                       else DueDateEdit(i, cal, inputs[r.next - 1]))
  {
    var option := Run(EditOptionSteps(inputs), from);
    RunSkipsRetries(EditOptionSteps(inputs), from);
    match option.reply
    case Exhausted => Dialogue(EditInputEnded, option.next)
    case Cancelled => Dialogue(NotChanged(i, ChoiceCancelled), option.next)
    case Accepted(field) =>
      if option.next == |inputs| then Dialogue(EditInputEnded, option.next)
      else if field.AssigneeOption? then Dialogue(AssigneeEdit(i, owner, known, inputs[option.next]), option.next + 1)
      else Dialogue(DueDateEdit(i, cal, inputs[option.next]), option.next + 1)
  }

  /**
   * What `edit_task` does with the answers from `from` on: the
   * task-number prompt; a completed task is refused at once, an open one
   * goes on to `OpenEditDialogue`.
   */
  function EditDialogue(lines: seq<string>, userTasks: map<nat, nat>, known: seq<string>, cal: Calendar,
                        inputs: seq<string>, from: nat): (r: Dialogue<EditOutcome>)
    requires from <= |inputs|
    requires forall d :: d in userTasks ==> userTasks[d] < |lines|
    ensures from <= r.next <= |inputs|
    ensures r.outcome.EditCancelled? ==> from < r.next && TaskNumberSteps(userTasks, inputs)[r.next - 1].Cancel?
    ensures r.outcome.EditInputEnded? ==> r.next == |inputs|
    ensures r.outcome.Chosen() ==> r.outcome.index in userTasks.Values && r.outcome.index < |lines|
    ensures r.outcome.Immutable? ==>
      && from < r.next
      && FirstTaken(TaskNumberSteps(userTasks, inputs), from, r.next - 1)
      && TaskNumberSteps(userTasks, inputs)[r.next - 1].value == r.outcome.index
      && IsCompleted(lines[r.outcome.index])
    ensures r.outcome.Chosen() && !r.outcome.Immutable? ==>
      && !IsCompleted(lines[r.outcome.index])
      && (r.outcome.Reassigned? ==>
            r.outcome.user in known && r.outcome.user != Owner(lines[r.outcome.index]))
  {
    var number := Run(TaskNumberSteps(userTasks, inputs), from);
    match number.reply
    case Exhausted => Dialogue(EditInputEnded, number.next)
    case Cancelled => Dialogue(EditCancelled, number.next)
    case Accepted(i) =>
      RunSkipsRetries(TaskNumberSteps(userTasks, inputs), from);
      StepsAt(input => TaskNumberStep(userTasks, input), inputs, number.next - 1);
      if IsCompleted(lines[i]) then Dialogue(Immutable(i), number.next)
      else OpenEditDialogue(i, Owner(lines[i]), known, cal, inputs, number.next)
  }

  /**
   * The first answer naming a task decides which task `edit_task` works
   * on: a completed one is refused there, and for an open one the rest of
   * the edit reads on from the next answer.
   */
  lemma EditOfAnsweredTask(lines: seq<string>, userTasks: map<nat, nat>, known: seq<string>,
                                               cal: Calendar, inputs: seq<string>, from: nat, k: nat)
    requires forall d :: d in userTasks ==> userTasks[d] < |lines|
    requires FirstTaken(TaskNumberSteps(userTasks, inputs), from, k)
    ensures TaskNumberSteps(userTasks, inputs)[k].value in userTasks.Values
    ensures var i := TaskNumberSteps(userTasks, inputs)[k].value;
      EditDialogue(lines, userTasks, known, cal, inputs, from) ==
        if IsCompleted(lines[i]) then Dialogue(Immutable(i), k + 1)
        else OpenEditDialogue(i, Owner(lines[i]), known, cal, inputs, k + 1)
  {
    StepsAt(input => TaskNumberStep(userTasks, input), inputs, k);
    RunTakesFirst(TaskNumberSteps(userTasks, inputs), from, k);
  }

  /**
   * Once an open task is chosen, the first option picked and the answer
   * right after it make the edit, and nothing after is read; with no
   * answer after the option, the edit ends for lack of input.
   */
  lemma OpenEditOfAnsweredOption(i: nat, owner: string, known: seq<string>, cal: Calendar,
                                                     inputs: seq<string>, from: nat, m: nat)
    requires FirstTaken(EditOptionSteps(inputs), from, m)
    ensures m + 1 < |inputs| ==>
      OpenEditDialogue(i, owner, known, cal, inputs, from) ==
        if EditOptionSteps(inputs)[m].value.AssigneeOption?
        then Dialogue(AssigneeEdit(i, owner, known, inputs[m + 1]), m + 2)
        else Dialogue(DueDateEdit(i, cal, inputs[m + 1]), m + 2)
    ensures m + 1 == |inputs| ==> OpenEditDialogue(i, owner, known, cal, inputs, from) == Dialogue(EditInputEnded, m + 1)
  {
    RunTakesFirst(EditOptionSteps(inputs), from, m);
  }

  /** `edit_task` works on a task only when its number is the first answer naming one. */
  lemma EditedTaskWasAnswered(lines: seq<string>, userTasks: map<nat, nat>, known: seq<string>,
                                                  cal: Calendar, inputs: seq<string>, from: nat)
    requires from <= |inputs|
    requires forall d :: d in userTasks ==> userTasks[d] < |lines|
    requires EditDialogue(lines, userTasks, known, cal, inputs, from).outcome.Chosen()
    ensures exists k: nat ::
      && FirstTaken(TaskNumberSteps(userTasks, inputs), from, k)
      && TaskNumberSteps(userTasks, inputs)[k].value == EditDialogue(lines, userTasks, known, cal, inputs, from).outcome.index
  {
    var number := Run(TaskNumberSteps(userTasks, inputs), from);
    RunSkipsRetries(TaskNumberSteps(userTasks, inputs), from);
    var k := number.next - 1;
    EditOfAnsweredTask(lines, userTasks, known, cal, inputs, from, k);
    assert FirstTaken(TaskNumberSteps(userTasks, inputs), from, k);
  }

  /**
   * What `delete_task` does with `count` tasks in the file: nothing to
   * do when there are none; otherwise the task-number prompt, then the
   * confirmation.
   */
  function DeleteDialogue(count: nat, inputs: seq<string>): (r: Dialogue<DeleteOutcome>)
    ensures r.next <= |inputs|
    ensures r.outcome.NoTasks? <==> count == 0
    ensures r.outcome.NoTasks? ==> r.next == 0
    ensures r.outcome.DeleteCancelled? ==> 0 < r.next && DeleteNumberSteps(count, inputs)[r.next - 1].Cancel?
    ensures r.outcome.DeleteInputEnded? ==> r.next == |inputs|
    ensures r.outcome.Deleted? || r.outcome.Kept? ==>
      && 0 < r.next && r.outcome.index < count
      && ConfirmSteps(inputs)[r.next - 1].Take?
      && (r.outcome.Deleted? <==> ConfirmSteps(inputs)[r.next - 1].value.Yes?)
  {
    if count == 0 then Dialogue(NoTasks, 0)
    else
      var number := Run(DeleteNumberSteps(count, inputs), 0);
      match number.reply
      case Exhausted => Dialogue(DeleteInputEnded, number.next)
      case Cancelled => Dialogue(DeleteCancelled, number.next)
      case Accepted(i) =>
        StepsAt(input => DeleteNumberStep(count, input), inputs, number.next - 1);
        ConfirmOnwards(i, inputs, number.next)
  }

  /**
   * The confirmation of `delete_task` for task `i`, from position `from`:
   * "yes" deletes it, "no" keeps it.
   */
  function ConfirmOnwards(i: nat, inputs: seq<string>, from: nat): (r: Dialogue<DeleteOutcome>)
    requires from <= |inputs|
    ensures from <= r.next <= |inputs|
    ensures r.outcome.DeleteInputEnded? || r.outcome.Deleted? || r.outcome.Kept?
    ensures r.outcome.DeleteInputEnded? ==> r.next == |inputs|
    ensures r.outcome.Deleted? || r.outcome.Kept? ==>
      && from < r.next && r.outcome.index == i
      && ConfirmSteps(inputs)[r.next - 1].Take?
      && (r.outcome.Deleted? <==> ConfirmSteps(inputs)[r.next - 1].value.Yes?)
  {
    var confirm := Run(ConfirmSteps(inputs), from);
    ConfirmNeverCancels(inputs, from);
    if confirm.reply.Accepted? then Dialogue(if confirm.reply.value.Yes? then Deleted(i) else Kept(i), confirm.next)
    else Dialogue(DeleteInputEnded, confirm.next)
  }

  /**
   * `inputs` answer the prompts of `delete_task` at `k` and `m`: the
   * first number from 1 to `count` at `k`, and the first "yes" or "no"
   * after it at `m`.
   */
  predicate DeleteAnswered(count: nat, inputs: seq<string>, k: nat, m: nat) {
    FirstTaken(DeleteNumberSteps(count, inputs), 0, k) && FirstTaken(ConfirmSteps(inputs), k + 1, m)
  }

  /**
   * Two answers to the prompts of `delete_task` delete, or keep, the task
   * whose number was typed, as the confirmation says; nothing after the
   * confirmation is read.
   */
  lemma AnsweredDeleteIsDone(count: nat, inputs: seq<string>, k: nat, m: nat)
    requires DeleteAnswered(count, inputs, k, m)
    ensures InRange(inputs[k], count)
    ensures var i := DigitsValue(inputs[k]) - 1;
      DeleteDialogue(count, inputs) ==
        Dialogue(if ConfirmAnswer(inputs[m]) == "yes" then Deleted(i) else Kept(i), m + 1)
  {
    DeleteNumberGoesToConfirmation(count, inputs, k);
    RunTakesFirst(ConfirmSteps(inputs), k + 1, m);
    DeleteNumberTaken(count, inputs, k);
    ConfirmTaken(inputs, m);
  }

  /** The first number from 1 to `count` leads to the confirmation for that task, right after it. */
  lemma DeleteNumberGoesToConfirmation(count: nat, inputs: seq<string>, k: nat)
    requires FirstTaken(DeleteNumberSteps(count, inputs), 0, k)
    ensures DeleteDialogue(count, inputs) == ConfirmOnwards(DeleteNumberSteps(count, inputs)[k].value, inputs, k + 1)
  {
    StepsAt(input => DeleteNumberStep(count, input), inputs, k);
    RunTakesFirst(DeleteNumberSteps(count, inputs), 0, k);
  }

  /** The task-number prompt of `delete_task` takes a number from 1 to `count`, as the index one below it. */
  lemma DeleteNumberTaken(count: nat, inputs: seq<string>, k: nat)
    requires k < |inputs| && DeleteNumberSteps(count, inputs)[k].Take?
    ensures InRange(inputs[k], count)
    ensures DeleteNumberSteps(count, inputs)[k].value == DigitsValue(inputs[k]) - 1
  {
    StepsAt(input => DeleteNumberStep(count, input), inputs, k);
  }

  /** The confirmation takes "yes" as `Yes` and "no" as `No`, after lower-casing and stripping. */
  lemma ConfirmTaken(inputs: seq<string>, k: nat)
    requires k < |inputs| && ConfirmSteps(inputs)[k].Take?
    ensures ConfirmSteps(inputs)[k].value.Yes? <==> ConfirmAnswer(inputs[k]) == "yes"
    ensures ConfirmSteps(inputs)[k].value.No? <==> ConfirmAnswer(inputs[k]) == "no"
  {
    StepsAt(ConfirmStep, inputs, k);
  }

  /** `delete_task` gets past the confirmation only when both prompts are answered. */
  lemma DeleteWasAnswered(count: nat, inputs: seq<string>)
    requires DeleteDialogue(count, inputs).outcome.Deleted? || DeleteDialogue(count, inputs).outcome.Kept?
    ensures exists k: nat, m: nat :: DeleteAnswered(count, inputs, k, m)
  {
    var number := Run(DeleteNumberSteps(count, inputs), 0);
    RunSkipsRetries(DeleteNumberSteps(count, inputs), 0);
    var confirm := Run(ConfirmSteps(inputs), number.next);
    RunSkipsRetries(ConfirmSteps(inputs), number.next);
    assert DeleteAnswered(count, inputs, number.next - 1, confirm.next - 1);
  }

  // ---------------------------------------------------------------------
  // The task list
  // ---------------------------------------------------------------------

  /** The lines of `tasks.txt`, as `readlines()` gives them. */
  class TaskList {
    var lines: seq<string>

    constructor (initial: seq<string>)
      ensures lines == initial
    {
      lines := initial;
    }

    /**
     * `add_task`: the prompts of `NewTaskDialogue`, then the record is
     * appended to the file, dated `today` and not completed.
     */
    method AddTask(userLines: seq<string>, cal: Calendar, today: Date, inputs: seq<string>)
      returns (outcome: AddOutcome, next: nat)
      modifies this
      ensures Dialogue(outcome, next) == NewTaskDialogue(Usernames(userLines), cal, inputs)
      ensures outcome.Added? ==>
        lines == SplitLines(AppendContent(Concat(old(lines)),
                   NewEntry(outcome.assignee, outcome.title, outcome.description,
                            cal.format(today), cal.format(outcome.due))))
      ensures !outcome.Added? ==> lines == old(lines)
    {
      var existing := GetExistingUsernames(userLines);
      outcome, next := ReadNewTask(existing, cal, inputs);
      if outcome.Added? {
        var entry := NewEntry(outcome.assignee, outcome.title, outcome.description,
                              cal.format(today), cal.format(outcome.due));
        lines := SplitLines(AppendContent(Concat(lines), entry));
      }
    }

    /**
     * `mark_task_complete`, reading from `from`: one task chosen by display
     * number; if it is already complete nothing changes, otherwise its last
     * field becomes "Yes".
     */
    method MarkTaskComplete(userTasks: map<nat, nat>, inputs: seq<string>, from: nat)
      returns (outcome: MarkOutcome, next: nat)
      requires from <= |inputs|
      requires forall d :: d in userTasks ==> userTasks[d] < |lines|
      modifies this
      ensures Dialogue(outcome, next) == MarkDialogue(old(lines), userTasks, inputs, from)
      ensures outcome.Marked? ==> lines == old(lines)[outcome.index := MarkedComplete(old(lines)[outcome.index])]
      ensures !outcome.Marked? ==> lines == old(lines)
    {
      var choice;
      choice, next := GetValidTaskNumber(userTasks, inputs, from);
      if choice.Cancelled? {
        return MarkCancelled, next;
      } else if choice.Exhausted? {
        return MarkInputEnded, next;
      }
      var i := choice.value;
      if IsCompleted(lines[i]) {
        outcome := AlreadyComplete(i);
      } else {
        lines := lines[i := MarkedComplete(lines[i])];
        outcome := Marked(i);
      }
    }

    /**
     * `edit_task`, reading from `from`: one task chosen by display number.
     * A completed task is refused at once. Otherwise option "1" reassigns
     * it to an existing user other than its assignee, option "2" sets a new
     * due date, and any other option is asked for again; a bad answer to
     * either ends the edit without a change.
     */
    method EditTask(userTasks: map<nat, nat>, userLines: seq<string>, cal: Calendar, inputs: seq<string>, from: nat)
      returns (outcome: EditOutcome, next: nat)
      requires from <= |inputs|
      requires forall d :: d in userTasks ==> userTasks[d] < |lines| && WellFormed(lines[userTasks[d]])
      modifies this
      ensures Dialogue(outcome, next) == EditDialogue(old(lines), userTasks, Usernames(userLines), cal, inputs, from)
      ensures outcome.Reassigned? ==>
        lines == old(lines)[outcome.index := Reassign(old(lines)[outcome.index], outcome.user)]
      ensures outcome.Redated? ==>
        lines == old(lines)[outcome.index := Redate(old(lines)[outcome.index], cal.format(outcome.due))]
      ensures !outcome.Reassigned? && !outcome.Redated? ==> lines == old(lines)
    {
      var choice;
      choice, next := GetValidTaskNumber(userTasks, inputs, from);
      if choice.Cancelled? {
        return EditCancelled, next;
      } else if choice.Exhausted? {
        return EditInputEnded, next;
      }
      var i := choice.value;
      if IsCompleted(lines[i]) {
        return Immutable(i), next;
      }
      outcome, next := EditOpenTask(i, userLines, cal, inputs, next);
    }

    /**
     * The rest of `edit_task` once an open task is chosen: the option
     * loop, then the one answer the chosen option asks for.
     */
    method EditOpenTask(i: nat, userLines: seq<string>, cal: Calendar, inputs: seq<string>, from: nat)
      returns (outcome: EditOutcome, next: nat)
      requires from <= |inputs|
      requires i < |lines| && WellFormed(lines[i])
      modifies this
      ensures Dialogue(outcome, next) == OpenEditDialogue(i, Owner(old(lines)[i]), Usernames(userLines), cal, inputs, from)
      ensures outcome.Reassigned? ==> lines == old(lines)[i := Reassign(old(lines)[i], outcome.user)]
      ensures outcome.Redated? ==> lines == old(lines)[i := Redate(old(lines)[i], cal.format(outcome.due))]
      ensures !outcome.Reassigned? && !outcome.Redated? ==> lines == old(lines)
    {
      var option;
      option, next := ReadEditOption(inputs, from);
      if option.Exhausted? {
        return EditInputEnded, next;
      } else if option.Cancelled? {
        return NotChanged(i, ChoiceCancelled), next;
      } else if next == |inputs| {
        return EditInputEnded, next;
      }
      var answer := inputs[next];
      next := next + 1;
      if option.value.AssigneeOption? {
        outcome := ChangeAssignee(i, userLines, answer);
      } else {
        outcome := ChangeDueDate(i, cal, answer);
      }
    }

    /**
     * Option "1" of `edit_task`, given the answer to "Enter the new
     * username": the outcome is `AssigneeEdit`, and a reassignment writes
     * the new name, which can stand as the first field, into the line.
     */
    method ChangeAssignee(i: nat, userLines: seq<string>, answer: string) returns (outcome: EditOutcome)
      requires i < |lines| && WellFormed(lines[i])
      modifies this
      ensures outcome == AssigneeEdit(i, Owner(old(lines)[i]), Usernames(userLines), answer)
      ensures outcome.Reassigned? ==>
        && FitsAt(outcome.user, AssigneeField, FieldCount)
        && lines == old(lines)[i := Reassign(old(lines)[i], outcome.user)]
      ensures !outcome.Reassigned? ==> lines == old(lines)
    {
      var newUser := Lower(answer);
      if newUser == "x" {
        return NotChanged(i, ReassignCancelled);
      }
      var validUsers := GetExistingUsernames(userLines);
      if newUser !in validUsers {
        return NotChanged(i, UnknownUser);
      }
      if newUser == Owner(lines[i]) {
        return NotChanged(i, SameAssignee);
      }
      ExistingUserFits(newUser, userLines);
      lines := lines[i := Reassign(lines[i], newUser)];
      outcome := Reassigned(i, newUser);
    }

    /**
     * Option "2" of `edit_task`, given the answer to "Enter the new due
     * date": the outcome is `DueDateEdit`, and a date that parses is
     * written back in the standard format.
     */
    method ChangeDueDate(i: nat, cal: Calendar, answer: string) returns (outcome: EditOutcome)
      requires i < |lines| && WellFormed(lines[i])
      modifies this
      ensures outcome == DueDateEdit(i, cal, answer)
      ensures outcome.Redated? ==> lines == old(lines)[i := Redate(old(lines)[i], cal.format(outcome.due))]
      ensures !outcome.Redated? ==> lines == old(lines)
    {
      if IsCancel(answer) {
        return NotChanged(i, RedateCancelled);
      }
      var parsed := cal.parse(answer);
      if parsed.None? {
        return NotChanged(i, InvalidDate);
      }
      lines := lines[i := Redate(lines[i], cal.format(parsed.value))];
      outcome := Redated(i, parsed.value);
    }

    /**
     * `delete_task`: the prompts of `DeleteDialogue` over the tasks in the
     * file; "yes" removes the chosen line and keeps the others in order.
     * Every line is shown field by field before the first prompt, so every
     * line must have at least the six fields `display_task` reads.
     */
    method DeleteTask(inputs: seq<string>) returns (outcome: DeleteOutcome, next: nat)
      requires forall i :: 0 <= i < |lines| ==> WellFormed(lines[i])
      modifies this
      ensures Dialogue(outcome, next) == DeleteDialogue(|old(lines)|, inputs)
      ensures outcome.Deleted? ==> lines == RemoveAt(old(lines), outcome.index)
      ensures !outcome.Deleted? ==> lines == old(lines)
    {
      next := 0;
      if lines == [] {
        return NoTasks, next;
      }
      var number;
      number, next := ReadDeleteNumber(|lines|, inputs, 0);
      if number.Cancelled? {
        return DeleteCancelled, next;
      } else if number.Exhausted? {
        return DeleteInputEnded, next;
      }
      var i := number.value;
      var confirm;
      confirm, next := ReadConfirm(inputs, next);
      if !confirm.Accepted? {
        return DeleteInputEnded, next;
      }
      if confirm.value.Yes? {
        lines := RemoveAt(lines, i);
        outcome := Deleted(i);
      } else {
        outcome := Kept(i);
      }
    }
  }

  /**
   * What the file holds after `add_task` appends an entry with clean,
   * single-line fields: the old lines (the last one newline-terminated, or
   * one blank line for an empty file), then the entry on a line of its own;
   * the entry reads back as the six fields it was built from, and it is not
   * completed.
   */
  lemma AddedTaskIsLast(content: string, user: string, title: string, description: string,
                        assignedOn: string, due: string)
    requires CleanFields([user, title, description, assignedOn, due, "No"])
    requires NoNewline(user + title + description + assignedOn + due)
    ensures var entry := NewEntry(user, title, description, assignedOn, due);
      && SplitLines(AppendContent(content, entry)) == Terminated(SplitLines(content)) + [entry]
      && Fields(entry) == [user, title, description, assignedOn, due, "No"]
      && !IsCompleted(entry)
  {
    var entry := NewEntry(user, title, description, assignedOn, due);
    var head := user + ", " + title + ", " + description + ", " + assignedOn + ", " + due;
    assert entry == head + ", No\n";
    assert IsLine(entry) by {
      var fields := user + title + description + assignedOn + due;
      forall i | 0 <= i < |entry| - 1 ensures entry[i] != '\n' {
        EntryCharacter(user, title, description, assignedOn, due, i);
      }
    }
    AppendAddsOneLine(content, entry);
  }

  predicate NoNewline(s: string) {
    forall i :: 0 <= i < |s| ==> s[i] != '\n'
  }

  lemma EntryCharacter(user: string, title: string, description: string,
                       assignedOn: string, due: string, i: nat)
    requires NoNewline(user + title + description + assignedOn + due)
    requires i < |user + ", " + title + ", " + description + ", " + assignedOn + ", " + due + ", No\n"| - 1
    ensures (user + ", " + title + ", " + description + ", " + assignedOn + ", " + due + ", No\n")[i] != '\n'
  {
    var fields := user + title + description + assignedOn + due;
    var entry := user + ", " + title + ", " + description + ", " + assignedOn + ", " + due + ", No\n";
    var a := |user|;
    var b := a + 2 + |title|;
    var c := b + 2 + |description|;
    var d := c + 2 + |assignedOn|;
    var e := d + 2 + |due|;
    if i < a {
      assert entry[i] == fields[i];
    } else if a + 2 <= i < b {
      assert entry[i] == fields[i - 2];
    } else if b + 2 <= i < c {
      assert entry[i] == fields[i - 4];
    } else if c + 2 <= i < d {
      assert entry[i] == fields[i - 6];
    } else if d + 2 <= i < e {
      assert entry[i] == fields[i - 8];
    }
  }
}
