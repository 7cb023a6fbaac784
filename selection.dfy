/**
 * Choosing one of "my" tasks. `view_mine` numbers the current user's
 * tasks 1, 2, … in file order and keeps a map from those display numbers
 * to line indices; `get_valid_task_number` reads display numbers until one
 * is in the map or the user types "x".
 */
module Selection {
  import opened Text
  import opened TaskLine
  import opened Prompts

  /** `task_parts[0].lower() == current_user.lower()` */
  predicate AssignedTo(line: string, user: string) {
    Owner(line) == Lower(user)
  }

  /** The assignee of every line, in file order. */
  function Owners(lines: seq<string>): (owners: seq<string>)
    ensures |owners| == |lines|
    ensures forall i :: 0 <= i < |lines| ==> owners[i] == Owner(lines[i])
  {
    seq(|lines|, i requires 0 <= i < |lines| => Owner(lines[i]))
  }

  /** The positions below `n` holding `who`, in order. */
  function Positions(owners: seq<string>, who: string, n: nat): (ix: seq<nat>)
    requires n <= |owners|
    ensures |ix| <= n
    ensures forall k :: 0 <= k < |ix| ==> ix[k] < n && owners[ix[k]] == who
    ensures forall a, b :: 0 <= a < b < |ix| ==> ix[a] < ix[b]
    decreases n
  {
    if n == 0 then []
    else Positions(owners, who, n - 1) + (if owners[n - 1] == who then [n - 1] else [])
  }

  /** Every position holding `who` is listed. */
  lemma {:induction false} PositionsComplete(owners: seq<string>, who: string, n: nat, i: nat)
    requires n <= |owners|
    requires i < n && owners[i] == who
    ensures exists k :: 0 <= k < |Positions(owners, who, n)| && Positions(owners, who, n)[k] == i
    decreases n
  {
    var ix := Positions(owners, who, n);
    var prev := Positions(owners, who, n - 1);
    assert ix == prev + (if owners[n - 1] == who then [n - 1] else []);
    if i == n - 1 {
      assert ix[|prev|] == i;
    } else {
      PositionsComplete(owners, who, n - 1, i);
      var k :| 0 <= k < |prev| && prev[k] == i;
      assert ix[k] == prev[k];
    }
  }

  /** The indices of the lines assigned to `user`, in file order. */
  function OwnedIndices(lines: seq<string>, user: string): seq<nat> {
    Positions(Owners(lines), Lower(user), |lines|)
  }

  /** How many tasks are assigned to `user`. */
  function OwnedCount(lines: seq<string>, user: string): nat {
    |OwnedIndices(lines, user)|
  }

  /**
   * What the display map of `user` over `lines` is: keys exactly
   * 1..N with N the number of the user's tasks, values increasing with the
   * keys, and every value the index of one of the user's lines; every such
   * line has a number.
   */
  ghost predicate IsDisplayMap(userTasks: map<nat, nat>, lines: seq<string>, user: string) {
    && (forall d :: d in userTasks <==> 1 <= d <= OwnedCount(lines, user))
    && (forall d, e :: d in userTasks && e in userTasks && d < e ==> userTasks[d] < userTasks[e])
    && (forall d :: d in userTasks ==> userTasks[d] < |lines| && AssignedTo(lines[userTasks[d]], user))
    && (forall i :: 0 <= i < |lines| && AssignedTo(lines[i], user) ==>
          exists d :: d in userTasks && userTasks[d] == i)
  }

  /**
   * The display map of `user` over `lines`: number d stands for the d-th
   * line assigned to the user.
   */
  function DisplayMap(lines: seq<string>, user: string): (userTasks: map<nat, nat>)
    ensures IsDisplayMap(userTasks, lines, user)
  {
    var m := map d: nat | 1 <= d <= OwnedCount(lines, user) :: NumberedLine(lines, user, d);
    assert forall d: nat :: d in m <==> 1 <= d <= OwnedCount(lines, user);
    PositionsMakeDisplayMap(m, lines, user);
    m
  }

  /** The index of the `d`-th line assigned to `user`. */
  function NumberedLine(lines: seq<string>, user: string, d: nat): nat
    requires 1 <= d <= OwnedCount(lines, user)
  {
    OwnedIndices(lines, user)[d - 1]
  }

  /**
   * The numbering loop of `view_mine`: every line whose assignee is the
   * current user gets the next display number, starting from 1.
   */
  method BuildUserTasks(lines: seq<string>, currentUser: string) returns (userTasks: map<nat, nat>)
    ensures userTasks == DisplayMap(lines, currentUser)
  {
    var owners := Owners(lines);
    userTasks := NumberPositions(owners, Lower(currentUser));
    assert forall d :: d in userTasks ==> userTasks[d] == NumberedLine(lines, currentUser, d);
  }

  lemma PositionsMakeDisplayMap(userTasks: map<nat, nat>, lines: seq<string>, user: string)
    requires forall d :: d in userTasks <==> 1 <= d <= |OwnedIndices(lines, user)|
    requires forall d :: d in userTasks ==> userTasks[d] == OwnedIndices(lines, user)[d - 1]
    ensures IsDisplayMap(userTasks, lines, user)
  {
    var owners := Owners(lines);
    var ix := OwnedIndices(lines, user);
    forall d | d in userTasks
      ensures userTasks[d] < |lines| && AssignedTo(lines[userTasks[d]], user)
    {
      assert owners[ix[d - 1]] == Lower(user);
    }
    forall i | 0 <= i < |lines| && AssignedTo(lines[i], user)
      ensures exists d :: d in userTasks && userTasks[d] == i
    {
      assert owners[i] == Lower(user);
      PositionsComplete(owners, Lower(user), |lines|, i);
      var k :| 0 <= k < |ix| && ix[k] == i;
      assert userTasks[k + 1] == i;
    }
  }

  /** The loop itself, over the assignees of the lines. */
  method NumberPositions(owners: seq<string>, who: string) returns (userTasks: map<nat, nat>)
    ensures forall d :: d in userTasks <==> 1 <= d <= |Positions(owners, who, |owners|)|
    ensures forall d :: d in userTasks ==> userTasks[d] == Positions(owners, who, |owners|)[d - 1]
  {
    userTasks := map[];
    var displayNumber := 1;
    for i := 0 to |owners|
      invariant displayNumber == |Positions(owners, who, i)| + 1
      invariant forall d :: d in userTasks <==> 1 <= d < displayNumber
      invariant forall d :: d in userTasks ==> userTasks[d] == Positions(owners, who, i)[d - 1]
    {
      ghost var before := Positions(owners, who, i);
      assert Positions(owners, who, i + 1) == before + (if owners[i] == who then [i] else []);
      if owners[i] == who {
        userTasks := userTasks[displayNumber := i];
        displayNumber := displayNumber + 1;
      }
    }
  }

  /** A lower-cased answer naming a task of the display map. */
  predicate NamesTask(answer: string, userTasks: map<nat, nat>) {
    IsDigits(answer) && DigitsValue(answer) in userTasks
  }

  /**
   * `get_valid_task_number` with one answer: lower-cased; "x" cancels; a
   * non-number or a number with no task is asked for again (the source
   * retries by calling itself); otherwise the line index the number
   * stands for is taken.
   */
  function TaskNumberStep(userTasks: map<nat, nat>, input: string): (s: Step<nat>)
    ensures s.Take? ==> s.value in userTasks.Values
  {
    var answer := Lower(input);
    if answer == "x" then Cancel
    else if NamesTask(answer, userTasks) then Take(userTasks[DigitsValue(answer)])
    else Retry
  }

  /** The steps of the task-number prompt over the typed lines. */
  function TaskNumberSteps(userTasks: map<nat, nat>, inputs: seq<string>): seq<Step<nat>> {
    Steps(input => TaskNumberStep(userTasks, input), inputs)
  }

  /**
   * The task-number prompt cancels exactly on "x" in either case, takes
   * exactly the answers that are a displayed number, and takes the line
   * index that number stands for.
   */
  lemma TaskNumberAnswer(userTasks: map<nat, nat>, inputs: seq<string>, k: nat)
    requires k < |inputs|
    ensures TaskNumberSteps(userTasks, inputs)[k].Cancel? <==> inputs[k] == "x" || inputs[k] == "X"
    ensures TaskNumberSteps(userTasks, inputs)[k].Take? <==> NamesTask(Lower(inputs[k]), userTasks)
    ensures TaskNumberSteps(userTasks, inputs)[k].Take? ==>
      TaskNumberSteps(userTasks, inputs)[k].value == userTasks[DigitsValue(Lower(inputs[k]))]
  {
    StepsAt(input => TaskNumberStep(userTasks, input), inputs, k);
    LowerIsX(inputs[k]);
  }

  /** The loop of `get_valid_task_number`, reading from position `from`. */
  method GetValidTaskNumber(userTasks: map<nat, nat>, inputs: seq<string>, from: nat) returns (r: Reply<nat>, next: nat)
    requires from <= |inputs|
    ensures Read(r, next) == Run(TaskNumberSteps(userTasks, inputs), from)
    ensures r.Accepted? ==> r.value in userTasks.Values
  {
    next := from;
    while next < |inputs|
      invariant from <= next <= |inputs|
      invariant Run(TaskNumberSteps(userTasks, inputs), next) == Run(TaskNumberSteps(userTasks, inputs), from)
    {
      StepsAt(input => TaskNumberStep(userTasks, input), inputs, next);
      var answer := Lower(inputs[next]);
      next := next + 1;
      if answer == "x" {
        return Cancelled, next;
      }
      if IsDigits(answer) && DigitsValue(answer) in userTasks {
        return Accepted(userTasks[DigitsValue(answer)]), next;
      }
    }
    return Exhausted, next;
  }
}
