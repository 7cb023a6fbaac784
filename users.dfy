/**
 * The user file: one `username, password` record per line. Usernames are
 * compared in lower case; passwords exactly. Registration appends a record
 * after the usual trailing-newline check, and logging in scans the records
 * in file order for the first match.
 */
module Users {
  import opened Wrappers
  import opened Text
  import opened FileText
  import opened TaskLine
  import opened Prompts

  /** `line.strip().split(", ")[0].lower()`: the username a line holds. */
  function UsernameOf(line: string): string {
    Lower(Fields(line)[0])
  }

  /** The usernames of the user file, line by line. */
  function Usernames(userLines: seq<string>): (names: seq<string>)
    ensures |names| == |userLines|
  {
    seq(|userLines|, i requires 0 <= i < |userLines| => UsernameOf(userLines[i]))
  }

  predicate NoDuplicates(names: seq<string>) {
    forall i, j :: 0 <= i < j < |names| ==> names[i] != names[j]
  }

  /** `get_existing_usernames()` over the lines of the user file. */
  method GetExistingUsernames(userLines: seq<string>) returns (existing: seq<string>)
    ensures existing == Usernames(userLines)
  {
    existing := [];
    for i := 0 to |userLines|
      invariant existing == Usernames(userLines[..i])
    {
      assert userLines[..i + 1][..i] == userLines[..i];
      existing := existing + [UsernameOf(userLines[i])];
    }
    assert userLines[..|userLines|] == userLines;
  }

  /**
   * Every stored username is already in canonical form: lower case, and it
   * can stand as the assignee field of a task line and be read back.
   */
  lemma UsernameIsCanonical(line: string)
    ensures Lower(UsernameOf(line)) == UsernameOf(line)
    ensures FitsAt(UsernameOf(line), AssigneeField, FieldCount)
  {
    var first := Fields(line)[0];
    SplitPiecesHaveNoSep(Strip(line));
    FirstFieldFits(line);
    LowerKeepsSep(first);
  }

  lemma ExistingUserFits(user: string, userLines: seq<string>)
    requires user in Usernames(userLines)
    ensures FitsAt(user, AssigneeField, FieldCount)
  {
    var i :| 0 <= i < |userLines| && Usernames(userLines)[i] == user;
    UsernameIsCanonical(userLines[i]);
  }

  // ---------------------------------------------------------------------
  // Registration
  // ---------------------------------------------------------------------

  /** A lower-cased candidate username is taken when letters only and unused. */
  predicate ValidNewUsername(name: string, existing: seq<string>) {
    IsAlpha(name) && name !in existing
  }

  /**
   * The username prompt of `reg_user` with one answer: lower-cased; "x"
   * cancels; a name made of letters only and not yet taken is taken;
   * anything else is asked for again.
   */
  function NewUsernameStep(existing: seq<string>, input: string): Step<string> {
    var name := Lower(input);
    if IsCancel(name) then Cancel
    else if ValidNewUsername(name, existing) then Take(name)
    else Retry
  }

  /** The steps of the username prompt over the typed lines. */
  function NewUsernameSteps(existing: seq<string>, inputs: seq<string>): seq<Step<string>> {
    Steps(input => NewUsernameStep(existing, input), inputs)
  }

  /**
   * The username prompt cancels exactly on "x" in either case, takes
   * exactly the answers that lower-case to a valid new username, and
   * takes them lower-cased.
   */
  lemma NewUsernameAnswer(existing: seq<string>, inputs: seq<string>, k: nat)
    requires k < |inputs|
    ensures var s := NewUsernameSteps(existing, inputs)[k];
      && (s.Cancel? <==> IsCancel(inputs[k]))
      && (s.Take? <==> !IsCancel(inputs[k]) && ValidNewUsername(Lower(inputs[k]), existing))
      && (s.Take? ==> s.value == Lower(inputs[k]))
  {
    StepsAt(input => NewUsernameStep(existing, input), inputs, k);
    LowerKeepsSep(inputs[k]);
  }

  /** The username loop of `reg_user`, reading from position `from`. */
  method ReadNewUsername(existing: seq<string>, inputs: seq<string>, from: nat) returns (r: Reply<string>, next: nat)
    requires from <= |inputs|
    ensures Read(r, next) == Run(NewUsernameSteps(existing, inputs), from)
  {
    next := from;
    while next < |inputs|
      invariant from <= next <= |inputs|
      invariant Run(NewUsernameSteps(existing, inputs), next) == Run(NewUsernameSteps(existing, inputs), from)
    {
      StepsAt(input => NewUsernameStep(existing, input), inputs, next);
      var name := Lower(inputs[next]);
      next := next + 1;
      if IsCancel(name) {
        return Cancelled, next;
      }
      if ValidNewUsername(name, existing) {
        return Accepted(name), next;
      }
    }
    return Exhausted, next;
  }

  /** `f"{new_username}, {new_password}\n"` */
  function UserRecord(name: string, password: string): string {
    name + ", " + password + "\n"
  }

  datatype Registration =
    | Registered(name: string, password: string)
    | RegistrationCancelled
    | PasswordMismatch
    | RegistrationInputEnded
    | UnreadablePassword

  /**
   * A password the user file can hold: after `strip().split(", ")` the
   * record gives it back unchanged as its second field.
   */
  predicate StorablePassword(password: string) {
    FitsAt(password, 1, 2) && forall i :: 0 <= i < |password| ==> password[i] != '\n'
  }

  /** A password made only of whitespace, the empty one included. */
  predicate BlankPassword(password: string) {
    forall i :: 0 <= i < |password| ==> IsSpace(password[i])
  }

  /**
   * What `reg_user` does with the typed lines, `existing` being the
   * usernames in the file: the username loop, then a password and its
   * confirmation, each of which may be "x" to cancel; they must match.
   * `checked` adds the refusal of a password the file cannot give back;
   * `reg_user` as written has no such check.
   */
  function RegistrationDialogue(existing: seq<string>, inputs: seq<string>, checked: bool): (r: Dialogue<Registration>)
    ensures r.next <= |inputs|
    ensures r.outcome.RegistrationInputEnded? ==> r.next == |inputs|
    ensures r.outcome.RegistrationCancelled? ==>
      0 < r.next && (NewUsernameSteps(existing, inputs)[r.next - 1].Cancel? || IsCancel(inputs[r.next - 1]))
    ensures r.outcome.Registered? || r.outcome.PasswordMismatch? || r.outcome.UnreadablePassword? ==>
      && 3 <= r.next
      && FirstTaken(NewUsernameSteps(existing, inputs), 0, r.next - 3)
      && !IsCancel(inputs[r.next - 2]) && !IsCancel(inputs[r.next - 1])
      && (r.outcome.PasswordMismatch? <==> inputs[r.next - 2] != inputs[r.next - 1])
      && (r.outcome.UnreadablePassword? <==>
            checked && inputs[r.next - 2] == inputs[r.next - 1] && !StorablePassword(inputs[r.next - 1]))
    ensures r.outcome.Registered? ==>
      r.outcome == Registered(NewUsernameSteps(existing, inputs)[r.next - 3].value, inputs[r.next - 1])
  {
    var name := Run(NewUsernameSteps(existing, inputs), 0);
    RunSkipsRetries(NewUsernameSteps(existing, inputs), 0);
    match name.reply
    case Exhausted => Dialogue(RegistrationInputEnded, name.next)
    case Cancelled => Dialogue(RegistrationCancelled, name.next)
    case Accepted(n) => PasswordsOnwards(n, inputs, name.next, checked)
  }

  /** The password and confirmation prompts of `reg_user` for `name`, from position `from`. */
  function PasswordsOnwards(name: string, inputs: seq<string>, from: nat, checked: bool): (r: Dialogue<Registration>)
    requires from <= |inputs|
    ensures from <= r.next <= |inputs|
    ensures r.outcome.RegistrationInputEnded? ==> r.next == |inputs|
    ensures r.outcome.RegistrationCancelled? ==> from < r.next && IsCancel(inputs[r.next - 1])
    ensures r.outcome.Registered? || r.outcome.PasswordMismatch? || r.outcome.UnreadablePassword? ==>
      && r.next == from + 2
      && !IsCancel(inputs[from]) && !IsCancel(inputs[from + 1])
      && (r.outcome.PasswordMismatch? <==> inputs[from] != inputs[from + 1])
      && (r.outcome.UnreadablePassword? <==> checked && inputs[from] == inputs[from + 1] && !StorablePassword(inputs[from]))
    ensures r.outcome.Registered? ==> r.outcome == Registered(name, inputs[from + 1])
  {
    if from == |inputs| then Dialogue(RegistrationInputEnded, from)
    else if IsCancel(inputs[from]) then Dialogue(RegistrationCancelled, from + 1)
    else if from + 1 == |inputs| then Dialogue(RegistrationInputEnded, from + 1)
    else if IsCancel(inputs[from + 1]) then Dialogue(RegistrationCancelled, from + 2)
    else if inputs[from] != inputs[from + 1] then Dialogue(PasswordMismatch, from + 2)
    else if checked && !StorablePassword(inputs[from]) then Dialogue(UnreadablePassword, from + 2)
    else Dialogue(Registered(name, inputs[from]), from + 2)
  }

  /** `reg_user` is cancelled only by "x" (either case) at one of its prompts. */
  lemma RegistrationCancelledByX(existing: seq<string>, inputs: seq<string>, checked: bool)
    ensures var r := RegistrationDialogue(existing, inputs, checked);
      r.outcome.RegistrationCancelled? ==> 0 < r.next && IsCancel(inputs[r.next - 1])
  {
    var r := RegistrationDialogue(existing, inputs, checked);
    if r.outcome.RegistrationCancelled? {
      NewUsernameAnswer(existing, inputs, r.next - 1);
    }
  }

  /**
   * A user is registered only under the first answer that lower-cases to
   * a valid new username, and with the password typed twice after it.
   */
  lemma RegisteredWasAnswered(existing: seq<string>, inputs: seq<string>, checked: bool)
    requires RegistrationDialogue(existing, inputs, checked).outcome.Registered?
    ensures var r := RegistrationDialogue(existing, inputs, checked);
      && 3 <= r.next
      && FirstTaken(NewUsernameSteps(existing, inputs), 0, r.next - 3)
      && r.outcome.name == Lower(inputs[r.next - 3])
      && ValidNewUsername(r.outcome.name, existing)
      && r.outcome.password == inputs[r.next - 2] == inputs[r.next - 1]
      && (checked ==> StorablePassword(r.outcome.password))
  {
    var r := RegistrationDialogue(existing, inputs, checked);
    NewUsernameAnswer(existing, inputs, r.next - 3);
  }

  /**
   * A valid new username as the first answer the username prompt takes,
   * then the same password twice (not "x", and storable when checked),
   * registers that user with that password; nothing after is read.
   */
  lemma AnsweredRegistration(existing: seq<string>, inputs: seq<string>, checked: bool, k: nat)
    requires FirstTaken(NewUsernameSteps(existing, inputs), 0, k)
    requires k + 2 < |inputs|
    requires !IsCancel(inputs[k + 1]) && inputs[k + 1] == inputs[k + 2]
    requires checked ==> StorablePassword(inputs[k + 1])
    ensures RegistrationDialogue(existing, inputs, checked) == Dialogue(Registered(Lower(inputs[k]), inputs[k + 1]), k + 3)
  {
    RunTakesFirst(NewUsernameSteps(existing, inputs), 0, k);
    NewUsernameAnswer(existing, inputs, k);
  }

  /** The text of `user.txt`. */
  class UserStore {
    var content: string

    constructor (initial: string)
      ensures content == initial
    {
      content := initial;
    }

    function Lines(): seq<string>
      reads this
    {
      SplitLines(content)
    }

    /**
     * `reg_user` as written: the prompts of `RegistrationDialogue`, then on
     * a match the record is appended after the trailing-newline check. The
     * password itself is not checked at all.
     */
    method Register(inputs: seq<string>) returns (outcome: Registration, used: nat)
      modifies this
      ensures Dialogue(outcome, used) == RegistrationDialogue(Usernames(old(Lines())), inputs, false)
      ensures outcome.Registered? ==> content == AppendContent(old(content), UserRecord(outcome.name, outcome.password))
      ensures !outcome.Registered? ==> content == old(content)
    {
      outcome, used := RegisterWith(inputs, false);
    }

    /**
     * Registration with the password also checked: one the file cannot give
     * back (blank, with trailing whitespace, holding ", " or a newline) is
     * refused and nothing is written.
     */
    method RegisterChecked(inputs: seq<string>) returns (outcome: Registration, used: nat)
      modifies this
      ensures Dialogue(outcome, used) == RegistrationDialogue(Usernames(old(Lines())), inputs, true)
      ensures outcome.Registered? ==> content == AppendContent(old(content), UserRecord(outcome.name, outcome.password))
      ensures !outcome.Registered? ==> content == old(content)
    {
      outcome, used := RegisterWith(inputs, true);
    }

    /** The prompts of `reg_user` one after another, and the append. */
    method RegisterWith(inputs: seq<string>, checked: bool) returns (outcome: Registration, used: nat)
      modifies this
      ensures Dialogue(outcome, used) == RegistrationDialogue(Usernames(old(Lines())), inputs, checked)
      ensures outcome.Registered? ==> content == AppendContent(old(content), UserRecord(outcome.name, outcome.password))
      ensures !outcome.Registered? ==> content == old(content)
    {
      var existing := GetExistingUsernames(Lines());
      var name;
      name, used := ReadNewUsername(existing, inputs, 0);
      if name.Cancelled? {
        return RegistrationCancelled, used;
      } else if name.Exhausted? || used == |inputs| {
        return RegistrationInputEnded, used;
      }
      var password := inputs[used];
      used := used + 1;
      if IsCancel(password) {
        return RegistrationCancelled, used;
      } else if used == |inputs| {
        return RegistrationInputEnded, used;
      }
      var confirmation := inputs[used];
      used := used + 1;
      if IsCancel(confirmation) {
        return RegistrationCancelled, used;
      } else if password != confirmation {
        return PasswordMismatch, used;
      } else if checked && !StorablePassword(password) {
        return UnreadablePassword, used;
      }
      content := AppendContent(content, UserRecord(name.value, password));
      outcome := Registered(name.value, password);
    }
  }

  /**
   * A record with a storable password reads back as exactly the two
   * fields written, and the file gains it as one more line.
   */
  lemma StoredRecordReadsBack(c: string, name: string, password: string)
    requires IsAlpha(name) && StorablePassword(password)
    ensures Fields(UserRecord(name, password)) == [name, password]
    ensures SplitLines(AppendContent(c, UserRecord(name, password)))
         == Terminated(SplitLines(c)) + [UserRecord(name, password)]
  {
    var rec := UserRecord(name, password);
    assert !HasSep(name) by {
      forall i | 0 <= i < |name| - 1 ensures name[i] != ',' {
        assert IsLetter(name[i]);
      }
    }
    assert FitsAt(name, 0, 2);
    var parts := [name, password];
    assert CleanFields(parts);
    assert Join(parts[1..]) == password;
    assert rec == Serialise(parts);
    ParseSerialise(parts);
    assert IsLine(rec) by {
      forall i | 0 <= i < |rec| - 1 ensures rec[i] != '\n' {
        if i < |name| {
          assert rec[i] == name[i] && IsLetter(name[i]);
        } else if i >= |name| + 2 {
          assert rec[i] == password[i - |name| - 2];
        }
      }
    }
    AppendAddsOneLine(c, rec);
  }

  /** A newline ensured at the end of a line does not change its username. */
  lemma UsernamesOfTerminated(lines: seq<string>)
    requires lines != []
    ensures Usernames(Terminated(lines)) == Usernames(lines)
  {
    FieldsOfTerminated(lines);
  }

  /**
   * After a successful checked registration the existing usernames are the
   * old ones followed by the new name (an empty file first gains a blank
   * line, whose username is empty), and they stay free of duplicates.
   */
  lemma RegistrationAddsUsername(c: string, name: string, password: string)
    requires ValidNewUsername(name, Usernames(SplitLines(c)))
    requires Lower(name) == name
    requires StorablePassword(password)
    ensures Usernames(SplitLines(AppendContent(c, UserRecord(name, password))))
         == (if c == "" then [""] else Usernames(SplitLines(c))) + [name]
    ensures NoDuplicates(Usernames(SplitLines(c)))
        ==> NoDuplicates(Usernames(SplitLines(AppendContent(c, UserRecord(name, password)))))
  {
    var rec := UserRecord(name, password);
    StoredRecordReadsBack(c, name, password);
    var before := Terminated(SplitLines(c));
    var after := before + [rec];
    assert UsernameOf(rec) == name;
    if c == "" {
      assert before == ["\n"];
      assert Split(Strip("\n")) == [""];
      assert Usernames(before) == [""];
    } else {
      UsernamesOfTerminated(SplitLines(c));
    }
    assert Usernames(after) == Usernames(before) + [name];
  }

  /**
   * The as-written registration accepts a blank password; its record then
   * strips to `name,` and reads back as one field. The new user's name is
   * not among the usernames afterwards (so it can be registered again),
   * and the record is not the two-field line logging in unpacks.
   */
  lemma BlankPasswordLosesUsername(name: string, password: string)
    requires IsAlpha(name) && Lower(name) == name
    requires BlankPassword(password)
    ensures Fields(UserRecord(name, password)) == [name + ","]
    ensures UsernameOf(UserRecord(name, password)) != name
    ensures !StorablePassword(password)
  {
    var head := name + ",";
    var tail := " " + password + "\n";
    assert UserRecord(name, password) == head + tail;
    assert !IsSpace(head[0]) by { assert head[0] == name[0] && IsLetter(name[0]); }
    assert StripStart(head + tail) == head + tail;
    StripEndBlankTail(head, tail);
    assert !HasSep(head) by {
      forall i | 0 <= i < |head| - 1 ensures head[i] != ',' {
        assert head[i] == name[i] && IsLetter(name[i]);
      }
    }
    SplitWithoutSep(head);
    assert |Lower(head)| == |name| + 1;
    if |password| > 0 {
      assert IsSpace(password[|password| - 1]);
    }
  }

  lemma {:induction false} StripEndBlankTail(head: string, tail: string)
    requires |head| > 0 && !IsSpace(head[|head| - 1])
    requires forall i :: 0 <= i < |tail| ==> IsSpace(tail[i])
    ensures StripEnd(head + tail) == head
    decreases |tail|
  {
    if |tail| == 0 {
      assert head + tail == head;
    } else {
      var s := head + tail;
      assert s[..|s| - 1] == head + tail[..|tail| - 1];
      assert IsSpace(s[|s| - 1]);
      StripEndBlankTail(head, tail[..|tail| - 1]);
    }
  }

  // ---------------------------------------------------------------------
  // Login
  // ---------------------------------------------------------------------

  /** Every record unpacks into `username, password`. */
  predicate TwoFieldRecords(userLines: seq<string>) {
    forall i :: 0 <= i < |userLines| ==> |Fields(userLines[i])| == 2
  }

  /**
   * `username.lower() == login_username and password == login_password`,
   * where `login_username` is the typed name lower-cased.
   */
  predicate LoginMatches(line: string, typedName: string, typedPassword: string)
    requires |Fields(line)| == 2
  {
    Lower(Fields(line)[0]) == Lower(typedName) && Fields(line)[1] == typedPassword
  }

  /**
   * The records the login scan unpacks, from record `k` on, split into
   * `username, password`: each one up to the first match, or all of them
   * when none matches. Records after the first match are never read.
   */
  predicate ScanReadable(userLines: seq<string>, typedName: string, typedPassword: string, k: nat)
    requires k <= |userLines|
    decreases |userLines| - k
  {
    k == |userLines| ||
    (&& |Fields(userLines[k])| == 2
     && (LoginMatches(userLines[k], typedName, typedPassword)
         || ScanReadable(userLines, typedName, typedPassword, k + 1)))
  }

  /**
   * The login scan: the first record, in file order, matching the typed
   * name and password, if any.
   */
  function FindLogin(userLines: seq<string>, typedName: string, typedPassword: string): (found: Option<nat>)
    requires ScanReadable(userLines, typedName, typedPassword, 0)
    ensures found.Some? ==>
      && found.value < |userLines|
      && |Fields(userLines[found.value])| == 2
      && LoginMatches(userLines[found.value], typedName, typedPassword)
      && forall j :: 0 <= j < found.value ==>
           |Fields(userLines[j])| == 2 && !LoginMatches(userLines[j], typedName, typedPassword)
    ensures found.None? <==>
      forall j :: 0 <= j < |userLines| ==>
        |Fields(userLines[j])| == 2 && !LoginMatches(userLines[j], typedName, typedPassword)
  {
    FindLoginFrom(userLines, typedName, typedPassword, 0)
  }

  /** The scan, from record `k` on. */
  function FindLoginFrom(userLines: seq<string>, typedName: string, typedPassword: string, k: nat): (found: Option<nat>)
    requires k <= |userLines| && ScanReadable(userLines, typedName, typedPassword, k)
    ensures found.Some? ==>
      && k <= found.value < |userLines|
      && |Fields(userLines[found.value])| == 2
      && LoginMatches(userLines[found.value], typedName, typedPassword)
      && forall j :: k <= j < found.value ==>
           |Fields(userLines[j])| == 2 && !LoginMatches(userLines[j], typedName, typedPassword)
    ensures found.None? <==>
      forall j :: k <= j < |userLines| ==>
        |Fields(userLines[j])| == 2 && !LoginMatches(userLines[j], typedName, typedPassword)
    decreases |userLines| - k
  {
    if k == |userLines| then None
    else if LoginMatches(userLines[k], typedName, typedPassword) then Some(k)
    else FindLoginFrom(userLines, typedName, typedPassword, k + 1)
  }

  /** A file of two-field records can be scanned for any login. */
  lemma {:induction false} TwoFieldRecordsScan(userLines: seq<string>, typedName: string, typedPassword: string,
                                               k: nat)
    requires k <= |userLines| && TwoFieldRecords(userLines)
    ensures ScanReadable(userLines, typedName, typedPassword, k)
    decreases |userLines| - k
  {
    if k < |userLines| {
      TwoFieldRecordsScan(userLines, typedName, typedPassword, k + 1);
    }
  }

  /**
   * The scan reads nothing after the first match: two-field records up to
   * a matching one are enough, whatever follows it.
   */
  lemma {:induction false} ScanStopsAtMatch(userLines: seq<string>, typedName: string, typedPassword: string,
                                            k: nat, m: nat)
    requires k <= m < |userLines|
    requires forall j :: k <= j <= m ==> |Fields(userLines[j])| == 2
    requires LoginMatches(userLines[m], typedName, typedPassword)
    ensures ScanReadable(userLines, typedName, typedPassword, k)
    ensures FindLoginFrom(userLines, typedName, typedPassword, k).Some?
    decreases m - k
  {
    if k < m {
      ScanStopsAtMatch(userLines, typedName, typedPassword, k + 1, m);
    }
  }

  /**
   * A user registered through the checked registration into a non-empty
   * file of two-field records can log in with the name in any case and the
   * exact password.
   */
  lemma RegisteredUserCanLogIn(c: string, name: string, password: string, typedName: string)
    requires c != "" && TwoFieldRecords(SplitLines(c))
    requires IsAlpha(name) && StorablePassword(password)
    requires Lower(typedName) == Lower(name)
    ensures TwoFieldRecords(SplitLines(AppendContent(c, UserRecord(name, password))))
    ensures ScanReadable(SplitLines(AppendContent(c, UserRecord(name, password))), typedName, password, 0)
    ensures FindLogin(SplitLines(AppendContent(c, UserRecord(name, password))), typedName, password).Some?
  {
    var rec := UserRecord(name, password);
    StoredRecordReadsBack(c, name, password);
    var lines := SplitLines(c);
    var t := Terminated(lines);
    FieldsOfTerminated(lines);
    var after := t + [rec];
    forall i | 0 <= i < |after| ensures |Fields(after[i])| == 2 {
      if i < |t| {
        assert after[i] == t[i];
      }
    }
    assert LoginMatches(after[|t|], typedName, password);
    TwoFieldRecordsScan(after, typedName, password, 0);
  }
}
