/**
 * Interactive input, scripted: every prompt takes the next string of a
 * sequence of typed lines. Running out of lines ends the operation
 * (where Python's `input()` would raise EOFError).
 *
 * Every prompt of the program is the same loop: read an answer; stop if
 * it is the cancel key, stop with a value if it is acceptable, otherwise
 * print an error and ask again. What each prompt does with one answer is
 * a `Step`; `Run` is the loop over the steps of the typed lines.
 */
module Prompts {
  import opened Text

  /** What a prompt loop ends with. */
  datatype Reply<T> = Accepted(value: T) | Cancelled | Exhausted

  /**
   * A prompt loop run over the typed lines from some position on: its
   * reply and the position of the first line it did not read.
   */
  datatype Read<T> = Read(reply: Reply<T>, next: nat)

  /**
   * A whole dialogue (several prompts one after another): how it ended
   * and the position of the first typed line it did not read.
   */
  datatype Dialogue<O> = Dialogue(outcome: O, next: nat)

  /** What a prompt does with one answer: ask again, give up, or take a value. */
  datatype Step<T> = Retry | Cancel | Take(value: T)

  /** What a prompt does with each of the typed lines, in order. */
  function Steps<T>(step: string -> Step<T>, inputs: seq<string>): (s: seq<Step<T>>)
    ensures |s| == |inputs|
  {
    if |inputs| == 0 then [] else Steps(step, inputs[..|inputs| - 1]) + [step(inputs[|inputs| - 1])]
  }

  /** The step at position `k` is what the prompt does with the line typed there. */
  lemma {:induction false} StepsAt<T>(step: string -> Step<T>, inputs: seq<string>, k: nat)
    requires k < |inputs|
    ensures Steps(step, inputs)[k] == step(inputs[k])
  {
    if k < |inputs| - 1 {
      StepsAt(step, inputs[..|inputs| - 1], k);
    }
  }

  /**
   * `cancel_operation(user_input)`: the answer lower-cases to "x", which
   * `Text.LowerIsX` shows is exactly the answers "x" and "X".
   */
  predicate IsCancel(input: string) {
    Lower(input) == "x"
  }

  /**
   * The prompt loop over the steps of the typed lines, from position
   * `from` on: the first answer that is not a retry ends it.
   */
  function Run<T>(steps: seq<Step<T>>, from: nat): (r: Read<T>)
    requires from <= |steps|
    ensures from <= r.next <= |steps|
    ensures r.reply.Exhausted? ==> r.next == |steps|
    ensures r.reply.Cancelled? ==> from < r.next && steps[r.next - 1].Cancel?
    ensures r.reply.Accepted? ==> from < r.next && steps[r.next - 1] == Take(r.reply.value)
    decreases |steps| - from
  {
    if from == |steps| then Read(Exhausted, from)
    else
      match steps[from]
      case Cancel => Read(Cancelled, from + 1)
      case Take(v) => Read(Accepted(v), from + 1)
      case Retry => Run(steps, from + 1)
  }

  /** The answer at `k` is the first from `from` on that the prompt takes. */
  predicate FirstTaken<T>(steps: seq<Step<T>>, from: nat, k: nat) {
    && from <= k < |steps|
    && (forall j :: from <= j < k ==> steps[j].Retry?)
    && steps[k].Take?
  }

  /**
   * Every answer the loop passes over is one it asks again for; a value it
   * takes comes from the first answer it can take.
   */
  lemma {:induction false} RunSkipsRetries<T>(steps: seq<Step<T>>, from: nat)
    requires from <= |steps|
    ensures var r := Run(steps, from);
      && (forall j :: from <= j < r.next && (r.reply.Exhausted? || j < r.next - 1) ==> steps[j].Retry?)
      && (r.reply.Accepted? ==> FirstTaken(steps, from, r.next - 1))
    decreases |steps| - from
  {
    if from < |steps| && steps[from].Retry? {
      RunSkipsRetries(steps, from + 1);
    }
  }

  /** After retries only, the loop takes the first answer it can take and reads no further. */
  lemma {:induction false} RunTakesFirst<T>(steps: seq<Step<T>>, from: nat, k: nat)
    requires FirstTaken(steps, from, k)
    ensures Run(steps, from) == Read(Accepted(steps[k].value), k + 1)
    decreases k - from
  {
    if from < k {
      RunTakesFirst(steps, from + 1, k);
    }
  }

  /** After retries only, a cancel key ends the loop there. */
  lemma {:induction false} RunCancelsAt<T>(steps: seq<Step<T>>, from: nat, k: nat)
    requires from <= k < |steps| && steps[k].Cancel?
    requires forall j :: from <= j < k ==> steps[j].Retry?
    ensures Run(steps, from) == Read(Cancelled, k + 1)
    decreases k - from
  {
    if from < k {
      RunCancelsAt(steps, from + 1, k);
    }
  }
}
