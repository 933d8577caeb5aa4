/**
 * The selection loop of `ask_question`: the operator is asked again and again
 * until an answer parses as an integer and is the index of one of the offered
 * choices. The operator's attempts are a finite sequence; an attempt that
 * `int()` rejects is `None`.
 */
module Prompt {
  import opened Wrappers

  /** An attempt the loop accepts: it parsed, and it indexes one of `count` choices. */
  predicate Accepted(attempt: Option<int>, count: nat) {
    attempt.Some? && 0 <= attempt.value < count
  }

  /** The position of the first accepted attempt from `from` on, if there is one. */
  function FirstAccepted(attempts: seq<Option<int>>, count: nat, from: nat): (r: Option<nat>)
    requires from <= |attempts|
    decreases |attempts| - from
  {
    if from == |attempts| then None
    else if Accepted(attempts[from], count) then Some(from)
    else FirstAccepted(attempts, count, from + 1)
  }

  /** The scan finds an accepted attempt that no earlier accepted attempt
      precedes, and finds nothing exactly when none is accepted. */
  lemma {:induction false} FirstAcceptedIsFirst(attempts: seq<Option<int>>, count: nat, from: nat)
    requires from <= |attempts|
    decreases |attempts| - from
    ensures var r := FirstAccepted(attempts, count, from);
      (r.Some? ==>
        from <= r.value < |attempts| && Accepted(attempts[r.value], count) &&
        forall k :: from <= k < r.value ==> !Accepted(attempts[k], count)) &&
      (r.None? ==> forall k :: from <= k < |attempts| ==> !Accepted(attempts[k], count))
  {
    if from < |attempts| && !Accepted(attempts[from], count) {
      FirstAcceptedIsFirst(attempts, count, from + 1);
    }
  }

  /** Once an attempt is accepted, the prompt reads no further: whatever the
      operator would have typed afterwards does not change the selection. */
  lemma {:induction false} FirstAcceptedIgnoresLater(attempts: seq<Option<int>>, later: seq<Option<int>>, count: nat, from: nat)
    requires from <= |attempts| && FirstAccepted(attempts, count, from).Some?
    decreases |attempts| - from
    ensures FirstAccepted(attempts + later, count, from) == FirstAccepted(attempts, count, from)
  {
    assert (attempts + later)[from] == attempts[from];
    if !Accepted(attempts[from], count) {
      FirstAcceptedIgnoresLater(attempts, later, count, from + 1);
    }
  }

  /** With no choices on offer no attempt is ever accepted: the source keeps
      asking forever. */
  lemma {:induction false} NoChoicesNeverSelects(attempts: seq<Option<int>>, from: nat)
    requires from <= |attempts|
    decreases |attempts| - from
    ensures FirstAccepted(attempts, 0, from) == None
  {
    if from < |attempts| {
      NoChoicesNeverSelects(attempts, from + 1);
    }
  }

  /** `ask_question(questions, main_question)` over the operator's `attempts`:
      the first attempt that parses and indexes a question is returned, together
      with its position; `None` when the attempts run out first, where the
      source would go on waiting for input. */
  method AskQuestion(questions: seq<string>, attempts: seq<Option<int>>) returns (answer: Option<int>, used: nat)
    ensures answer.Some? ==> 0 <= answer.value < |questions|
    ensures answer.Some? ==>
      used < |attempts| && attempts[used] == answer && FirstAccepted(attempts, |questions|, 0) == Some(used)
    ensures answer.None? <==> forall k :: 0 <= k < |attempts| ==> !Accepted(attempts[k], |questions|)
    ensures answer.None? ==> used == |attempts|
  {
    used := 0;
    while used < |attempts|
      invariant used <= |attempts|
      invariant FirstAccepted(attempts, |questions|, used) == FirstAccepted(attempts, |questions|, 0)
      invariant forall k :: 0 <= k < used ==> !Accepted(attempts[k], |questions|)
    {
      match attempts[used] {
        case None =>
        case Some(a) =>
          if 0 <= a < |questions| {
            return Some(a), used;
          }
      }
      used := used + 1;
    }
    return None, used;
  }
}
