/**
 The retry loop around the text generator (`generate_story_with_retry`). The
 generator itself is not modelled: what it does on each attempt is given as a
 sequence of outcomes, one per call, and the parameters of every call are
 recorded so that contracts can speak about them.

 The loop is stated once for any post-processing step `finish` and any
 validator `keep`; the application runs it with `Candidate` and
 `IsStoryComplete`.
 */
module Retry {
  import opened Text
  import opened Normalizer
  import opened Completeness

  /** What one generator call did: raised, or produced this text. */
  datatype Outcome = Raised | Generated(text: string)

  /** The parameters one generator call is made with. The temperature is in
      tenths, so 7 stands for 0.7. */
  datatype Call = Call(prompt: string, maxLength: int, temperatureTenths: int)

  /** Returned when the last attempt raised. */
  const IssueMessage: string :=
    "Sorry, I encountered an issue generating your story. Please try again with a different prompt."

  /** Returned when every attempt produced a story the validator rejected. */
  const IncompleteMessage: string :=
    "Sorry, I couldn't generate a complete story this time. Please try again with a different prompt."

  /** Temperature of the first attempt, in tenths. */
  const BaseTemperature: int := 7

  /** How many attempts `range(maxRetries)` makes. */
  function AttemptCount(maxRetries: int): (n: nat)
    ensures maxRetries <= 0 ==> n == 0
    ensures maxRetries > 0 ==> n == maxRetries
  {
    if maxRetries < 0 then 0 else maxRetries
  }

  /** The call made on attempt `attempt` (counted from 0): the full prompt, a
      length budget widened by the prompt's word count, and a temperature one
      tenth higher per retry. */
  function AttemptCall(fullPrompt: string, maxLength: int, attempt: nat): (c: Call)
    ensures c.prompt == fullPrompt
    ensures maxLength <= c.maxLength <= maxLength + |fullPrompt|
    ensures c.temperatureTenths == BaseTemperature + attempt
  {
    Call(fullPrompt, maxLength + |Words(fullPrompt)|, BaseTemperature + attempt)
  }

  /** The story made from generated text: the echoed prompt removed, trimmed,
      then normalized. */
  function Candidate(fullPrompt: string, output: string): (story: string)
    ensures story == [] || (story[|story| - 1] == '.' && DotsSeparated(story))
  {
    var trimmed := Strip(RemoveAll(output, fullPrompt));
    Clean(trimmed)
  }

  /** Generated text that echoes the prompt once at its start, and nowhere
      else, is cleaned as if the echo were not there. */
  lemma EchoedPromptRemoved(fullPrompt: string, text: string)
    requires fullPrompt != [] && !Contains(text, fullPrompt)
    ensures Candidate(fullPrompt, fullPrompt + text) == Clean(Strip(text))
  {
    RemoveEcho(fullPrompt, text);
  }

  /** `Candidate` for a fixed prompt. */
  function Finisher(fullPrompt: string): string -> string {
    output => Candidate(fullPrompt, output)
  }

  /** An attempt succeeds when it produced text whose finished form is kept. */
  predicate Accepted(finish: string -> string, keep: string -> bool, o: Outcome) {
    o.Generated? && keep(finish(o.text))
  }

  /** Whether each of the first `n` attempts is accepted. */
  function Verdicts(finish: string -> string, keep: string -> bool, outcomes: seq<Outcome>, n: nat): (vs: seq<bool>)
    requires n <= |outcomes|
    ensures |vs| == n
    ensures forall j :: 0 <= j < n ==> (vs[j] <==> Accepted(finish, keep, outcomes[j]))
  {
    seq(n, j requires 0 <= j < n => Accepted(finish, keep, outcomes[j]))
  }

  /** Index of the first `true` in `vs`, or `|vs|` if there is none. */
  function FirstTrue(vs: seq<bool>): (i: nat)
    ensures i <= |vs|
    ensures i < |vs| ==> vs[i]
    ensures forall j :: 0 <= j < i ==> !vs[j]
  {
    if vs == [] then 0
    else if vs[0] then 0
    else 1 + FirstTrue(vs[1..])
  }

  /** What the retry loop returns after `n` attempts, stated without the loop:
      the first accepted candidate; failing that, the issue message when the
      last attempt raised; otherwise the incomplete-story message. */
  function RetryResult(finish: string -> string, keep: string -> bool, outcomes: seq<Outcome>, n: nat): (r: string)
    requires n <= |outcomes|
    ensures keep(r) || r == IssueMessage || r == IncompleteMessage
    ensures n == 0 ==> r == IncompleteMessage
  {
    var i := FirstTrue(Verdicts(finish, keep, outcomes, n));
    if i < n then finish(outcomes[i].text)
    else if n > 0 && outcomes[n - 1].Raised? then IssueMessage
    else IncompleteMessage
  }

  /** How many generator calls the loop makes: up to and including the first
      accepted attempt, or all `n` of them. */
  function CallCount(finish: string -> string, keep: string -> bool, outcomes: seq<Outcome>, n: nat): nat
    requires n <= |outcomes|
  {
    var i := FirstTrue(Verdicts(finish, keep, outcomes, n));
    if i < n then i + 1 else n
  }

  /** The retry loop for `maxRetries` attempts. Returns the story and the
      generator calls it made, in order: as many as `CallCount` says, each with
      the parameters of its attempt, and the story `RetryResult` describes. */
  method RetryLoop(fullPrompt: string, maxLength: int, maxRetries: int, outcomes: seq<Outcome>,
                   finish: string -> string, keep: string -> bool)
    returns (story: string, calls: seq<Call>)
    requires AttemptCount(maxRetries) <= |outcomes|
    ensures |calls| == CallCount(finish, keep, outcomes, AttemptCount(maxRetries))
    ensures forall i :: 0 <= i < |calls| ==> calls[i] == AttemptCall(fullPrompt, maxLength, i)
    ensures story == RetryResult(finish, keep, outcomes, AttemptCount(maxRetries))
  {
    var n := AttemptCount(maxRetries);
    calls := [];
    var attempt := 0;
    while attempt < n
      invariant attempt <= n && |calls| == attempt
      invariant forall i :: 0 <= i < attempt ==> calls[i] == AttemptCall(fullPrompt, maxLength, i)
      invariant forall i :: 0 <= i < attempt ==> !Accepted(finish, keep, outcomes[i])
      invariant 0 < attempt == n ==> outcomes[n - 1].Generated?
    {
      calls := calls + [AttemptCall(fullPrompt, maxLength, attempt)];
      var done;
      done, story := Attempt(finish, keep, outcomes, n, attempt);
      if done {
        return;
      }
      attempt := attempt + 1;
    }
    story := IncompleteMessage;
    NoneAccepted(finish, keep, outcomes, n);
  }

  /** One pass of the loop body, given that no earlier attempt was accepted:
      either the loop ends here with its final story, or this attempt was not
      accepted and, if it was the last, it did not raise. */
  method Attempt(finish: string -> string, keep: string -> bool, outcomes: seq<Outcome>, n: nat, attempt: nat)
    returns (done: bool, story: string)
    requires attempt < n <= |outcomes|
    requires forall j :: 0 <= j < attempt ==> !Accepted(finish, keep, outcomes[j])
    ensures done ==> story == RetryResult(finish, keep, outcomes, n)
    ensures done ==> CallCount(finish, keep, outcomes, n) == attempt + 1
    ensures !done ==> !Accepted(finish, keep, outcomes[attempt])
    ensures !done && attempt == n - 1 ==> outcomes[attempt].Generated?
  {
    done := false;
    story := [];
    if outcomes[attempt].Raised? {
      if attempt == n - 1 {
        done, story := true, IssueMessage;
        NoneAccepted(finish, keep, outcomes, n);
      }
    } else {
      var candidate := finish(outcomes[attempt].text);
      if keep(candidate) {
        done, story := true, candidate;
        FirstAcceptedAt(finish, keep, outcomes, n, attempt);
      }
    }
  }

  /** `generate_story_with_retry` itself: the loop over cleaned candidates,
      kept by the completeness validator. */
  method GenerateWithRetry(fullPrompt: string, maxLength: int, maxRetries: int, outcomes: seq<Outcome>)
    returns (story: string, calls: seq<Call>)
    requires AttemptCount(maxRetries) <= |outcomes|
    ensures |calls| == CallCount(Finisher(fullPrompt), IsStoryComplete, outcomes, AttemptCount(maxRetries))
    ensures forall i :: 0 <= i < |calls| ==> calls[i] == AttemptCall(fullPrompt, maxLength, i)
    ensures story == RetryResult(Finisher(fullPrompt), IsStoryComplete, outcomes, AttemptCount(maxRetries))
    ensures IsStoryComplete(story) || story == IssueMessage || story == IncompleteMessage
  {
    story, calls := RetryLoop(fullPrompt, maxLength, maxRetries, outcomes, Finisher(fullPrompt), IsStoryComplete);
    ResultIsKeptOrMessage(Finisher(fullPrompt), IsStoryComplete, outcomes, AttemptCount(maxRetries));
  }

  /** When no attempt is accepted, none is found. */
  lemma NoneAccepted(finish: string -> string, keep: string -> bool, outcomes: seq<Outcome>, n: nat)
    requires n <= |outcomes|
    requires forall j :: 0 <= j < n ==> !Accepted(finish, keep, outcomes[j])
    ensures FirstTrue(Verdicts(finish, keep, outcomes, n)) == n
  {
  }

  /** The first accepted attempt is the one found. */
  lemma FirstAcceptedAt(finish: string -> string, keep: string -> bool, outcomes: seq<Outcome>, n: nat, a: nat)
    requires a < n <= |outcomes|
    requires forall j :: 0 <= j < a ==> !Accepted(finish, keep, outcomes[j])
    requires Accepted(finish, keep, outcomes[a])
    ensures FirstTrue(Verdicts(finish, keep, outcomes, n)) == a
  {
  }

  /** The loop returns a story the validator keeps, or one of the two messages. */
  lemma ResultIsKeptOrMessage(finish: string -> string, keep: string -> bool, outcomes: seq<Outcome>, n: nat)
    requires n <= |outcomes|
    ensures var r := RetryResult(finish, keep, outcomes, n);
      keep(r) || r == IssueMessage || r == IncompleteMessage
  {
  }

  /** The calls stop at the first accepted attempt: every call before the last
      one was rejected, and stopping short of `n` calls means the last one was
      accepted and its candidate is the story. */
  lemma CallsStopAtFirstAccepted(finish: string -> string, keep: string -> bool, outcomes: seq<Outcome>, n: nat)
    requires n <= |outcomes|
    ensures var c := CallCount(finish, keep, outcomes, n);
      && c <= n
      && (forall j :: 0 <= j < c - 1 ==> !Accepted(finish, keep, outcomes[j]))
      && (c < n ==>
            && c > 0
            && Accepted(finish, keep, outcomes[c - 1])
            && RetryResult(finish, keep, outcomes, n) == finish(outcomes[c - 1].text))
  {
  }

  /** A raise on the last attempt gives the issue message whatever the earlier
      attempts did, as long as none was accepted. */
  lemma LastRaiseGivesIssue(finish: string -> string, keep: string -> bool, outcomes: seq<Outcome>, n: nat)
    requires 0 < n <= |outcomes| && outcomes[n - 1] == Raised
    requires forall j :: 0 <= j < n - 1 ==> !Accepted(finish, keep, outcomes[j])
    ensures RetryResult(finish, keep, outcomes, n) == IssueMessage
    ensures CallCount(finish, keep, outcomes, n) == n
  {
    NoneAccepted(finish, keep, outcomes, n);
  }

  /** Rejection on every attempt, the last one not raising (or no attempt at
      all), gives the incomplete-story message after all `n` calls. */
  lemma AllRejectedGivesIncomplete(finish: string -> string, keep: string -> bool, outcomes: seq<Outcome>, n: nat)
    requires n <= |outcomes|
    requires forall j :: 0 <= j < n ==> !Accepted(finish, keep, outcomes[j])
    requires n > 0 ==> outcomes[n - 1].Generated?
    ensures RetryResult(finish, keep, outcomes, n) == IncompleteMessage
    ensures CallCount(finish, keep, outcomes, n) == n
  {
    NoneAccepted(finish, keep, outcomes, n);
  }

  /** A raise before the last attempt only moves on to the next one: it has the
      same effect as a generated text the validator rejects. */
  lemma EarlierRaiseIsSkipped(finish: string -> string, keep: string -> bool, outcomes: seq<Outcome>,
                              n: nat, i: nat, text: string)
    requires i < n - 1 && n <= |outcomes|
    requires outcomes[i] == Raised && !keep(finish(text))
    ensures RetryResult(finish, keep, outcomes[i := Generated(text)], n) == RetryResult(finish, keep, outcomes, n)
    ensures CallCount(finish, keep, outcomes[i := Generated(text)], n) == CallCount(finish, keep, outcomes, n)
  {
    var other := outcomes[i := Generated(text)];
    assert Verdicts(finish, keep, other, n) == Verdicts(finish, keep, outcomes, n);
  }

  /** With at least one attempt, at least one call is made and no more than
      the attempts. */
  lemma CallCountPositive(finish: string -> string, keep: string -> bool, outcomes: seq<Outcome>, n: nat)
    requires 0 < n <= |outcomes|
    ensures 1 <= CallCount(finish, keep, outcomes, n) <= n
  {
  }
}
