/** runTaskWithRetry: running a verification task a bounded number of times, with weaker parameters near the end. */
module Retry {

  const FATAL_ERRORS: seq<string> := [
    "The address provided as argument contains a contract, but its bytecode",
    "Daily limit of 100 source code submissions reached",
    "has no bytecode. Is the contract deployed to this network",
    "The constructor for"
  ]
  const OK_ERRORS: seq<string> := ["Contract source code already verified", "Already Verified"]
  const UNABLE_VERIFY_ERROR := "Fail - Unable to verify"

  datatype Outcome = Succeeds | Fails(message: string)

  predicate OccursAt(message: string, part: string, i: int) {
    0 <= i <= |message| - |part| && message[i..i + |part|] == part
  }

  // message.includes(part)
  predicate Includes(message: string, part: string) {
    exists i | 0 <= i <= |message| :: OccursAt(message, part, i)
  }

  predicate IncludesSome(message: string, parts: seq<string>) {
    exists k :: 0 <= k < |parts| && Includes(message, parts[k])
  }

  // How the helper reads an outcome. An error that is unable to verify costs the related sources.
  datatype Verdict = Success | OkError | FatalError | Retryable(unable: bool)

  function Read(o: Outcome): Verdict {
    match o
    case Succeeds => Success
    case Fails(message) =>
      if IncludesSome(message, OK_ERRORS) then OkError
      else if IncludesSome(message, FATAL_ERRORS) then FatalError
      else Retryable(Includes(message, UNABLE_VERIFY_ERROR))
  }

  // A text stands somewhere in a message.
  ghost predicate StandsIn(text: string, message: string) {
    exists before, after :: message == before + text + after
  }

  lemma IncludesIff(message: string, text: string)
    ensures Includes(message, text) <==> StandsIn(text, message)
  {
    if Includes(message, text) {
      var i :| 0 <= i <= |message| && OccursAt(message, text, i);
      assert message == message[..i] + text + message[i + |text|..];
    }
    if StandsIn(text, message) {
      var before, after :| message == before + text + after;
      assert OccursAt(message, text, |before|);
    }
  }

  lemma IncludesSomeIff(message: string, texts: seq<string>)
    ensures IncludesSome(message, texts) <==> exists text :: text in texts && StandsIn(text, message)
  {
    forall text ensures Includes(message, text) <==> StandsIn(text, message) {
      IncludesIff(message, text);
    }
  }

  ghost predicate SaysOk(message: string) {
    StandsIn("Contract source code already verified", message) || StandsIn("Already Verified", message)
  }

  ghost predicate SaysFatal(message: string) {
    || StandsIn("The address provided as argument contains a contract, but its bytecode", message)
    || StandsIn("Daily limit of 100 source code submissions reached", message)
    || StandsIn("has no bytecode. Is the contract deployed to this network", message)
    || StandsIn("The constructor for", message)
  }

  ghost predicate SaysUnable(message: string) {
    StandsIn("Fail - Unable to verify", message)
  }

  /** What an error's text makes of an attempt: the texts that are fine come before the fatal ones, and every other
      error asks for a retry. */
  lemma ReadIff(o: Outcome)
    ensures match o
            case Succeeds => Read(o) == Success
            case Fails(message) =>
              && (Read(o) == OkError <==> SaysOk(message))
              && (Read(o) == FatalError <==> !SaysOk(message) && SaysFatal(message))
              && (Read(o) == Retryable(SaysUnable(message)) <==> !SaysOk(message) && !SaysFatal(message))
  {
    if o.Fails? {
      TextsAre(o.message);
      IncludesIff(o.message, UNABLE_VERIFY_ERROR);
    }
  }

  lemma TextsAre(message: string)
    ensures IncludesSome(message, OK_ERRORS) <==> SaysOk(message)
    ensures IncludesSome(message, FATAL_ERRORS) <==> SaysFatal(message)
  {
    hide StandsIn;
    IncludesSomeIff(message, OK_ERRORS);
    IncludesSomeIff(message, FATAL_ERRORS);
    assert forall text :: text in OK_ERRORS <==> text == OK_ERRORS[0] || text == OK_ERRORS[1];
    assert forall text :: text in FATAL_ERRORS <==>
                          || text == FATAL_ERRORS[0] || text == FATAL_ERRORS[1]
                          || text == FATAL_ERRORS[2] || text == FATAL_ERRORS[3];
  }

  // What happens: the k-th run of the task has outcomes(k), the k-th cleanup cleanups(k).
  datatype Plan = Plan(outcomes: nat -> Outcome, cleanups: nat -> Outcome)

  // The task runner, the parameters object and the temporary file's cleanup. runs records whether each run was
  // given relatedSources, cleanups how often the cleanup was called.
  class Session {
    const plan: Plan
    var relatedSources: bool
    var runs: seq<bool>
    var cleanups: nat

    constructor (plan: Plan, relatedSources: bool)
      ensures this.plan == plan && this.relatedSources == relatedSources && runs == [] && cleanups == 0
    {
      this.plan, this.relatedSources, runs, cleanups := plan, relatedSources, [], 0;
    }

    // Hands the parameters to the task.
    method Run() returns (o: Outcome)
      modifies this`runs
      ensures runs == old(runs) + [relatedSources] && o == plan.outcomes(|old(runs)|)
    {
      o := plan.outcomes(|runs|);
      runs := runs + [relatedSources];
    }

    method Cleanup() returns (o: Outcome)
      modifies this`cleanups
      ensures cleanups == old(cleanups) + 1 && o == plan.cleanups(old(cleanups))
    {
      o := plan.cleanups(cleanups);
      cleanups := cleanups + 1;
    }
  }

  // A call with `times` permitted runs makes attempts, `first` being the number of runs and `cleaned` the number
  // of cleanups before it. The j-th attempt runs the task if a run is left, and cleans up if none is or the run
  // succeeded.
  datatype Call = Call(times: int, first: nat, cleaned: nat)

  ghost predicate Cleans(plan: Plan, c: Call, j: nat) {
    j >= c.times || plan.outcomes(c.first + j).Succeeds?
  }

  ghost function CleanupsBefore(plan: Plan, c: Call, j: nat): nat {
    if j == 0 then c.cleaned else CleanupsBefore(plan, c, j - 1) + if Cleans(plan, c, j - 1) then 1 else 0
  }

  // How the j-th attempt ended.
  ghost function VerdictOf(plan: Plan, c: Call, j: nat): Verdict {
    Read(if Cleans(plan, c, j) then plan.cleanups(CleanupsBefore(plan, c, j)) else plan.outcomes(c.first + j))
  }

  ghost predicate NeverUnable(plan: Plan, c: Call, n: int) {
    forall j: nat :: j < n ==> VerdictOf(plan, c, j) != Retryable(true)
  }

  // Whether the run of the j-th attempt has relatedSources.
  ghost predicate Related(plan: Plan, c: Call, related: bool, j: int) {
    related && j < c.times - 1 && NeverUnable(plan, c, j)
  }

  /** What a call has done in n attempts. */
  ghost predicate Retried(plan: Plan, c: Call, related: bool, n: nat, related': bool, runs': seq<bool>,
                          cleanups': nat) {
    // the attempts go on as long as they may be repeated
    && n > 0 && !VerdictOf(plan, c, n - 1).Retryable?
    && (forall j: nat :: j < n - 1 ==> VerdictOf(plan, c, j).Retryable?)
    // the task runs in each of them, but never more often than permitted
    && |runs'| == c.first + (if c.times <= 0 then 0 else if n < c.times then n else c.times)
    // a run has relatedSources unless it is the last permitted one or an earlier attempt was unable to verify
    && (forall k: nat :: c.first <= k < |runs'| ==> (runs'[k] <==> Related(plan, c, related, k - c.first)))
    && (related' <==> related && (n < c.times || c.times <= 0) && NeverUnable(plan, c, n))
    && cleanups' == CleanupsBefore(plan, c, n)
  }

  // The call that repeats this one.
  ghost function Next(plan: Plan, c: Call): Call {
    Call(c.times - 1, if c.times >= 1 then c.first + 1 else c.first, CleanupsBefore(plan, c, 1))
  }

  /** The recursion ends if and only if some attempt is not to be repeated; `stop` is one. */
  method RunTaskWithRetry(s: Session, times: int, ghost stop: nat) returns (ghost attempts: nat)
    requires !VerdictOf(s.plan, Call(times, |s.runs|, s.cleanups), stop).Retryable?
    modifies s
    ensures |s.runs| >= |old(s.runs)| && s.runs[..|old(s.runs)|] == old(s.runs)
    ensures Retried(s.plan, Call(times, |old(s.runs)|, old(s.cleanups)), old(s.relatedSources), attempts,
                    s.relatedSources, s.runs, s.cleanups)
    ensures var first := s.plan.outcomes(|old(s.runs)|);
            times >= 1 && first.Fails? && (SaysOk(first.message) || SaysFatal(first.message)) ==>
              |s.runs| == |old(s.runs)| + 1 && s.cleanups == old(s.cleanups)
    decreases stop
  {
    hide VerdictOf, CleanupsBefore, NeverUnable, Retried;
    ghost var c, related := Call(times, |s.runs|, s.cleanups), s.relatedSources;
    if times >= 1 {
      StopsAtOnce(s.plan, c);
    }
    var counter := times;
    var o := Attempt(s, times);
    var verdict := Read(o);
    if !verdict.Retryable? {
      OnlyAttempt(s.plan, c, related, s.relatedSources, s.runs, s.cleanups);
      attempts := 1;
      return;
    }
    counter := counter - 1;
    if verdict.unable {
      s.relatedSources := false;
    }
    ghost var mid, runs := s.relatedSources, s.runs;
    VerdictShifts(s.plan, c, stop - 1);
    attempts := RunTaskWithRetry(s, counter, stop - 1);
    OneMoreAttempt(s.plan, c, related, mid, attempts, s.relatedSources, runs, s.runs, s.cleanups);
    attempts := attempts + 1;
  }

  /** A first run that fails with a text that is fine or fatal is the only one, and nothing is cleaned up. */
  lemma StopsAtOnce(plan: Plan, c: Call)
    requires c.times >= 1
    ensures var first := plan.outcomes(c.first);
            first.Fails? && (SaysOk(first.message) || SaysFatal(first.message)) ==>
              !VerdictOf(plan, c, 0).Retryable? && CleanupsBefore(plan, c, 1) == c.cleaned
  {
    ReadIff(plan.outcomes(c.first));
  }

  /** The body of the try: a run if one is left, and the cleanup unless the run failed. */
  method Attempt(s: Session, times: int) returns (o: Outcome)
    modifies s
    ensures var c := Call(times, |old(s.runs)|, old(s.cleanups));
            && Read(o) == VerdictOf(s.plan, c, 0) && s.cleanups == CleanupsBefore(s.plan, c, 1)
            && s.relatedSources == (old(s.relatedSources) && times != 1)
            && s.runs == if times >= 1 then old(s.runs) + [s.relatedSources] else old(s.runs)
  {
    if times < 1 {
      o := s.Cleanup();
      return;
    }
    if times == 1 {
      s.relatedSources := false;
    }
    o := s.Run();
    if o.Succeeds? {
      o := s.Cleanup();
    }
  }

  // What the repeating call does is what this one does from its next attempt on.
  lemma {:induction false} CleanupsShift(plan: Plan, c: Call, j: nat)
    ensures CleanupsBefore(plan, Next(plan, c), j) == CleanupsBefore(plan, c, j + 1)
  {
    if j > 0 {
      CleanupsShift(plan, c, j - 1);
    }
  }

  lemma VerdictShifts(plan: Plan, c: Call, j: int)
    ensures j >= 0 ==> VerdictOf(plan, Next(plan, c), j) == VerdictOf(plan, c, j + 1)
  {
    if j >= 0 {
      CleanupsShift(plan, c, j);
    }
  }

  lemma NeverUnableShifts(plan: Plan, c: Call, n: nat)
    ensures NeverUnable(plan, c, n + 1) <==>
            VerdictOf(plan, c, 0) != Retryable(true) && NeverUnable(plan, Next(plan, c), n)
  {
    forall j: nat ensures VerdictOf(plan, Next(plan, c), j) == VerdictOf(plan, c, j + 1) {
      VerdictShifts(plan, c, j);
    }
    if NeverUnable(plan, c, n + 1) {
      forall j: nat | j < n ensures VerdictOf(plan, Next(plan, c), j) != Retryable(true) {
        assert VerdictOf(plan, c, j + 1) != Retryable(true);
      }
    }
    if VerdictOf(plan, c, 0) != Retryable(true) && NeverUnable(plan, Next(plan, c), n) {
      forall j: nat | j < n + 1 ensures VerdictOf(plan, c, j) != Retryable(true) {
        if j > 0 {
          assert VerdictOf(plan, Next(plan, c), j - 1) != Retryable(true);
        }
      }
    }
  }

  // An attempt that is not to be repeated.
  lemma OnlyAttempt(plan: Plan, c: Call, related: bool, related': bool, runs': seq<bool>, cleanups': nat)
    requires !VerdictOf(plan, c, 0).Retryable? && cleanups' == CleanupsBefore(plan, c, 1)
    requires |runs'| == Next(plan, c).first && (c.times >= 1 ==> runs'[c.first] == related')
    requires related' <==> related && c.times != 1
    ensures Retried(plan, c, related, 1, related', runs', cleanups')
  {
  }

  // An attempt that is to be repeated, put in front of what the repetition does.
  lemma OneMoreAttempt(plan: Plan, c: Call, related: bool, mid: bool, n: nat, related': bool,
                       runs: seq<bool>, runs': seq<bool>, cleanups': nat)
    requires VerdictOf(plan, c, 0).Retryable?
    requires |runs| == Next(plan, c).first <= |runs'| && runs'[..|runs|] == runs
    requires c.times >= 1 ==> (runs[c.first] <==> related && c.times > 1)
    requires mid <==> related && c.times != 1 && VerdictOf(plan, c, 0) != Retryable(true)
    requires Retried(plan, Next(plan, c), mid, n, related', runs', cleanups')
    ensures Retried(plan, c, related, n + 1, related', runs', cleanups')
  {
    forall j: nat ensures VerdictOf(plan, Next(plan, c), j) == VerdictOf(plan, c, j + 1) {
      VerdictShifts(plan, c, j);
    }
    forall j: nat | j < n ensures VerdictOf(plan, c, j).Retryable? {
      if j > 0 {
        assert VerdictOf(plan, Next(plan, c), j - 1).Retryable?;
      }
    }
    CleanupsShift(plan, c, n);
    NeverUnableShifts(plan, c, n);
    forall k: nat | c.first <= k < |runs'| ensures runs'[k] <==> Related(plan, c, related, k - c.first) {
      if k == c.first {
        assert runs'[k] == runs[k];
      } else {
        NeverUnableShifts(plan, c, k - c.first - 1);
        assert runs'[k] <==> Related(plan, Next(plan, c), mid, k - c.first - 1);
      }
    }
  }

  /** Once dropped, relatedSources never returns; the last permitted run never has it; a call with at least
      one permitted run does run the task, at most that often. */
  lemma DegradesOneWay(plan: Plan, c: Call, related: bool, n: nat, related': bool, runs': seq<bool>, cleanups': nat)
    requires c.times >= 1
    requires Retried(plan, c, related, n, related', runs', cleanups')
    ensures forall j, k :: c.first <= j < k < |runs'| && !runs'[j] ==> !runs'[k]
    ensures |runs'| == c.first + c.times ==> !runs'[c.first + c.times - 1] && !related'
    ensures c.first < |runs'| <= c.first + c.times
  {
    forall j, k | c.first <= j < k < |runs'| && !runs'[j] ensures !runs'[k] {
      if NeverUnable(plan, c, k - c.first) {
        assert NeverUnable(plan, c, j - c.first);
      }
    }
  }

  ghost predicate NeverThrows(cleanups: nat -> Outcome) {
    forall k: nat :: cleanups(k).Succeeds?
  }

  // With a cleanup that never throws, the cleanup that ends the call is its only one.
  lemma {:induction false} NoCleanupYet(plan: Plan, c: Call, n: nat)
    requires NeverThrows(plan.cleanups) && forall j: nat :: j < n ==> VerdictOf(plan, c, j).Retryable?
    ensures CleanupsBefore(plan, c, n) == c.cleaned
  {
    if n > 0 {
      NoCleanupYet(plan, c, n - 1);
      assert VerdictOf(plan, c, n - 1).Retryable?;
    }
  }

  /** With a cleanup that never throws every call ends, at the latest after the permitted runs, and cleans up
      exactly once, except after an error that ends the retries, when it does not. */
  lemma CleansUpOnce(plan: Plan, c: Call, related: bool, n: nat, related': bool, runs': seq<bool>, cleanups': nat)
    requires NeverThrows(plan.cleanups)
    ensures !VerdictOf(plan, c, if c.times < 0 then 0 else c.times).Retryable?
    ensures Retried(plan, c, related, n, related', runs', cleanups') ==>
              && n <= 1 + (if c.times < 0 then 0 else c.times)
              && cleanups' == c.cleaned + if VerdictOf(plan, c, n - 1) in {OkError, FatalError} then 0 else 1
  {
    if Retried(plan, c, related, n, related', runs', cleanups') {
      NoCleanupYet(plan, c, n - 1);
      assert CleanupsBefore(plan, c, n) == c.cleaned + if Cleans(plan, c, n - 1) then 1 else 0;
      var last: nat := if c.times < 0 then 0 else c.times;
      assert last < n - 1 ==> VerdictOf(plan, c, last).Retryable?;
    }
  }

  /** A task that ends no retries itself, with a cleanup whose every error asks for one, goes on for ever: no
      attempt is the last, even if every run succeeds. */
  lemma NoAttemptIsLast(plan: Plan, c: Call)
    requires forall k: nat :: Read(plan.cleanups(k)).Retryable?
    requires forall k: nat :: Read(plan.outcomes(k)) == Success || Read(plan.outcomes(k)).Retryable?
    ensures forall j: nat :: VerdictOf(plan, c, j).Retryable?
    ensures forall related, n, related', runs', cleanups' :: !Retried(plan, c, related, n, related', runs', cleanups')
  {
    forall j: nat ensures VerdictOf(plan, c, j).Retryable? {
      assert Read(plan.outcomes(c.first + j)) == Success <==> plan.outcomes(c.first + j).Succeeds?;
    }
  }
}
