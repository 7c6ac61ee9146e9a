/** The admission gate's wait loop: on each tick it force-continues, aborts,
    finds no earlier active run and lets the caller through, or picks the most
    recent earlier active run and schedules the next tick after a poll delay. */
module Wait {
  import Decimal

  datatype Option<+T> = None | Some(value: T) {
    function GetOr(default: T): T {
      match this
      case Some(v) => v
      case None => default
    }
  }

  /** A workflow run as the run lister reports it. */
  datatype Run = Run(id: nat, status: string, htmlUrl: string)

  /** The resolved action inputs. A threshold of 0 stands for "not set": the
      source tests each threshold for truthiness before comparing with it. */
  datatype Input = Input(
    owner: string,
    repo: string,
    branch: Option<string>,
    sameBranchOnly: bool,
    runId: nat,
    pollIntervalSeconds: nat,
    continueAfterSeconds: nat,
    abortAfterSeconds: nat,
    exponentialBackoffRetries: bool)

  /** The arguments of the run lister call a tick makes. */
  datatype RunsQuery = RunsQuery(owner: string, repo: string, branch: Option<string>, workflowId: string)

  /** How one tick ends. */
  datatype Tick =
    | ForceContinue(seconds: nat)            // resolves with the seconds waited
    | Abort(secondsSoFar: Option<nat>)        // throws; the message interpolates secondsSoFar as given
    | NoPredecessor                           // resolves with undefined
    | Await(previousRun: Run, delay: nat, nextSeconds: nat)  // sleeps, then ticks again

  /** A tick's outcome, the run query it issued (if any) and the new attempt counter. */
  datatype Step = Step(tick: Tick, query: Option<RunsQuery>, attempt: nat)

  /** `secondsSoFar || 0`: an absent count of seconds is zero. */
  function Elapsed(secondsSoFar: Option<nat>): nat {
    secondsSoFar.GetOr(0)
  }

  predicate ContinueReached(input: Input, secondsSoFar: Option<nat>) {
    input.continueAfterSeconds != 0 && Elapsed(secondsSoFar) >= input.continueAfterSeconds
  }

  predicate AbortReached(input: Input, secondsSoFar: Option<nat>) {
    input.abortAfterSeconds != 0 && Elapsed(secondsSoFar) >= input.abortAfterSeconds
  }

  /** The run lister call: scoped to the input's branch only when sameBranchOnly is set. */
  function Query(input: Input, workflowId: string): RunsQuery {
    RunsQuery(input.owner, input.repo, if input.sameBranchOnly then input.branch else None, workflowId)
  }

  predicate IsActive(run: Run) {
    run.status == "in_progress" || run.status == "queued"
  }

  /** A run the current run has to wait for: still active and started earlier. */
  predicate IsPredecessor(runId: nat, run: Run) {
    IsActive(run) && run.id < runId
  }

  /** Most recent first. */
  predicate SortedByIdDescending(runs: seq<Run>) {
    forall i, j :: 0 <= i < j < |runs| ==> runs[i].id >= runs[j].id
  }

  /** The first filter (`["in_progress", "queued"].includes(run.status)`), in input order. */
  function FilterActive(runs: seq<Run>): seq<Run> {
    if runs == [] then []
    else (if IsActive(runs[0]) then [runs[0]] else []) + FilterActive(runs[1..])
  }

  /** The first filter keeps every active run, as often as it occurs, and nothing else. */
  lemma {:induction false} FilterActiveCounts(runs: seq<Run>)
    ensures forall x :: multiset(FilterActive(runs))[x] == if IsActive(x) then multiset(runs)[x] else 0
  {
    if runs != [] {
      assert runs == [runs[0]] + runs[1..];
      FilterActiveCounts(runs[1..]);
    }
  }

  /** The second filter (`run.id < runId`), in input order. */
  function FilterEarlier(runs: seq<Run>, runId: nat): seq<Run> {
    if runs == [] then []
    else (if runs[0].id < runId then [runs[0]] else []) + FilterEarlier(runs[1..], runId)
  }

  /** The second filter keeps every run with a smaller id, as often as it occurs, and nothing else. */
  lemma {:induction false} FilterEarlierCounts(runs: seq<Run>, runId: nat)
    ensures forall x :: multiset(FilterEarlier(runs, runId))[x] == if x.id < runId then multiset(runs)[x] else 0
  {
    if runs != [] {
      assert runs == [runs[0]] + runs[1..];
      FilterEarlierCounts(runs[1..], runId);
    }
  }

  /** Inserts x before the first run whose id is not above x's, so that among
      equal ids the run met first stays first. */
  function Insert(x: Run, runs: seq<Run>): seq<Run> {
    if runs == [] || x.id >= runs[0].id then [x] + runs
    else [runs[0]] + Insert(x, runs[1..])
  }

  /** Inserting adds x and keeps a most-recent-first order. */
  lemma {:induction false} InsertCorrect(x: Run, runs: seq<Run>)
    requires SortedByIdDescending(runs)
    ensures multiset(Insert(x, runs)) == multiset(runs) + multiset{x}
    ensures SortedByIdDescending(Insert(x, runs))
    ensures Insert(x, runs)[0] == x || (runs != [] && Insert(x, runs)[0] == runs[0])
  {
    if runs != [] && x.id < runs[0].id {
      assert runs == [runs[0]] + runs[1..];
      var tail := Insert(x, runs[1..]);
      InsertCorrect(x, runs[1..]);
      var r := [runs[0]] + tail;
      assert r[1..] == tail;
      forall i, j | 0 <= i < j < |r|
        ensures r[i].id >= r[j].id
      {
        if i == 0 {
          assert r[j].id <= tail[0].id <= runs[0].id;
        }
      }
    }
  }

  /** `sort((a, b) => b.id - a.id)`, as an insertion sort. */
  function SortByIdDescending(runs: seq<Run>): seq<Run> {
    if runs == [] then [] else Insert(runs[0], SortByIdDescending(runs[1..]))
  }

  /** The sort returns the same runs, highest id first. */
  lemma {:induction false} SortCorrect(runs: seq<Run>)
    ensures multiset(SortByIdDescending(runs)) == multiset(runs)
    ensures SortedByIdDescending(SortByIdDescending(runs))
  {
    if runs != [] {
      assert runs == [runs[0]] + runs[1..];
      SortCorrect(runs[1..]);
      InsertCorrect(runs[0], SortByIdDescending(runs[1..]));
    }
  }

  /** `previousRuns`: both filters, then the sort. */
  function Predecessors(runs: seq<Run>, runId: nat): seq<Run> {
    SortByIdDescending(FilterEarlier(FilterActive(runs), runId))
  }

  /** The predecessor list holds exactly the active runs with a smaller id than
      runId, each as often as the lister reported it, most recent first. */
  lemma PredecessorsCorrect(runs: seq<Run>, runId: nat)
    ensures forall x :: multiset(Predecessors(runs, runId))[x] == (if IsPredecessor(runId, x) then multiset(runs)[x] else 0)
    ensures SortedByIdDescending(Predecessors(runs, runId))
  {
    FilterActiveCounts(runs);
    FilterEarlierCounts(FilterActive(runs), runId);
    SortCorrect(FilterEarlier(FilterActive(runs), runId));
  }

  /** The head of the predecessor list exists exactly when some reported run is a
      predecessor, and it is then the predecessor with the largest id. */
  lemma MostRecentPredecessor(runs: seq<Run>, runId: nat)
    ensures Predecessors(runs, runId) != [] <==> exists x :: x in runs && IsPredecessor(runId, x)
    ensures Predecessors(runs, runId) != [] ==>
      var p := Predecessors(runs, runId)[0];
      p in runs && IsPredecessor(runId, p) &&
      forall x :: x in runs && IsPredecessor(runId, x) ==> x.id <= p.id
  {
    var r := Predecessors(runs, runId);
    PredecessorsCorrect(runs, runId);
    if r != [] {
      assert multiset(r)[r[0]] > 0;
      forall x | x in runs && IsPredecessor(runId, x)
        ensures x.id <= r[0].id
      {
        assert multiset(r)[x] > 0;
        var k :| 0 <= k < |r| && r[k] == x;
      }
    } else {
      forall x | x in runs
        ensures !IsPredecessor(runId, x)
      {
        assert multiset(runs)[x] > 0 && multiset(r)[x] == 0;
      }
    }
  }

  /** The poll delay for this tick. Under backoff the factor is `2 * attempt || 1`:
      1 on the first backoff tick, then 2, 4, 6, 8, ... times the interval. */
  function PollDelay(input: Input, attempt: nat): (delay: nat)
    ensures delay >= input.pollIntervalSeconds
    ensures !input.exponentialBackoffRetries ==> delay == input.pollIntervalSeconds
  {
    if input.exponentialBackoffRetries then
      var factor := 2 * attempt;
      input.pollIntervalSeconds * (if factor != 0 then factor else 1)
    else
      input.pollIntervalSeconds
  }

  /** The counter after a waiting tick: it moves only under backoff. */
  function NextAttempt(input: Input, attempt: nat): nat {
    if input.exponentialBackoffRetries then attempt + 1 else attempt
  }

  /** A later attempt never waits less. */
  lemma DelayMonotone(input: Input, a: nat, b: nat)
    requires a <= b
    ensures PollDelay(input, a) <= PollDelay(input, b)
  {
    if input.exponentialBackoffRetries && a > 0 {
      var p := input.pollIntervalSeconds;
      assert p * (2 * a) <= p * (2 * b) by {
        assert p * (2 * b) == p * (2 * a) + p * (2 * (b - a));
      }
    }
  }

  /** One tick of `wait`, checked in the source's order: force-continue, abort,
      then the predecessor search over the reported runs. */
  function StepOf(input: Input, workflowId: string, attempt: nat, secondsSoFar: Option<nat>, runs: seq<Run>): (r: Step)
    // force-continue wins, even when the abort threshold is reached as well
    ensures r.tick.ForceContinue? <==> ContinueReached(input, secondsSoFar)
    ensures r.tick.ForceContinue? ==> r.tick.seconds == Elapsed(secondsSoFar)
    ensures r.tick.Abort? <==> !ContinueReached(input, secondsSoFar) && AbortReached(input, secondsSoFar)
    // the error never reads "undefined": a reached threshold needs a positive count
    ensures r.tick.Abort? ==> r.tick.secondsSoFar == secondsSoFar && secondsSoFar.Some?
    // the runs are queried only once neither threshold is reached
    ensures r.query.Some? <==> !ContinueReached(input, secondsSoFar) && !AbortReached(input, secondsSoFar)
    ensures r.query.Some? ==> r.query.value == Query(input, workflowId)
    ensures r.tick.NoPredecessor? <==> r.query.Some? && Predecessors(runs, input.runId) == []
    ensures r.tick.Await? ==> r.tick.previousRun == Predecessors(runs, input.runId)[0]
    ensures r.tick.Await? ==>
      r.tick.delay == PollDelay(input, attempt) &&
      r.tick.nextSeconds == Elapsed(secondsSoFar) + r.tick.delay
    // the counter moves only on a backoff wait, and then by one
    ensures r.attempt == if r.tick.Await? && input.exponentialBackoffRetries then attempt + 1 else attempt
  {
    if ContinueReached(input, secondsSoFar) then
      Step(ForceContinue(Elapsed(secondsSoFar)), None, attempt)
    else if AbortReached(input, secondsSoFar) then
      Step(Abort(secondsSoFar), None, attempt)
    else
      var previousRuns := Predecessors(runs, input.runId);
      if previousRuns == [] then
        Step(NoPredecessor, Some(Query(input, workflowId)), attempt)
      else
        var delay := PollDelay(input, attempt);
        Step(Await(previousRuns[0], delay, Elapsed(secondsSoFar) + delay),
             Some(Query(input, workflowId)),
             NextAttempt(input, attempt))
  }

  /** The run a waiting tick names is the most recent earlier active run, and a
      tick finds no predecessor exactly when the runs hold no earlier active run. */
  lemma StepAwaitsMostRecent(input: Input, workflowId: string, attempt: nat, secondsSoFar: Option<nat>, runs: seq<Run>)
    ensures var r := StepOf(input, workflowId, attempt, secondsSoFar, runs);
      r.tick.NoPredecessor? <==>
        r.query.Some? && forall x :: x in runs ==> !IsPredecessor(input.runId, x)
    ensures var r := StepOf(input, workflowId, attempt, secondsSoFar, runs);
      r.tick.Await? ==>
        var p := r.tick.previousRun;
        p in runs && IsPredecessor(input.runId, p) &&
        forall x :: x in runs && IsPredecessor(input.runId, x) ==> x.id <= p.id
  {
    MostRecentPredecessor(runs, input.runId);
  }

  /** The value written to the force_continued output, if the tick writes one. */
  function ForceContinuedOutput(tick: Tick): Option<string>
  {
    match tick
    case ForceContinue(_) => Some("1")
    case Abort(_) => Some("")
    case NoPredecessor => Some("")
    case Await(_, _, _) => None
  }

  /** The force_continued output a tick writes, in terms of what the tick decides
      on: "1" once the continue threshold is reached; "" once the abort threshold
      is reached instead, or when no reported run is an earlier active one;
      nothing while an earlier active run is still being waited for. */
  lemma ForceContinuedFlag(input: Input, workflowId: string, attempt: nat, secondsSoFar: Option<nat>, runs: seq<Run>)
    ensures var v := ForceContinuedOutput(StepOf(input, workflowId, attempt, secondsSoFar, runs).tick);
      v == Some("1") <==> ContinueReached(input, secondsSoFar)
    ensures var v := ForceContinuedOutput(StepOf(input, workflowId, attempt, secondsSoFar, runs).tick);
      v == Some("") <==>
        !ContinueReached(input, secondsSoFar) &&
        (AbortReached(input, secondsSoFar) || forall x :: x in runs ==> !IsPredecessor(input.runId, x))
    ensures var v := ForceContinuedOutput(StepOf(input, workflowId, attempt, secondsSoFar, runs).tick);
      v == None <==>
        !ContinueReached(input, secondsSoFar) && !AbortReached(input, secondsSoFar) &&
        exists x :: x in runs && IsPredecessor(input.runId, x)
  {
    StepAwaitsMostRecent(input, workflowId, attempt, secondsSoFar, runs);
  }

  /** The text of the error thrown on abort; an absent count interpolates as "undefined". */
  function AbortMessage(secondsSoFar: Option<nat>): string {
    "Aborted after waiting "
      + (match secondsSoFar case Some(n) => Decimal.Show(n) case None => "undefined")
      + " seconds"
  }

  /** The abort error carries the seconds waited: they can be read back from it. */
  lemma AbortMessageCarriesSeconds(seconds: nat)
    ensures var m := AbortMessage(Some(seconds));
      22 < |m| - 8 &&
      m[..22] == "Aborted after waiting " && m[|m| - 8..] == " seconds" &&
      Decimal.IsCanonical(m[22..|m| - 8]) && Decimal.Value(m[22..|m| - 8]) == seconds
  {
    var m := AbortMessage(Some(seconds));
    assert m[22..|m| - 8] == Decimal.Show(seconds);
    Decimal.ValueOfShow(seconds);
  }

  /** How a chain of ticks ends: with a tick that does not wait, or with the
      snapshots used up while still waiting. */
  datatype Outcome = Finished(tick: Tick) | Pending

  /** The end of a chain, the delays slept on the way, the seconds count entering
      the last tick (or, when Pending, the one the next tick would get) and the
      final attempt counter. */
  datatype Trace = Trace(outcome: Outcome, delays: seq<nat>, seconds: nat, attempt: nat)

  function Sum(delays: seq<nat>): nat {
    if delays == [] then 0 else delays[0] + Sum(delays[1..])
  }

  /** The first n delays a chain sleeps when it starts at the given attempt. */
  function Schedule(input: Input, attempt: nat, n: nat): seq<nat>
    decreases n
  {
    if n == 0 then [] else [PollDelay(input, attempt)] + Schedule(input, NextAttempt(input, attempt), n - 1)
  }

  /** The i-th delay of a schedule is the delay for attempt number attempt + i,
      which is the constant interval when backoff is off. */
  lemma {:induction false} ScheduleAt(input: Input, attempt: nat, n: nat, i: nat)
    requires i < n
    ensures |Schedule(input, attempt, n)| == n
    ensures Schedule(input, attempt, n)[i] == PollDelay(input, attempt + i)
    ensures !input.exponentialBackoffRetries ==> Schedule(input, attempt, n)[i] == input.pollIntervalSeconds
    decreases n
  {
    if i > 0 {
      ScheduleAt(input, NextAttempt(input, attempt), n - 1, i - 1);
    } else if n > 1 {
      ScheduleAt(input, NextAttempt(input, attempt), n - 1, 0);
    }
  }

  /** With an interval of 5 a chain starting at attempt 0 sleeps 5, 10, 20, 30,
      40 seconds: the factor grows by two per attempt after the first, it does
      not double. */
  lemma BackoffSchedule(input: Input)
    requires input.exponentialBackoffRetries && input.pollIntervalSeconds == 5
    ensures Schedule(input, 0, 5) == [5, 10, 20, 30, 40]
  {
  }

  /** Under backoff, n delays from attempt a >= 1 add up to p * n * (2a + n - 1). */
  lemma {:induction false} BackoffSumFrom(input: Input, a: nat, n: nat)
    requires input.exponentialBackoffRetries && a >= 1
    ensures Sum(Schedule(input, a, n)) == input.pollIntervalSeconds * (n * (2 * a + n - 1))
    decreases n
  {
    if n > 0 {
      var p := input.pollIntervalSeconds;
      var m := n - 1;
      BackoffSumFrom(input, a + 1, m);
      var s := Schedule(input, a, n);
      assert s[1..] == Schedule(input, a + 1, m);
      assert s[0] == p * (2 * a);
      assert Sum(s) == p * (2 * a) + p * (m * (2 * a + m + 1));
      assert n * (2 * a + n - 1) == 2 * a + m * (2 * a + m + 1) by {
        assert n * (2 * a + n - 1) == (m + 1) * (2 * a + m);
        assert (m + 1) * (2 * a + m) == m * (2 * a + m) + (2 * a + m);
        assert m * (2 * a + m + 1) == m * (2 * a + m) + m;
      }
    }
  }

  /** The total backoff wait over the first n ticks from attempt 0 is
      p * (1 + n * (n - 1)): it grows quadratically in the number of ticks,
      not exponentially. */
  lemma BackoffTotal(input: Input, n: nat)
    requires input.exponentialBackoffRetries && n >= 1
    ensures Sum(Schedule(input, 0, n)) == input.pollIntervalSeconds * (1 + n * (n - 1))
  {
    var p := input.pollIntervalSeconds;
    var s := Schedule(input, 0, n);
    assert s[1..] == Schedule(input, 1, n - 1);
    BackoffSumFrom(input, 1, n - 1);
    assert (n - 1) * (2 * 1 + (n - 1) - 1) == n * (n - 1);
    assert Sum(s) == p + p * (n * (n - 1));
  }

  /** The recursion of `wait` over a sequence of run snapshots, the i-th of which
      the lister returns on the i-th tick: one snapshot is used per tick. */
  function WaitChain(input: Input, workflowId: string, attempt: nat, secondsSoFar: Option<nat>,
                     snapshots: seq<seq<Run>>): (r: Trace)
    ensures |r.delays| <= |snapshots|
    ensures r.outcome.Pending? ==> |r.delays| == |snapshots|
    ensures r.outcome.Finished? ==> !r.outcome.tick.Await?
    // a force-continue resolves with, and an abort reports, the initial seconds plus all delays
    ensures r.outcome.Finished? && r.outcome.tick.ForceContinue? ==> r.outcome.tick.seconds == r.seconds
    ensures r.outcome.Finished? && r.outcome.tick.Abort? ==> r.outcome.tick.secondsSoFar == Some(r.seconds)
    // the accumulated seconds are the sum of the delays slept
    ensures r.seconds == Elapsed(secondsSoFar) + Sum(r.delays)
    // the i-th delay is the one for the i-th attempt; the counter only goes up
    ensures r.delays == Schedule(input, attempt, |r.delays|)
    ensures r.attempt == attempt + (if input.exponentialBackoffRetries then |r.delays| else 0)
    decreases |snapshots|
  {
    if snapshots == [] then
      Trace(Pending, [], Elapsed(secondsSoFar), attempt)
    else
      var step := StepOf(input, workflowId, attempt, secondsSoFar, snapshots[0]);
      if !step.tick.Await? then
        Trace(Finished(step.tick), [], Elapsed(secondsSoFar), step.attempt)
      else
        var rest := WaitChain(input, workflowId, step.attempt, Some(step.tick.nextSeconds), snapshots[1..]);
        var delays := [step.tick.delay] + rest.delays;
        assert delays[1..] == rest.delays;
        Trace(rest.outcome, delays, rest.seconds, rest.attempt)
  }

  /** A finished chain ends on the tick taken over the snapshot after the last
      wait, at the accumulated seconds and the final counter. */
  lemma {:induction false} ChainFinalTick(input: Input, workflowId: string, attempt: nat, secondsSoFar: Option<nat>,
                                          snapshots: seq<seq<Run>>)
    ensures var r := WaitChain(input, workflowId, attempt, secondsSoFar, snapshots);
      r.outcome.Finished? ==>
        |r.delays| < |snapshots| &&
        r.outcome.tick == StepOf(input, workflowId, r.attempt,
                                 if r.delays == [] then secondsSoFar else Some(r.seconds),
                                 snapshots[|r.delays|]).tick
    decreases |snapshots|
  {
    if snapshots != [] {
      var step := StepOf(input, workflowId, attempt, secondsSoFar, snapshots[0]);
      if step.tick.Await? {
        var rest := WaitChain(input, workflowId, step.attempt, Some(step.tick.nextSeconds), snapshots[1..]);
        ChainFinalTick(input, workflowId, step.attempt, Some(step.tick.nextSeconds), snapshots[1..]);
        if rest.outcome.Finished? {
          assert snapshots[1..][|rest.delays|] == snapshots[1 + |rest.delays|];
          if rest.delays == [] {
            assert rest.seconds == step.tick.nextSeconds;
          }
        }
      }
    }
  }

  /** Every one of the given delays was slept by a tick that waited: the i-th
      tick, at the counter after i backoff waits and at the seconds accumulated
      over the first i delays, named a predecessor. */
  predicate WaitedThrough(input: Input, workflowId: string, attempt: nat, secondsSoFar: Option<nat>,
                          snapshots: seq<seq<Run>>, delays: seq<nat>)
  {
    |delays| <= |snapshots| &&
    forall i :: 0 <= i < |delays| ==>
      StepOf(input, workflowId,
             attempt + (if input.exponentialBackoffRetries then i else 0),
             if i == 0 then secondsSoFar else Some(Elapsed(secondsSoFar) + Sum(delays[..i])),
             snapshots[i]).tick.Await?
  }

  /** The chain stops at the first tick that does not wait: every tick before
      the last one waited. */
  lemma {:induction false} ChainWaitsBeforeEnd(input: Input, workflowId: string, attempt: nat, secondsSoFar: Option<nat>,
                                               snapshots: seq<seq<Run>>)
    ensures WaitedThrough(input, workflowId, attempt, secondsSoFar, snapshots,
                          WaitChain(input, workflowId, attempt, secondsSoFar, snapshots).delays)
    decreases |snapshots|
  {
    if snapshots != [] {
      var step := StepOf(input, workflowId, attempt, secondsSoFar, snapshots[0]);
      if step.tick.Await? {
        var rest := WaitChain(input, workflowId, step.attempt, Some(step.tick.nextSeconds), snapshots[1..]);
        ChainWaitsBeforeEnd(input, workflowId, step.attempt, Some(step.tick.nextSeconds), snapshots[1..]);
        WaitsShift(input, workflowId, attempt, secondsSoFar, snapshots, step, rest.delays);
      }
    }
  }

  /** The waits of the chain after the first tick, shifted by one: with the
      first tick waiting, the whole chain waited through one delay more. */
  lemma WaitsShift(input: Input, workflowId: string, attempt: nat, secondsSoFar: Option<nat>,
                   snapshots: seq<seq<Run>>, step: Step, rest: seq<nat>)
    requires snapshots != [] && step == StepOf(input, workflowId, attempt, secondsSoFar, snapshots[0])
    requires step.tick.Await?
    requires WaitedThrough(input, workflowId, step.attempt, Some(step.tick.nextSeconds), snapshots[1..], rest)
    ensures WaitedThrough(input, workflowId, attempt, secondsSoFar, snapshots, [step.tick.delay] + rest)
  {
    var delays := [step.tick.delay] + rest;
    var next := Some(step.tick.nextSeconds);
    forall i | 0 <= i < |delays|
      ensures StepOf(input, workflowId,
                     attempt + (if input.exponentialBackoffRetries then i else 0),
                     if i == 0 then secondsSoFar else Some(Elapsed(secondsSoFar) + Sum(delays[..i])),
                     snapshots[i]).tick.Await?
    {
      if i > 0 {
        assert snapshots[1..][i - 1] == snapshots[i];
        ShiftedWait(input, workflowId, attempt, secondsSoFar, snapshots, step, delays, rest, i);
      }
    }
  }

  /** One tick of the shift: the (i-1)-th tick after the first wait is the i-th
      tick of the whole chain. */
  lemma ShiftedWait(input: Input, workflowId: string, attempt: nat, secondsSoFar: Option<nat>,
                    snapshots: seq<seq<Run>>, step: Step, delays: seq<nat>, rest: seq<nat>, i: nat)
    requires step.tick.Await? && step.tick.nextSeconds == Elapsed(secondsSoFar) + step.tick.delay
    requires step.attempt == NextAttempt(input, attempt)
    requires delays == [step.tick.delay] + rest && 0 < i < |delays| && i < |snapshots|
    requires StepOf(input, workflowId,
                    step.attempt + (if input.exponentialBackoffRetries then i - 1 else 0),
                    if i - 1 == 0 then Some(step.tick.nextSeconds)
                    else Some(Elapsed(Some(step.tick.nextSeconds)) + Sum(rest[..i - 1])),
                    snapshots[i]).tick.Await?
    ensures StepOf(input, workflowId,
                   attempt + (if input.exponentialBackoffRetries then i else 0),
                   Some(Elapsed(secondsSoFar) + Sum(delays[..i])),
                   snapshots[i]).tick.Await?
  {
    ShiftedTick(input, workflowId, attempt, secondsSoFar, step, delays, rest, i);
  }

  /** The arguments of the i-th tick of a chain, seen from the chain that starts
      after its first wait. */
  lemma ShiftedTick(input: Input, workflowId: string, attempt: nat, secondsSoFar: Option<nat>,
                    step: Step, delays: seq<nat>, rest: seq<nat>, i: nat)
    requires step.tick.Await? && step.tick.nextSeconds == Elapsed(secondsSoFar) + step.tick.delay
    requires step.attempt == NextAttempt(input, attempt)
    requires delays == [step.tick.delay] + rest && 0 < i < |delays|
    ensures attempt + (if input.exponentialBackoffRetries then i else 0)
      == step.attempt + (if input.exponentialBackoffRetries then i - 1 else 0)
    ensures Some(Elapsed(secondsSoFar) + Sum(delays[..i]))
      == if i - 1 == 0 then Some(step.tick.nextSeconds)
         else Some(Elapsed(Some(step.tick.nextSeconds)) + Sum(rest[..i - 1]))
  {
    assert (delays[..i])[1..] == rest[..i - 1];
    if i == 1 {
      assert rest[..0] == [];
    }
  }

  /** A trace with delays already slept put in front of its own. */
  function After(delays: seq<nat>, trace: Trace): Trace {
    Trace(trace.outcome, delays + trace.delays, trace.seconds, trace.attempt)
  }

  /** One unfolding of WaitChain, for the loop that implements it. */
  lemma ChainUnfold(input: Input, workflowId: string, attempt: nat, secondsSoFar: Option<nat>,
                    snapshots: seq<seq<Run>>, step: Step, delays: seq<nat>)
    requires snapshots != []
    requires step == StepOf(input, workflowId, attempt, secondsSoFar, snapshots[0])
    ensures !step.tick.Await? ==>
      WaitChain(input, workflowId, attempt, secondsSoFar, snapshots)
        == Trace(Finished(step.tick), [], Elapsed(secondsSoFar), step.attempt)
    ensures step.tick.Await? ==>
      After(delays, WaitChain(input, workflowId, attempt, secondsSoFar, snapshots))
        == After(delays + [step.tick.delay],
                 WaitChain(input, workflowId, step.attempt, Some(step.tick.nextSeconds), snapshots[1..]))
  {
    if step.tick.Await? {
      var rest := WaitChain(input, workflowId, step.attempt, Some(step.tick.nextSeconds), snapshots[1..]);
      assert delays + ([step.tick.delay] + rest.delays) == (delays + [step.tick.delay]) + rest.delays;
    }
  }

  lemma {:induction false} SumAtLeast(delays: seq<nat>, least: nat)
    requires forall i :: 0 <= i < |delays| ==> delays[i] >= least
    ensures Sum(delays) >= least * |delays|
  {
    if delays != [] {
      SumAtLeast(delays[1..], least);
      assert least * |delays| == least + least * |delays[1..]|;
    }
  }

  /** With a positive interval every wait adds at least one interval to the
      accumulated seconds. */
  lemma TimeGrows(input: Input, workflowId: string, attempt: nat, secondsSoFar: Option<nat>,
                  snapshots: seq<seq<Run>>)
    ensures var r := WaitChain(input, workflowId, attempt, secondsSoFar, snapshots);
      r.seconds >= Elapsed(secondsSoFar) + input.pollIntervalSeconds * |r.delays|
  {
    var r := WaitChain(input, workflowId, attempt, secondsSoFar, snapshots);
    forall i | 0 <= i < |r.delays|
      ensures r.delays[i] >= input.pollIntervalSeconds
    {
      ScheduleAt(input, attempt, |r.delays|, i);
    }
    SumAtLeast(r.delays, input.pollIntervalSeconds);
  }

  /** A set threshold bounds the chain: once enough ticks are available to
      accumulate it, the chain has ended by force-continuing or aborting, or
      earlier. */
  lemma {:induction false} ThresholdEndsChain(input: Input, workflowId: string, attempt: nat,
                                              secondsSoFar: Option<nat>, snapshots: seq<seq<Run>>, threshold: nat)
    requires threshold != 0
    requires threshold == input.continueAfterSeconds || threshold == input.abortAfterSeconds
    requires input.pollIntervalSeconds > 0
    requires |snapshots| > 0
    requires Elapsed(secondsSoFar) + input.pollIntervalSeconds * (|snapshots| - 1) >= threshold
    ensures WaitChain(input, workflowId, attempt, secondsSoFar, snapshots).outcome.Finished?
    decreases |snapshots|
  {
    var step := StepOf(input, workflowId, attempt, secondsSoFar, snapshots[0]);
    if step.tick.Await? {
      var p := input.pollIntervalSeconds;
      assert Elapsed(secondsSoFar) < threshold;
      assert |snapshots| > 1;
      assert p * (|snapshots| - 1) == p * (|snapshots| - 2) + p;
      ThresholdEndsChain(input, workflowId, step.attempt, Some(step.tick.nextSeconds), snapshots[1..], threshold);
    }
  }

  /** With neither threshold set and an earlier active run in every snapshot,
      the loop keeps polling: it never ends on its own. */
  lemma {:induction false} NoThresholdKeepsPolling(input: Input, workflowId: string, attempt: nat,
                                                   secondsSoFar: Option<nat>, snapshots: seq<seq<Run>>)
    requires input.continueAfterSeconds == 0 && input.abortAfterSeconds == 0
    requires forall i :: 0 <= i < |snapshots| ==> exists x :: x in snapshots[i] && IsPredecessor(input.runId, x)
    ensures WaitChain(input, workflowId, attempt, secondsSoFar, snapshots).outcome.Pending?
    decreases |snapshots|
  {
    if snapshots != [] {
      var step := StepOf(input, workflowId, attempt, secondsSoFar, snapshots[0]);
      StepAwaitsMostRecent(input, workflowId, attempt, secondsSoFar, snapshots[0]);
      assert step.tick.Await?;
      NoThresholdKeepsPolling(input, workflowId, step.attempt, Some(step.tick.nextSeconds), snapshots[1..]);
    }
  }

  /** A `Waiter`: the action inputs and workflow it serves, and the backoff
      attempt counter that persists from tick to tick. */
  class Waiter {
    const workflowId: string
    const input: Input
    var attempt: nat

    constructor (workflowId: string, input: Input)
      ensures this.workflowId == workflowId && this.input == input
      ensures attempt == 0
    {
      this.workflowId := workflowId;
      this.input := input;
      this.attempt := 0;
    }

    /** One tick of `wait`, given the runs the lister would return. */
    method Tick(secondsSoFar: Option<nat>, runs: seq<Run>) returns (tick: Tick, query: Option<RunsQuery>)
      modifies this`attempt
      ensures Step(tick, query, attempt) == StepOf(input, workflowId, old(attempt), secondsSoFar, runs)
    {
      ghost var expected := StepOf(input, workflowId, attempt, secondsSoFar, runs);
      var pollingInterval := input.pollIntervalSeconds;
      var elapsed := secondsSoFar.GetOr(0);
      if input.continueAfterSeconds != 0 && elapsed >= input.continueAfterSeconds {
        return ForceContinue(elapsed), None;
      }
      if input.abortAfterSeconds != 0 && elapsed >= input.abortAfterSeconds {
        return Abort(secondsSoFar), None;
      }
      query := Some(Query(input, workflowId));
      var previousRuns := Predecessors(runs, input.runId);
      if previousRuns == [] {
        return NoPredecessor, query;
      }
      var previousRun := previousRuns[0];
      if input.exponentialBackoffRetries {
        pollingInterval := PollDelay(input, attempt);
        attempt := attempt + 1;
      }
      tick := Await(previousRun, pollingInterval, elapsed + pollingInterval);
      assert Step(tick, query, attempt) == expected;
    }

    /** `wait` followed through its recursion, one snapshot of the runs per tick,
        until a tick does not wait or the snapshots run out. */
    method Wait(secondsSoFar: Option<nat>, snapshots: seq<seq<Run>>) returns (trace: Trace)
      modifies this`attempt
      ensures trace == WaitChain(input, workflowId, old(attempt), secondsSoFar, snapshots)
      ensures attempt == trace.attempt
    {
      var seconds := secondsSoFar;
      var delays: seq<nat> := [];
      var i := 0;
      assert snapshots[0..] == snapshots;
      assert [] + WaitChain(input, workflowId, attempt, seconds, snapshots).delays
        == WaitChain(input, workflowId, attempt, seconds, snapshots).delays;
      while i < |snapshots|
        invariant 0 <= i <= |snapshots|
        invariant WaitChain(input, workflowId, old(attempt), secondsSoFar, snapshots)
          == After(delays, WaitChain(input, workflowId, attempt, seconds, snapshots[i..]))
      {
        ghost var before := attempt;
        var tick, query := Tick(seconds, snapshots[i]);
        assert snapshots[i..][0] == snapshots[i] && snapshots[i..][1..] == snapshots[i + 1..];
        ChainUnfold(input, workflowId, before, seconds, snapshots[i..], Step(tick, query, attempt), delays);
        if !tick.Await? {
          assert delays + [] == delays;
          return Trace(Finished(tick), delays, Elapsed(seconds), attempt);
        }
        delays := delays + [tick.delay];
        seconds := Some(tick.nextSeconds);
        i := i + 1;
      }
      assert snapshots[i..] == [];
      trace := Trace(Pending, delays, Elapsed(seconds), attempt);
    }
  }
}
