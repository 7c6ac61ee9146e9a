# Turnstyle wait loop in Dafny

Turnstyle is a GitHub Action that acts as an admission gate for a workflow
run. The gate lets the current run proceed only once no earlier run of the
same workflow is still active. This project models the gate's decision loop,
`Waiter.wait` in `src/wait.ts`, and proves what each tick decides and how a
chain of ticks accumulates time.

Every tick checks the following, in this order:

1. **Force-continue.** If `continueAfterSeconds` is set and the seconds waited
   so far reach it, the tick writes `force_continued = "1"` and resolves with
   those seconds.
2. **Abort.** Otherwise, if `abortAfterSeconds` is set and reached, the tick
   writes `force_continued = ""` and throws `Aborted after waiting N seconds`.
3. **Query.** Otherwise it asks the run lister for the workflow's runs. The
   query is scoped to the branch only when `sameBranchOnly` is set.
4. **Filter and sort.** It keeps the runs that are `in_progress` or `queued`
   and whose id is below the current `runId`, and sorts them by id, highest
   first.
5. **No predecessor.** If none remain, it writes `force_continued = ""` and
   resolves with `undefined`.
6. **Wait.** Otherwise it names the most recent such run and computes the poll
   delay. Under `exponentialBackoffRetries` the delay is
   `pollIntervalSeconds * (2 * attempt || 1)` and `attempt` goes up by one;
   without it the delay is `pollIntervalSeconds`. After the sleep it ticks again
   with `secondsSoFar + delay`.

Files:

- `wait.dfy` holds module `Wait`. It contains the run and input records, the
  predecessor pipeline as functions with lemmas, the tick `StepOf` as a
  function, the chain of ticks `WaitChain`, and the class `Waiter`. Its `attempt`
  field is updated in place by `Tick`, and `Wait` drives the ticks in a loop.
- `decimal.dfy` holds module `Decimal`: the plain decimal rendering of a whole
  number, which is what the template literal of the abort error gives for a
  seconds count below 10^21, and its inverse.

Modelling choices:

- A threshold is a `nat` where 0 means "not set". The source tests each
  threshold for truthiness, so an absent threshold and a zero threshold behave
  the same.
- `secondsSoFar` is an `Option<nat>`, and an absent value counts as 0
  (`secondsSoFar || 0`). The abort tick keeps the raw value, because the error
  message interpolates it as given.
- Seconds, ids and attempts are unbounded naturals.
- The run list is a parameter of a tick. The query the tick would send is part
  of its result, and it is `None` on the two threshold paths.
- The sleep is dropped, and only the arithmetic on `secondsSoFar` is kept.
- The recursion is modelled by a sequence of run snapshots, one per tick, which
  bounds the chain (the source may poll forever).

Despite the option's name, the delays do not double: `src/wait.ts:70`
multiplies the interval by `2 * attempt || 1`, which gives 1×, 2×, 4×, 6×, 8×,
…. `BackoffSchedule` proves the delays 5, 10, 20, 30, 40 for an interval of 5,
and `BackoffTotal` proves that the total wait over the first n ≥ 1 waits of a
fresh waiter (attempt 0) is `p * (1 + n * (n - 1))`, which grows
quadratically. `attempt` is never reset (`src/wait.ts:26,76`), so a second
chain on the same waiter starts further along the schedule.

## Model

| member | source | states |
|---|---|---|
| `Wait.FilterActiveCounts` | src/wait.ts:57 | the first filter keeps every run whose status is `in_progress` or `queued`, with its multiplicity, and drops every other run |
| `Wait.FilterEarlierCounts` | src/wait.ts:58 | the second filter keeps every run whose id is below `runId`, with its multiplicity, and drops every other run |
| `Wait.InsertCorrect` | src/wait.ts:59 | inserting one run into a highest-id-first list adds exactly that run and keeps the list highest-id-first |
| `Wait.SortCorrect` | src/wait.ts:59 | the comparator sort `b.id - a.id` returns a permutation of its input, sorted by id from highest to lowest |
| `Wait.PredecessorsCorrect` | src/wait.ts:56-59 | `previousRuns` holds exactly the active runs with an id below `runId`, each as often as the lister reported it (a sub-multiset of the runs), sorted highest id first |
| `Wait.MostRecentPredecessor` | src/wait.ts:56-65 | `previousRuns` is non-empty iff some reported run is active and earlier; its head is then such a run with the largest id, so a run with `id >= runId` is never selected |
| `Wait.PollDelay` | src/wait.ts:30-70 | the delay is never below the poll interval, and it equals the interval when backoff is off |
| `Wait.DelayMonotone` | src/wait.ts:68-77 | since `attempt` only goes up, a later tick never waits less than an earlier one |
| `Wait.StepOf` | src/wait.ts:29-80 | one tick. Force-continue happens iff the continue threshold is set and reached, and it returns the seconds so far. Abort happens iff force-continue does not and the abort threshold is set and reached, and it carries the seconds, which are then present. Runs are queried iff neither fires, scoped to the branch only under `sameBranchOnly`. Otherwise there is no predecessor iff the filtered list is empty. A waiting tick names its head, sleeps `PollDelay`, and continues at the seconds so far (absent counts as 0) plus the delay. `attempt` grows by one exactly on a backoff wait and is otherwise unchanged |
| `Wait.StepAwaitsMostRecent` | src/wait.ts:56-66 | a tick finds no predecessor iff it queried and no reported run is both active and earlier; a waiting tick names a reported active earlier run with the largest id |
| `Wait.ForceContinuedFlag` | src/wait.ts:32-66 | a tick writes `force_continued = "1"` iff the continue threshold is set and reached; it writes `""` iff that threshold is not reached and either the abort threshold is set and reached or no reported run is active and earlier; it writes nothing iff neither threshold is reached and some reported run is active and earlier |
| `Wait.AbortMessageCarriesSeconds` | src/wait.ts:47 | the abort error reads `Aborted after waiting N seconds`, where N is the canonical decimal rendering of the seconds and reads back as exactly that number |
| `Decimal.Show` | src/wait.ts:47 | the interpolated rendering of a whole number is a canonical digit string (no leading zero), one digit long exactly for numbers below 10 |
| `Decimal.ValueOfShow` | src/wait.ts:47 | reading the rendering of n back gives n |
| `Decimal.ValuePositive` | src/wait.ts:47 | a digit string that does not start with `0` denotes a positive number |
| `Decimal.ShowOfValue` | src/wait.ts:47 | rendering the number that a canonical digit string denotes gives that string back, so the rendering is a bijection onto canonical strings |
| `Wait.ScheduleAt` | src/wait.ts:68-77 | the i-th delay of a chain that starts at attempt a is the delay for attempt a + i; with backoff off it is the constant interval |
| `Wait.BackoffTotal` | src/wait.ts:68-80 | under backoff, the delays of the first n ≥ 1 waits of a fresh waiter (attempt 0) add up to `p * (1 + n * (n - 1))`: the total wait grows quadratically, not exponentially |
| `Wait.BackoffSchedule` | src/wait.ts:68-77 | with backoff on and an interval of 5, the first five delays from attempt 0 are 5, 10, 20, 30, 40, so the growth is not doubling |
| `Wait.WaitChain` | src/wait.ts:29-80 | the recursion. The seconds entering the last tick are the initial seconds plus the sum of the delays slept. The delays are the backoff schedule from the starting attempt. The final `attempt` is the start plus the number of waits under backoff, and unchanged otherwise. A finished chain ends on a tick that does not wait, and every tick before it waited (`ChainWaitsBeforeEnd`). A chain that force-continues resolves with the initial seconds plus all delays, and a chain that aborts reports that same count |
| `Wait.ChainFinalTick` | src/wait.ts:29-80 | a finished chain ends on the tick taken over the snapshot after its last wait, at the accumulated seconds (the initial value if it never waited) and the final `attempt` |
| `Wait.SumAtLeast` | src/wait.ts:80 | a sum of delays each at least p is at least p times their number |
| `Wait.ChainWaitsBeforeEnd` | src/wait.ts:32-80 | only the waiting path recurses: for each delay a chain slept, the tick taken at that point (counter after the earlier backoff waits, seconds accumulated over the earlier delays, its own snapshot) waited for a predecessor, so the chain ends at the first tick that does not wait |
| `Wait.TimeGrows` | src/wait.ts:79-80 | the seconds entering the last tick are at least the initial seconds plus one poll interval per wait; the per-tick increase itself is `StepOf`'s `nextSeconds` together with `PollDelay`'s lower bound |
| `Wait.ThresholdEndsChain` | src/wait.ts:32-80 | with a set threshold and a positive interval, once enough ticks are available to reach the threshold the chain has ended, by force-continue, abort or no predecessor |
| `Wait.NoThresholdKeepsPolling` | src/wait.ts:32-80 | with neither threshold set and an active earlier run in every snapshot, no tick ends the chain: the source polls indefinitely |
| `Wait.Waiter.constructor` | src/wait.ts:16-27 | a new waiter keeps its workflow id and inputs and starts with `attempt = 0` |
| `Wait.Waiter.Tick` | src/wait.ts:29-80 | the imperative tick: returns the outcome and query of `StepOf` for the counter value it started with, and leaves `attempt` at the counter `StepOf` gives |
| `Wait.Waiter.Wait` | src/wait.ts:29-80 | the loop that replaces the tail recursion: its trace is `WaitChain` from the counter it started with, and `attempt` ends at the trace's final counter |

## Left out

- The run lister call `githubClient.runs` (`src/wait.ts:50-55`) is network I/O, and its failures (an error thrown by the call propagates out of `wait`) are not modelled. Its answer is a parameter of each tick, and its arguments are returned as `RunsQuery`. The `./github` module is not part of this model.
- `parseInput` and the `Input` type of `./input` are not part of this model. The inputs are taken as an already-resolved record.
- `setOutput` from `@actions/core` is a foreign side effect. The value it would write is `ForceContinuedOutput` of the tick.
- The `info` log messages (`src/wait.ts:36,45,66,71-75`) are not modelled.
- The sleep (`setTimeout`, `src/wait.ts:79`) is asynchronous timing. Only the delay and the new seconds count are kept.
- The type of `workflowId` (`any`) is taken to be a string, because it is only passed on to the run lister.
- JavaScript numbers: fractional seconds, negative thresholds or intervals, and ids or seconds counts beyond 2^53 (where JavaScript loses exactness) are not modelled. `Decimal.Show` renders every whole number in plain digits, whereas JavaScript interpolates a count of 10^21 or more in exponent form (`1e+21`). Naturals are used throughout. Because of this, an abort on an absent `secondsSoFar` (which would print `undefined`) cannot happen in the model, and `StepOf` proves so.
- The source may recurse forever. The model bounds the chain by the number of run snapshots supplied, and `Pending` marks a chain that ran out of snapshots while still waiting.
- Wait.SortCorrect: the stability of the sort among equal ids is not stated. Run ids are unique per workflow, and the insertion sort keeps the first-met run first, as JavaScript's stable sort does.
