# Counter widget: primality check and change log

This project models the logic of the `Counter` component of a small React
widget (`src/components/Counter/Counter.jsx`). The widget shows an initial
count, says whether that count is prime, and offers increment and decrement
buttons. It keeps no counter variable. It keeps an immutable change log instead.

- `primality.dfy` (module `Primality`) models `isPrime`. Numbers not above one
  are rejected. Then every candidate divisor from 2 up to the square root is
  tried, and the first exact division answers false. The method is proved
  equal to the mathematical definition of primality (`IsPrimeSpec`).
- `change_log.dfy` (module `ChangeLog`) models the change log.
  - The log is a newest-first sequence of `{id, value}` records.
  - A new widget starts with one seed record that holds the initial count.
  - Each click prepends a `+1` or `-1` record.
  - The displayed counter is the log folded from 0 (`reduce`).
  - `Replay` runs a session of clicks. The lemmas about sessions give the
    log's length, its contents and the displayed total.

Modelling decisions:

- The source bounds the trial-division loop with the floating-point
  `Math.sqrt(number)`. The model uses the equivalent integer test `i * i <= n`.
- JavaScript's `%` truncates and Dafny's is Euclidean. The two agree here,
  because every division has a dividend above one and a divisor of at least 2.
- Record identifiers come from `Math.random() * 1000` in the source. Here they
  are `real` values supplied by the caller, and the model does not claim they
  are unique.
- The model assumes the `initialCount` prop stays the same for the whole life
  of one widget instance. This is the usage the comment at lines 39-40
  recommends: give the component a `key`, so that a new count remounts it.
  Under that assumption the model stores the count in the `Counter` state,
  and no operation changes it. The seed record (lines 49-52), the primality
  flag (line 46) and the displayed initial value (line 83) then all agree
  with that one field.
- Each click puts its record in front of the log (lines 60-66 and 71-77).
- The displayed counter folds every record from 0, the seed included
  (lines 54-55). `ValidCurrent` shows that in every well-formed state this
  equals the initial count plus the net number of clicks.

## Model

| member | source | states |
|---|---|---|
| Primality.IsPrime | src/components/Counter/Counter.jsx:10-29 | returns false for every n <= 1; for n > 1, returns true exactly when no i >= 2 with i*i <= n divides n; and returns true exactly when n is prime by the mathematical definition |
| Primality.TrialDivisionIsPrimality | src/components/Counter/Counter.jsx:20-28 | for n > 1, having no divisor up to the square root is equivalent to having no divisor in [2, n-1] |
| Primality.DivisorUpToRoot | src/components/Counter/Counter.jsx:20-26 | any divisor d with 2 <= d < n comes with a divisor i >= 2 with i*i <= n, so the loop bound misses no composite |
| Primality.SevenIsPrime | src/components/Counter/Counter.jsx:16-28 | seed 7 is prime, so the widget reports "is a prime number" |
| Primality.EightIsNotPrime | src/components/Counter/Counter.jsx:22-25 | seed 8 is not prime, since 2 divides it |
| ChangeLog.Reduce | src/components/Counter/Counter.jsx:54-55 | folding the reducer over a log from a starting value gives that value plus the sum of all record values |
| ChangeLog.Total | src/components/Counter/Counter.jsx:54-55 | the displayed counter, a fold from 0, equals the sum of every record's value |
| ChangeLog.SumAppend | src/components/Counter/Counter.jsx:54-55 | the sum of a log split in two is the sum of the two halves |
| ChangeLog.StepSum | src/components/Counter/Counter.jsx:54-77 | a log of +1/-1 records sums to the number of +1 records minus the number of -1 records |
| ChangeLog.Mount | src/components/Counter/Counter.jsx:49-55 | the initial log holds exactly one record, whose value is the initial count; the state is well formed, and the initial display equals the initial count |
| ChangeLog.Decrement | src/components/Counter/Counter.jsx:58-67 | the new head is a -1 record and the tail is the old log unchanged; the length grows by one and the initial count is kept; well-formedness is preserved; the display falls by exactly one, with no lower bound |
| ChangeLog.Increment | src/components/Counter/Counter.jsx:69-77 | the new head is a +1 record and the tail is the old log unchanged; the length grows by one and the initial count is kept; well-formedness is preserved; the display rises by exactly one |
| ChangeLog.PrependStepsKeepValid | src/components/Counter/Counter.jsx:58-77 | prepending +1/-1 records to a well-formed state keeps it well formed: the seed is still the oldest record |
| ChangeLog.ValidCurrent | src/components/Counter/Counter.jsx:49-77 | in every well-formed state, the display equals the initial count plus the number of +1 records minus the number of -1 records |
| ChangeLog.InitialCountIsPrime | src/components/Counter/Counter.jsx:46 | the widget's primality flag is true exactly when the initial count is prime |
| ChangeLog.ReplayLog | src/components/Counter/Counter.jsx:58-77 | running clicks from any state gives the click records, newest first, in front of the old log, with the initial count unchanged |
| ChangeLog.NewestFirstContents | src/components/Counter/Counter.jsx:58-77 | the new records number one per click, and the record at position j is the one left by the j-th click counted back from the last |
| ChangeLog.NewestFirstSum | src/components/Counter/Counter.jsx:54-77 | the records of a run of clicks sum to increments minus decrements |
| ChangeLog.ReplayEffect | src/components/Counter/Counter.jsx:58-77 | after any run of clicks from any state, the initial count is unchanged; one record per click sits in front, newest click first; the old log survives as the suffix; well-formedness is kept; the display moves by increments minus decrements |
| ChangeLog.Session | src/components/Counter/Counter.jsx:49-77 | after k clicks from mount, the log holds k+1 records with the seed oldest, the state is well formed, and the display is the initial count plus increments minus decrements |
| ChangeLog.OrderIrrelevant | src/components/Counter/Counter.jsx:49-77 | two sessions with the same numbers of increments and decrements show the same counter and keep logs of the same length, whatever the order of the clicks |
| ChangeLog.ClicksAreIncsOrDecs | src/components/Counter/Counter.jsx:58-77 | every click is an increment or a decrement, so increments plus decrements is the number of clicks |
| ChangeLog.ScenarioUpAndDown | src/components/Counter/Counter.jsx:49-77 | from seed 0, one increment then one decrement: the display is 0 and the log holds 3 records |
| ChangeLog.ScenarioThreeUp | src/components/Counter/Counter.jsx:49-77 | from seed 5, three increments: the display is 8 and the log holds 4 records |
| ChangeLog.DecrementBelowZero | src/components/Counter/Counter.jsx:58-67 | one decrement from seed 0 shows -1: the counter may go negative |

## Left out

- JSX rendering, `IconButton`, `CounterOutput` and `CounterHistory` (lines 80-97) are presentation only. `CounterOutput` and `CounterHistory` are not part of this model.
- The `log(...)` calls (lines 11-15 and 43) are diagnostic side effects with no effect on results.
- `Math.random() * 1000` identifiers (lines 50, 62 and 73) are floating-point and nondeterministic. They become caller-supplied `Id` values, with no claim of uniqueness.
- `useMemo` and `useCallback` (lines 46, 58 and 69) only avoid recomputation. The model computes each value directly.
- A change of the `initialCount` prop without a remount is not modelled. In that case the source keeps the old seed record in its log (lines 49-52). The primality flag (line 46) and the displayed initial value (line 83) follow the new prop. So the seed and the flag can disagree, which the model's `Valid` and `InitialCountIsPrime` exclude by keeping a single `initialCount`.
- `Math.sqrt` is floating-point. The model uses the exact integer bound `i * i <= n`. Rounding of the square root for very large inputs is not modelled.
- JavaScript numbers are doubles, but the model uses unbounded integers. So it does not model precision loss above 2^53 in the running total or in `isPrime`. It also does not model a non-integer `initialCount`.
