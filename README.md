# Greedy patrol-path search, modelled in Dafny

This project models the decision logic of a randomized greedy search for a patrol path.
A single aircraft carries a sensor of radius 1 across a 20 x 8 arena for 160 time steps.
Intruders are not simulated. An intruder of relative speed `s` is "at column x at time t" when
`(20 - x) / s == t`.
A ledger of `(speed, row)` pairs records which intruder rows have already been credited, so a row
is counted at most once.

The components, leaves first:

- `arena.dfy` (module `Arena`): the constants (board 20 x 8, sensor range 1, duration 160,
  10 candidates per decision), points, ledger entries, the arena interior and the three
  intruder speeds. The start position is a parameter of `FlightPath`.
- `geometry.dfy` (module `Geometry`): `check_if_inside_circle` as `InsideCircle`, with its
  three tiers.
- `sensor.dfy` (module `Sensor`): `sensor_circle` as the method `SensorCircle`, with the same
  nested `while` loops, the same clipped bounding box and the same row skip.
  - `Scan` is the function that mirrors the sweep; `SensorCircle` is proved equal to it.
  - `Detectable` states, without the sweep, which rows a scan credits. `ScanCredits` proves
    that `Scan` credits exactly those rows.
- `selector.dfy` (module `Selector`): `make_best_move` as `MakeBestMove`.
  - It scores every candidate against the original ledger and keeps the first strictly better one.
  - When nothing scores, it takes the fallback move.
  - `IsBestMove` is the selection rule it is proved to follow.
- `ledger.dfy` (module `Ledger`): the capacity of a ledger. With three speeds and eight rows, a
  duplicate-free ledger holds at most 24 entries, the "maximum possible number of intruders"
  that the driver divides by.
- `flight.dfy` (module `Flight`): `flight_path` as `FlightPath`.
  - It runs three phases (speeds 4, 1, 0.1) over the code's own time ranges (`Schedule`).
  - Each phase is a `FlyPhase` loop.
- `trials.dfy` (module `Trials`): the top-level batch loop.
  - `BestOfBatch` keeps the last run with the highest count (`>=`).
  - `SelectHighest` keeps the best run of the last batch whose count equals the running `max`.

The random move generator `random_fly` is an oracle. For each decision a `Draw` supplies the 10
candidate moves, in drawing order, and the fallback move. The generator promises only that every
move lies strictly inside the arena (line 38).

The model follows the code's own time ranges, even where its comments and constants suggest
another schedule:

- `time_duration = 160` is described as "the number of planemoves" (`solutions_final.py:6`), and
  the comment on the second phase says it ends at 20 (`solutions_final.py:185`). But
  `int(d/32) + int(d/8)` is 25 for `d = 160`, and the third phase restarts at `int(d/8)`
  (`solutions_final.py:193`), not where the second ended.
- So for `d = 160` the path has 165 points, and times 20 to 24 are visited once at speed 1 and
  again at speed 0.1. `ScheduleLength`, `ScheduleAt` and `PhasesOverlap` state this.

## Model

| member | source | states |
|---|---|---|
| `Geometry.InsideCircle` | solutions_final.py:43-67 | The three-tier test itself; its meaning, the closed disc, is stated by `Geometry.InsideCircleIsDisc`. |
| `Geometry.InsideCircleIsDisc` | solutions_final.py:43-67 | The three-tier test accepts exactly the points whose squared distance from the centre is at most the squared radius. The boundary is inclusive. A negative radius accepts nothing. |
| `Geometry.AxisRejectSound` | solutions_final.py:53-56 | An axis offset larger than a non-negative radius implies a squared distance larger than the squared radius, so the early rejection is sound. |
| `Geometry.ManhattanShortcutSound` | solutions_final.py:59-60 | A Manhattan distance within the radius implies a squared distance within the squared radius, so the shortcut never accepts a point the Euclidean test rejects. |
| `Geometry.InsideCircleAxisBounds` | solutions_final.py:49-56 | An accepted point lies within the radius of the centre along each axis. |
| `Sensor.ScanBox` | solutions_final.py:85-88 | The box is clipped to the arena: its columns lie in `[0, 20)` and its rows in `[0, 8)`. That it still covers every accepted cell is `Sensor.BoxCoversCircle`. |
| `Sensor.RowScan` | solutions_final.py:94-114 | Sweeping one row either leaves the ledger as it is or appends the single entry `(speed, y)`. |
| `Sensor.RowsScan` | solutions_final.py:91-116 | Sweeping the rows of the box keeps the ledger as a prefix. |
| `Sensor.Scan` | solutions_final.py:85-116 | A whole scan keeps the ledger as a prefix. Which entries it appends is `Sensor.ScanCredits`. |
| `Sensor.SensorCircle` | solutions_final.py:70-118 | The nested loops return the ledger `Scan` describes. The input ledger is a prefix of it. The counter equals the number of appended entries. |
| `Sensor.RowScanCredits` | solutions_final.py:94-114 | Sweeping one row appends `(speed, y)` exactly once when the row is not yet in the ledger and some remaining column is a hit. Otherwise the row leaves the ledger unchanged, and a row already in the ledger is abandoned. |
| `Sensor.RowsScanCredits` | solutions_final.py:91-116 | Sweeping the rows of the box appends, in row order, one entry per uncredited row of the box that has a hit in the box's columns. |
| `Sensor.BoxCoversCircle` | solutions_final.py:85-88 | The clipped box, padded with floor and ceil + 1, contains every cell of the arena that the circle test accepts. |
| `Sensor.BoxRowHit` | solutions_final.py:85-101 | A row is swept and has a hit among the box's columns exactly when it is an arena row with a hit somewhere in the arena. |
| `Sensor.ScanCredits` | solutions_final.py:85-116 | A scan keeps the ledger as a prefix. It appends `(speed, y)` exactly for the detectable rows y: rows of the arena not yet credited at this speed that have a column `0 <= x < 20` inside the circle with `(20 - x)/speed == time`. The appended rows strictly increase, so each row is credited at most once. |
| `Sensor.ScanRowsInBox` | solutions_final.py:85-108 | Every appended entry is `(speed, y)` with `max(0, floor(cy) - length) <= y < min(8, ceil(cy) + length + 1)`. |
| `Sensor.ScanKeepsNoDup` | solutions_final.py:98-108 | If the input ledger has no duplicates, neither does the scanned ledger. |
| `Sensor.ScanAllRowsSeen` | solutions_final.py:98-112 | When every row of the box is already in the ledger at this speed, the scan returns the ledger unchanged, so the count is 0. |
| `Selector.GainNonNegative` | solutions_final.py:140-145 | A candidate's score, the number of entries its scan appends, is never negative. |
| `Selector.MakeBestMove` | solutions_final.py:120-158 | Every candidate is scored against the unmodified input ledger, and the returned count is at least every score. A positive count is the score of the earliest candidate reaching it (strict `>`), which is the returned move, with that candidate's scanned ledger. A zero count returns the fallback move and the input ledger. The result always extends the input by exactly `counter` entries, keeps it duplicate-free, and the move is inside the arena. |
| `Selector.BestMoveCredits` | solutions_final.py:130-158 | A decision that follows the selection rule only appends entries of the speed it looks for, each on a row of the arena. |
| `Selector.BestMoveDeterministic` | solutions_final.py:138-156 | The selection rule determines the move, the count and the ledger uniquely from the ledger, time, speed and draws. |
| `Flight.TruncDiv` | solutions_final.py:175 | `int(a/b)` for a positive divisor truncates toward zero: for `a >= 0` the quotient times `b` is at most `a` and within `b` of it, and for `a < 0` it is at least `a`, at most 0 and within `b` of `a`. |
| `Flight.Schedule` | solutions_final.py:175-197 | The three `range(...)` loops laid end to end. What it contains is stated by `Flight.ScheduleInRange`, `Flight.ScheduleLength` and `Flight.ScheduleAt`. |
| `Flight.ScheduleInRange` | solutions_final.py:175-197 | Every decision of a run is taken at a time in `range(duration)` and at one of the speeds 4, 1 and 0.1. |
| `Flight.SchedulePhases` | solutions_final.py:175-197 | The run's steps are the three phase ranges in order: `range(int(d/32))` at speed 4, then `range(int(d/32), int(d/32) + int(d/8))` at speed 1, then `range(int(d/8), d)` at speed 0.1. |
| `Flight.ScheduleLength` | solutions_final.py:175-197 | For `d >= 0` a run takes `d/32 + d/8 + (d - d/8) = d + d/32` steps, and none for a negative duration (`int()` truncates toward zero). |
| `Flight.ScheduleAt` | solutions_final.py:175-197 | Step i takes time i at speed 4 for `i < d/32`, time i at speed 1 up to `d/32 + d/8`, and then time `i - d/32` at speed 0.1, because phase 3 restarts at `d/8`. |
| `Flight.PhasesOverlap` | solutions_final.py:184-193 | For the configured duration 160 the run has 165 steps. Time 20 is taken at speed 1 (step 20) and again at speed 0.1 (step 25). |
| `Flight.ChainStep` | solutions_final.py:178-201 | Extending the latest ledger keeps every earlier ledger a prefix of every later one. |
| `Flight.CreditableStep` | solutions_final.py:178-201 | Appending entries of a phase speed on arena rows to such a ledger keeps every entry creditable. |
| `Flight.TraceStep` | solutions_final.py:178-180 | One more decision that follows the selection rule preserves the run invariant. The invariant says: every decision followed the rule, every move is inside the arena, earlier ledgers are prefixes of later ones, the ledger has no duplicates, and the total equals the sum of the counts and the ledger length. |
| `Flight.FlyPhase` | solutions_final.py:175-197 | One phase loop over `range(lo, hi)` appends one move per time, each chosen by the selection rule for that time and speed. The incoming path, counts and ledgers stay prefixes of the outgoing ones, and the run invariant is kept. |
| `Flight.FlightPath` | solutions_final.py:160-201 | From an empty ledger, the path has one point per scheduled step, and each step follows the selection rule at its scheduled time and speed. Every point is inside the arena. Each intermediate ledger is a prefix of every later one. `intruder_detected` is the sum of the per-step counts and equals the length of the final ledger. That ledger has no duplicates, and every entry has one of the three speeds and a row of the arena. So `intruder_detected` is at most 24, the bound the driver divides by (line 234). |
| `Ledger.Slot` | solutions_final.py:234 | Each creditable entry (speed 4, 1 or 0.1, row in `[0, 8)`) has a slot in `[0, 24)`. |
| `Ledger.SlotInjective` | solutions_final.py:234 | Different creditable entries have different slots. |
| `Ledger.SlotsMembers` | solutions_final.py:234 | Every slot a ledger occupies lies in `[0, 24)` and belongs to one of its entries. |
| `Ledger.SlotsSize` | solutions_final.py:234 | A duplicate-free ledger of creditable entries occupies as many slots as it has entries. |
| `Ledger.BoundedSetSize` | solutions_final.py:234 | A set of integers drawn from `[0, n)` has at most `n` elements. |
| `Ledger.LedgerCapacity` | solutions_final.py:234 | A duplicate-free ledger of creditable entries has at most 24 entries, so 24 bounds the detections of a run. |
| `Trials.Max` | solutions_final.py:238 | `max` of a non-empty list is an element of it and at least every element. |
| `Trials.BestOfBatch` | solutions_final.py:219-232 | The retained run detects at least as much as every run of the batch. For a non-empty batch it is the last run achieving that count (`>=` from 0). |
| `Trials.LastMaxStep` | solutions_final.py:236-244 | Appending a batch count v to the recorded list moves the maximum to v when v is at least the previous maximum, so the new batch becomes the last maximal one. Otherwise the previous last maximal batch keeps that role. |
| `Trials.HighestBoundsEveryRun` | solutions_final.py:224-244 | The retained run of the last maximal batch detects at least as much as every run of every batch. |
| `Trials.SelectHighest` | solutions_final.py:217-244 | Each batch's recorded count is its retained run's count. The overall best is the retained run of the last batch whose count equals the maximum recorded count, and it detects at least as much as every run of every batch. |

## Left out

- `random_fly` (solutions_final.py:13-41) is an oracle. The random integer angle, the cosine and
  sine, the retry loop and the step length 0.933 are not modelled. The model does not capture that
  consecutive path points are 0.933 apart. The start position therefore only seeds the position
  variable.
- In the source, the fallback move is drawn only when no candidate scores. In the model every
  `Draw` carries one. This changes how random numbers are consumed, not which move is chosen.
- Arithmetic is exact over `real`. Python compares the float `(20 - x)/speed` with `time`, and with
  speed 0.1 that quotient need not be exact in IEEE doubles. Python's credits may therefore
  differ from the model's.
- `int(duration/32)` and `int(duration/8)` are modelled as integer division truncating toward zero
  (`TruncDiv`). Float rounding of very large durations is not modelled.
- A speed of zero, which makes line 105 raise `ZeroDivisionError`, is excluded by the type
  `SpeedClass`. The source only passes 4, 1 and 0.1.
- `Selector.MakeBestMove` requires a draw of exactly 10 in-arena candidates and an in-arena
  fallback. This is the oracle's contract, not a demand the source places on its callers.
- `Trials.SelectHighest` takes the runs of each batch as inputs, each the result of one
  `FlightPath` call. It does not call `FlightPath` itself, and it accepts any number of batches
  and repeats, where the script uses 10 and 100.
- `Trials.SelectHighest` stores and compares integer detection counts. The script stores
  `count / 24` and compares those floats; division by 24 preserves the order and equality of
  the counts.
- The per-batch probability list, its mean and standard deviation, and the printed summary
  (solutions_final.py:236-249) are floating-point statistics and output.
- Plotting and animation (solutions_final.py:252-288) are user interface.
