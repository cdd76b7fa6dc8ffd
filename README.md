# Shotgun sort, modelled in Dafny

Shotgun sort is a joke sorting program. It fills an array of N small random
numbers (N from 2 to 100, default 5). It then shuffles the array again and
again until the array happens to be non-decreasing. An optional attempt limit
ends the run early, and so does an interrupt. Along the way the program keeps
the "closest attempt": the shuffled array whose first descent (the first
index i with a[i] > a[i+1]) lies furthest to the right. It reports that array
with its attempt number. Attempt counts are printed in a human-readable form
such as "~1.2 million".

The model has six modules.

- `Order` (order.dfy) says what sorted means: non-decreasing, with equal
  neighbours allowed. An unsorted array is described by its first descent.
- `Shuffle` (shuffle.dfy) holds one shuffle pass. As functions on sequences,
  it is the pass's specification and the proof that a pass, and a run of
  passes, only rearranges the elements. As an in-place method on an `array`,
  it is the program's own swap loop, proved equal to that specification.
- `Tracker` (tracker.dfy) holds the program's global run state as a class:
  the attempt counter, the closest attempt's index and iteration, and the
  100-element `closest_array` buffer. It also holds `is_sorted` as a method
  that checks the array and updates the closest attempt in place.
- `Controller` (controller.dfy) holds argument validation, the array fill
  and the attempt loop of `main`. The loop is imperative (`Run`, `MainLoop`,
  `Step`, `Attempt`) and is proved equal to a functional description `Loop`.
  The lemma `ShotgunPromised` then proves what a run promises about `Loop`:
  - a sorted result is a sorted permutation of the input array;
  - the limit stops the loop after exactly max(L, 0) counted attempts;
  - every attempt reported as failed was unsorted;
  - the reported closest attempt is the best of the failed attempts.
- `Formatting` (formatting.dfy) holds the count arithmetic of
  `find_remainder`, `print_human_readable_number` and `print_loop_interval`.
- `Wrappers` (wrappers.dfy) holds `Option` and `Result`.

Randomness is an input. `seeds` are the raw `rand()` values that fill the
array, and each is taken `% 100` as the program does. `blocks[k]` are the N
raw values drawn by shuffle pass k, and each is taken `% N`. The supply of
blocks is finite. Using it up stands for the interrupt, and the run then
reports a `Cancelled` outcome with the current attempt count and closest
attempt, as `int_handler` does.

Two behaviours of the code are modelled as written. First, the closest
attempt starts at index 0, and `is_sorted` records an attempt only when its
first descent lies strictly beyond the stored index (shotgunsort.c:159). So an
attempt whose first descent is at index 0 is never recorded. With N = 2 this
means no attempt is ever recorded. Until something is recorded, the reported
closest attempt is the untouched all-zero global buffer with iteration 0, not
any shuffled array (`ClosestOf`, index 0 case). Second, `find_remainder` has
no branch for trillions (shotgunsort.c:252-275), so the tenths digit shown for
counts of a trillion or more is always 0 (`FindRemainder`).

## Model

| member | source | states |
|---|---|---|
| Controller.ParseConfig | shotgunsort.c:54-81 | Arguments are accepted exactly when no length is given or the length is between 2 and 100. A length below 2 is reported as too few elements and a length above 100 as too many. The length defaults to 5 and the limit to unlimited (-1). A given limit is kept as is. |
| Controller.ValidationBoundaries | shotgunsort.c:55-81 | Lengths 1 and 101 are rejected, and 2 and 100 (with a limit) are accepted. |
| Controller.Populate | shotgunsort.c:85-88 | The initial array has one element per draw, and element i is draw i modulo 100, so it lies in 0..99. |
| Controller.FillArray | shotgunsort.c:85-88 | The fill loop builds a fresh array equal to `Populate` of the draws. |
| Controller.Run | shotgunsort.c:83-144 | For a valid length, main after validation reports exactly the outcome `Shotgun` describes for the same draws and limit. |
| Controller.MainLoop | shotgunsort.c:93-144 | The attempt loop ends with the outcome `Loop` gives for its starting array and closest attempt. Running out of draws gives `Cancelled` with the current count. |
| Controller.Loop | shotgunsort.c:93-144 | The attempt loop as a function of the arrays each pass leaves. Attempt k stops as `Sorted` when its array is non-decreasing. Otherwise `Track` updates the record, and the loop goes on to attempt k+1 when there is no limit or k is below it, or stops as `LimitReached`. Running out of passes gives `Cancelled`. Its contract bounds the reported count between k and the number of passes, and says a `Sorted` result is the non-decreasing array of that attempt. `LoopPromised` proves the rest. |
| Controller.Shotgun | shotgunsort.c:83-144 | A whole run is `Loop` from attempt 0 over `Passes` of the filled array, with the untouched zero record. The count is at most the number of passes and a `Sorted` result is non-decreasing. `ShotgunPromised` proves the rest. |
| Controller.Step | shotgunsort.c:101-143 | One loop iteration leaves the array at this attempt's pass and the closest record at `Track` of the old record and that array, whether or not the loop stops. It stops with the loop's final outcome when the array is sorted or the limit is reached. Otherwise it leaves the loop's outcome from the next attempt unchanged. |
| Controller.Attempt | shotgunsort.c:101-110 | The array becomes the shuffle pass of its old contents. The result is true exactly when the new array is non-decreasing. The closest attempt is updated as `Track` says. |
| Controller.PassesRearrange | shotgunsort.c:101-107 | Every array a run passes through has the input's length and is a permutation of it. |
| Controller.ClosestOfUnsorted | shotgunsort.c:155-169 | Every attempt summarised by a closest-attempt record was unsorted. |
| Controller.ClosestStep | shotgunsort.c:155-167 | Suppose the record is the best of the first k attempts. After `is_sorted` sees an unsorted attempt k, the updated record is the best of the first k+1. Each summarised attempt's first descent is at or before the record's index. The record is either the zero buffer at index 0 or the very array of the attempt it names. |
| Controller.ClosestIsLongest | shotgunsort.c:137-167 | The reported closest attempt has the longest sorted prefix among the failed attempts. When one was recorded, the printed "elements in ascending order" count (index + 1) is that prefix's length. |
| Controller.LoopPromised | shotgunsort.c:93-144 | From any attempt whose closest record is the best so far, the loop keeps its promises. A `Sorted` result is the array of that attempt, non-decreasing, a permutation of the input and found within the limit. `LimitReached` comes after exactly max(L, 0) counted attempts and only with a limit. `Cancelled` means all draws were used. Every failed attempt was unsorted and the reported closest attempt is the best of them. |
| Controller.ShotgunPromised | shotgunsort.c:83-144 | A whole run from the filled array with the untouched closest record keeps every promise `LoopPromised` lists. |
| Tracker.Track | shotgunsort.c:155-167 | is_sorted's bookkeeping on values. The record's index never decreases. The record either stays as it was or becomes the checked array itself, with the current attempt number and that array's first descent as index. A non-decreasing array leaves it unchanged. `ClosestStep` proves that it keeps the best attempt. |
| Tracker.RunState.constructor | shotgunsort.c:23-29 | The run state starts with zero attempts, closest index 0, iteration 0 and an all-zero 100-element buffer. |
| Tracker.RunState.CountAttempt | shotgunsort.c:122-132 | Counting an attempt adds one to the attempt counter and leaves the closest attempt unchanged. |
| Tracker.RunState.IsSorted | shotgunsort.c:150-174 | The result is true exactly when the array is non-decreasing. For an unsorted array whose first descent lies beyond the stored index, the record takes that index, the current attempt count and a copy of the array, and the rest of the buffer is kept. Otherwise nothing changes. The stored index never decreases, and the checked array is not modified. |
| Tracker.RunState.Closest | shotgunsort.c:24-29 | The stored closest attempt is n elements long with an index from 0 to n-2, and its elements up to the index are in order. |
| Shuffle.Swap | shotgunsort.c:104-106 | The elements at i and j trade places and every other element stays put. |
| Shuffle.ShuffleFrom | shotgunsort.c:102-107 | The rest of one pass from step i: swap index i with index draws[i] % n, then go on from i+1. It keeps the length. `ShuffleFromPermutes` proves that it keeps the elements. |
| Shuffle.Shuffled | shotgunsort.c:102-107 | One whole pass is `ShuffleFrom` from step 0. It keeps the length. `ShuffledPermutes` proves it is a permutation. |
| Shuffle.ShuffleRun | shotgunsort.c:94-107 | The array after k consecutive passes, pass j using block j of draws. It keeps the length. `ShuffleRunPermutes` proves it is a permutation of the start. |
| Shuffle.SwapPermutes | shotgunsort.c:104-106 | A swap keeps the multiset of elements. |
| Shuffle.ShufflePass | shotgunsort.c:102-107 | The in-place swap loop leaves the array equal to `Shuffled` of its old contents with the same draws. |
| Shuffle.ShuffleFromPermutes | shotgunsort.c:102-107 | The rest of a pass from any step keeps the multiset of elements. |
| Shuffle.ShuffledPermutes | shotgunsort.c:102-107 | A whole pass is a permutation of its input. |
| Shuffle.ShuffleRunPermutes | shotgunsort.c:94-107 | Any number of consecutive passes is a permutation of the starting array. |
| Order.FirstDescentFrom | shotgunsort.c:155-171 | The scan from i finds the first index at or after i where a[i] > a[i+1]. Every pair before it is in order, and when nothing is found every pair from i on is in order. |
| Order.FirstDescent | shotgunsort.c:155-173 | No descent exists exactly when the array is non-decreasing. Otherwise the found index is a descent and the prefix up to it is non-decreasing. |
| Order.FirstDescentAt | shotgunsort.c:155-157 | A descent with every earlier pair in order is the first descent. |
| Order.SortedPrefixLength | shotgunsort.c:137-140 | The longest non-decreasing prefix is a non-decreasing prefix. Unless it is the whole array, it is non-empty and the next pair is out of order. |
| Order.SortedPrefixBound | shotgunsort.c:137-140 | Any non-decreasing prefix is at most as long as the longest one. |
| Formatting.TenthsDigit | shotgunsort.c:253-274 | The remainder modulo 10t divided by t is the last digit of x / t. x lies between that digit and the next, in units of t. |
| Formatting.FindRemainder | shotgunsort.c:248-277 | The result is a digit 0..9. Below a trillion it is the tenths digit of the count in its unit: thousands below a million, millions below a billion, billions below a trillion. From a trillion on it is 0. |
| Formatting.HumanReadable | shotgunsort.c:220-244 | A reading is produced exactly below a quadrillion, and it is in the unit the count falls in. The whole part is the count divided by the unit and is below 1000, and the tenths are `FindRemainder` of the count. At a quadrillion or more the fallback message is shown. |
| Formatting.UnitUnique | shotgunsort.c:224-240 | A count falls in at most one unit. |
| Formatting.HumanReadableTruncates | shotgunsort.c:220-277 | Below a trillion the reading truncates, and does not round: whole.tenths units <= count < whole.(tenths+1) units. |
| Formatting.LoopInterval | shotgunsort.c:280-296 | A progress message is never in thousands, and its count times its unit is the attempt count. |
| Formatting.LoopIntervalMatchesReading | shotgunsort.c:280-296 | For a positive count below a quadrillion, a progress message appears exactly when the count is a multiple of its unit's spacing. The spacings are 100 million, 1 billion and 1 trillion. The message then names the same whole number and unit as the human-readable reading, whose tenths digit is 0. |
| Formatting.FormattingExamples | shotgunsort.c:220-296 | Some worked examples: 1234567 reads ~1.2 million, 999 reads ~0.9 thousand, 1.5 trillion reads ~1.0 trillion, a quadrillion gives the fallback, 100 million and 3 billion give messages, and 150 million gives none. |

## Left out

- Output: every `printf`/`fprintf`, `print_array` and `print_dotted_line` produce text only. The model returns the values they would show (`Outcome`, `Snapshot`, `Reading`, `Milestone`) and not the text.
- The "+1 for human counting" adjustments to `closest_attempt` (lines 137, 160-163 and 179) affect only what is printed. The model keeps the stored 0-based index, and the printed count is index + 1 (`ClosestIsLongest`).
- The `print_loop_interval` call at the top of each attempt (lines 97-99) is output only. `LoopInterval` describes it, but the loop does not record the messages.
- `srand(time(NULL))` and `rand()`: the clock and the generator are replaced by explicit draws given as inputs.
- Interrupts: `signal`, `keep_running` and `int_handler` are modelled as the supply of draws running out at the head of an attempt. An interrupt in the middle of a shuffle pass or of `is_sorted` is not modelled.
- `atoi`: the arguments come in already converted to integers, so non-numeric text is not modelled.
- `exit(0)` and the exit status: validation failures are `Failure` values, and every run ends normally.
- Integer widths: the model does not bound counts and values. That covers `long long` attempt counters, the `unsigned int` closest index, the `int` limit and `rand()`'s range, and no counter overflow or wrap-around is modelled.
- Controller.Step: the program's two "count the attempt and continue" branches (unlimited, and below the limit) are merged into one condition with the same effect.

