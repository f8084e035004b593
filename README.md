# Dining philosophers with a symmetry break

`DiningPhilosophers.java` simulates the dining philosophers. `n` philosopher
threads sit around a table with one fork between each pair of neighbours.
Each fork is a `Semaphore(1)`.

The program reads a `key=value` configuration file (`Config.fromFile`) and
insists on `variacao=simetria`. It then creates the forks and two
statistics arrays: meals per philosopher in an `int[]`, total waiting time
in a `long[]`. Then it runs the threads for `duracao_seg` seconds.

Each philosopher loops:

- think for a random time in `[think_ms min, max]`;
- acquire its two forks in a fixed order;
- record the meal and the time it waited;
- eat for a random time in `[eat_ms min, max]`;
- release both forks.

The deadlock is avoided by the order. Philosopher `id` uses the left fork
`id` and the right fork `(id + 1) % n`. Every philosopher except the last
takes the right fork first. The last takes its left fork first.

This project models these parts in Dafny:

- the configuration reader, as a fold over the lines of the file, plus a
  loop method that computes the same fold;
- the Java string and integer operations the reader relies on: `trim`,
  ASCII `toLowerCase`, `split` on one character, `Integer.parseInt`, and
  `int`/`long` wrap-around;
- the fork order, with a proof that the symmetry break rules out deadlock,
  and a proof that the classic circular wait exists without it;
- the duration arithmetic of `dormirRandom`, with the random draw as a
  parameter;
- the start-up in `main`: the variant gate, the forks all free and the
  statistics all zero;
- one meal cycle: the permit counts of the forks and the in-place update of
  the statistics, including the interrupted paths.

Modules:

| file | module | models |
|---|---|---|
| `results.dfy` | `Results` | `Option` and `Result` |
| `java_int.dfy` | `JavaInt` | `int`/`long` ranges and wrap-around |
| `java_string.dfy` | `JavaString` | `trim`, `toLowerCase`, `split`, `parseInt` |
| `config_file.dfy` | `ConfigFile` | `Config` and `fromFile` |
| `fork_policy.dfy` | `ForkPolicy` | fork order and deadlock freedom |
| `timing.dfy` | `Timing` | `dormirRandom` durations |
| `forks.dfy` | `Forks` | the fork semaphores as permit counts |
| `statistics.dfy` | `Statistics` | `refeicoes` and `esperaTotalMs` |
| `simulation.dfy` | `Simulation` | the gate and start-up in `main`; one meal cycle |

## Model

| member | source | states |
|---|---|---|
| JavaInt.Wrap32 | DiningPhilosophers.java:167 | The result is an `int` congruent to the exact value modulo 2^32. It is the exact value when that fits. |
| JavaInt.Wrap64 | DiningPhilosophers.java:146-150 | The result is a `long` congruent to the exact value modulo 2^64. It is the exact value when that fits. |
| JavaString.Trim | DiningPhilosophers.java:24 | `trim` never lengthens a string. Its result is empty or neither starts nor ends with a character `<= ' '`. Lemmas TrimSpec, TrimUntrimmed, TrimIdempotent and TrimKeepsFirst state the rest. |
| JavaString.TrimSpec | DiningPhilosophers.java:24 | `trim` returns the infix of the input that starts after the leading run of characters `<= ' '`. Every character outside that infix is `<= ' '`. So it drops only such characters and keeps every other one. |
| JavaString.TrimUntrimmed | DiningPhilosophers.java:24 | A string whose two ends are above `' '` is its own trim. |
| JavaString.TrimIdempotent | DiningPhilosophers.java:30-31 | Trimming twice is trimming once. |
| JavaString.TrimKeepsFirst | DiningPhilosophers.java:24-25 | When the first character is above `' '`, trimming keeps it first. |
| JavaString.ToLower | DiningPhilosophers.java:30 | Lower-casing keeps the length and leaves no upper-case letter. A string without upper-case letters is unchanged. |
| JavaString.ToLowerMeaning | DiningPhilosophers.java:30 | Every character of the result that is not a lower-case letter comes from the input. |
| JavaString.ToLowerIdempotent | DiningPhilosophers.java:53 | Lower-casing twice is lower-casing once. |
| JavaString.Pieces | DiningPhilosophers.java:27 | Cutting at every separator gives at least one piece. No piece holds the separator. Joining the pieces gives the input back. |
| JavaString.PiecesOfJoin | DiningPhilosophers.java:27 | Cutting a join of separator-free pieces gives those pieces back. |
| JavaString.DropTrailingEmpty | DiningPhilosophers.java:27 | The result is a prefix of the input. Its last element is not empty. Everything dropped is empty. |
| JavaString.Split | DiningPhilosophers.java:27 | Without a separator, the result is the string itself. Otherwise the result is empty or its last piece is non-empty: trailing empty pieces are dropped. Lemmas SplitPiecesFree, SplitOfJoin, SplitPair, SplitTrailingSep and SplitTriple state the rest. |
| JavaString.SplitPiecesFree | DiningPhilosophers.java:27 | No piece of `split` holds the separator. |
| JavaString.SplitOfJoin | DiningPhilosophers.java:27 | `split` inverts a join of two or more separator-free pieces whose last piece is not empty. |
| JavaString.SplitPair | DiningPhilosophers.java:27-28 | `k=v`, with `v` not empty and no other separator, splits into exactly `[k, v]`. |
| JavaString.SplitTrailingSep | DiningPhilosophers.java:27-28 | `k=` splits into `[k]`, or into `[]` when `k` is empty. The trailing empty piece is dropped. |
| JavaString.SplitTriple | DiningPhilosophers.java:27-28 | `a=b=d` splits into three pieces. |
| JavaString.NatDigits | DiningPhilosophers.java:35 | The decimal digits of a natural number are non-empty and all digits. Reading them back gives the number. |
| JavaString.ParseInt | DiningPhilosophers.java:35 | `parseInt` accepts only an integer literal: an optional `-` or `+`, then ASCII digits. A negative result needs a leading `-`. |
| JavaString.ParseShow | DiningPhilosophers.java:35 | `parseInt` reads the decimal form of every `int` back as that `int`. |
| JavaString.ParseIntShape | DiningPhilosophers.java:35 | `parseInt` accepts a string exactly when it is an integer literal whose value fits in an `int`. It then returns that value. |
| JavaString.ShowNonNegative | DiningPhilosophers.java:42-43 | A non-negative `int` is written without `-` or `=`. |
| ConfigFile.FieldRoundTrip | DiningPhilosophers.java:34-39 | `filosofos` and `duracao_seg` read back every `int` written in decimal. |
| ConfigFile.ParseRange | DiningPhilosophers.java:40-51 | A range is read only from a value that holds `-`, and both bounds are non-negative. Lemmas RangeRoundTrip, RangeNeedsHyphen and RangePiecesNotTrimmed state the rest. |
| ConfigFile.RangeRoundTrip | DiningPhilosophers.java:40-45 | Two non-negative ints written as `lo-hi` are read back as `(lo, hi)`. |
| ConfigFile.RangeNeedsHyphen | DiningPhilosophers.java:40-51 | A range value without `-` always raises. It is an index error on `range[1]` when `range[0]` parses, and a NumberFormatException otherwise. |
| ConfigFile.RangePiecesNotTrimmed | DiningPhilosophers.java:41-43 | The range pieces are not trimmed, so `lo -hi` raises a NumberFormatException on `lo` followed by a blank. |
| ConfigFile.EntryOf | DiningPhilosophers.java:24-31 | A line carries an entry only if it holds `=`, and the key it carries is lower-case. Lemmas EntryShape, CommentSkipped, LineWithoutSeparatorSkipped, EmptyValueSkipped, ExtraSeparatorSkipped and KeyValueLine state the rest. |
| ConfigFile.EntryShape | DiningPhilosophers.java:24-31 | A key that is read is lower-case. A value is trimmed. Neither holds `=`. |
| ConfigFile.CommentSkipped | DiningPhilosophers.java:24-25 | A line whose first non-blank character is `#` is skipped, whatever follows. |
| ConfigFile.LineWithoutSeparatorSkipped | DiningPhilosophers.java:27-28 | A line without `=` is skipped. |
| ConfigFile.EmptyValueSkipped | DiningPhilosophers.java:27-28 | A line `key=` is skipped. |
| ConfigFile.TrailingSeparatorIgnored | DiningPhilosophers.java:27-31 | A line `k=v=` is not skipped: split drops the trailing empty piece, so it carries key `k` and value `v`. |
| ConfigFile.ExtraSeparatorSkipped | DiningPhilosophers.java:27-28 | A line `a=b=d` is skipped. |
| ConfigFile.KeyValueLine | DiningPhilosophers.java:24-31 | A non-comment line `k=v` carries key `k`, trimmed and lower-cased, and value `v`, trimmed. |
| ConfigFile.ApplyEntry | DiningPhilosophers.java:33-55 | An unknown key changes nothing and raises nothing. Only the four numeric keys can raise. A record with a lower-case variant and non-negative range bounds keeps both. Lemmas PhilosophersStored, DurationStored, ThinkRangeStored, EatRangeStored and VariantLowerCased state what each key stores. |
| ConfigFile.PhilosophersStored | DiningPhilosophers.java:34-36 | `filosofos` stores the `int` its value spells, negative ones included, and changes nothing else. |
| ConfigFile.DurationStored | DiningPhilosophers.java:37-39 | `duracao_seg` stores the `int` its value spells, negative ones included, and changes nothing else. |
| ConfigFile.ThinkRangeStored | DiningPhilosophers.java:40-45 | `think_ms=lo-hi` stores `lo` as the shortest and `hi` as the longest thinking time, and changes nothing else. |
| ConfigFile.EatRangeStored | DiningPhilosophers.java:46-51 | `eat_ms=lo-hi` stores `lo` as the shortest and `hi` as the longest eating time, and changes nothing else. |
| ConfigFile.EntryFrame | DiningPhilosophers.java:33-55 | An entry leaves unchanged every field that another key assigns. |
| ConfigFile.EntryIndependent | DiningPhilosophers.java:33-55 | Whether an entry raises, and what it stores, does not depend on the record it is applied to. |
| ConfigFile.EntryOverwrites | DiningPhilosophers.java:33-55 | A second assignment to the same key overwrites the first. |
| ConfigFile.VariantLowerCased | DiningPhilosophers.java:52-54 | `variacao` stores its value lower-cased, with no upper-case letter left. |
| ConfigFile.LineFrame | DiningPhilosophers.java:23-56 | A line that does not carry a key leaves that key's fields unchanged. |
| ConfigFile.Parse | DiningPhilosophers.java:19-59 | Every record that is read has a lower-case variant (or none) and non-negative range bounds. |
| ConfigFile.FromLines | DiningPhilosophers.java:19-59 | The read loop computes the fold `Parse` over the lines. It stops at the first exception. |
| ConfigFile.ParseSnoc | DiningPhilosophers.java:23-56 | Reading one more line continues from the record the earlier lines produced, unless they already raised. |
| ConfigFile.ErrorEndsParse | DiningPhilosophers.java:19-59 | Once a prefix of the lines raises, the result of the whole file is that exception. |
| ConfigFile.ParseFrameStep | DiningPhilosophers.java:23-56 | A line not carrying a key keeps that key's fields through the fold. |
| ConfigFile.ParseAssignStep | DiningPhilosophers.java:23-56 | A line carrying a key sets that key's fields as it would on a fresh record. |
| ConfigFile.LaterLinesKeep | DiningPhilosophers.java:23-56 | Any number of lines not carrying a key keep that key's fields. |
| ConfigFile.LastAssignmentWins | DiningPhilosophers.java:23-56 | The last line carrying a key decides that key's fields, whatever came before it. |
| ForkPolicy.ForkOrder | DiningPhilosophers.java:117-138 | The two forks are the left `id` and the right `(id+1)%n`. They are distinct when `n >= 2`. With the break the first fork is the higher-numbered one. Without it the second fork follows the first. |
| ForkPolicy.WhoStartsLeft | DiningPhilosophers.java:123-138 | With the break, exactly the last philosopher starts on its left fork. Without it, everyone does. |
| ForkPolicy.SharedFirstFork | DiningPhilosophers.java:123-133 | Philosophers `n-2` and `n-1` both start on fork `n-1`. |
| ForkPolicy.NotEveryoneHoldsFirst | DiningPhilosophers.java:123-133 | With the break, no state has every philosopher holding its first fork. |
| ForkPolicy.FirstForkInjectiveWithoutBreak | DiningPhilosophers.java:134-138 | Without the break, no two philosophers share a first fork. |
| ForkPolicy.AcquireFirstStep | DiningPhilosophers.java:142 | Taking a free first fork keeps the holding state reachable. |
| ForkPolicy.AcquireSecondStep | DiningPhilosophers.java:143 | Taking a free second fork while holding the first keeps the holding state reachable. |
| ForkPolicy.ReleaseFirstStep | DiningPhilosophers.java:158-160 | Giving back the first fork while holding both keeps the holding state reachable, with the philosopher now releasing and holding only its second fork. |
| ForkPolicy.ReleaseSecondStep | DiningPhilosophers.java:161 | Giving back the second fork of a releasing philosopher keeps the holding state reachable, with that philosopher done releasing. |
| ForkPolicy.UnblockedBelow | DiningPhilosophers.java:123-161 | From a philosopher that holds its first fork, a chain of waits ends at a philosopher that is not blocked: it eats, is releasing, or can take a free fork. |
| ForkPolicy.SomeoneCanProceed | DiningPhilosophers.java:123-161 | With the break and `n >= 2`, every holding state the acquisition order and the release order of the `finally` block produce has a philosopher that is not blocked, so no such state is a deadlock. A philosopher between its two releases holds only its second fork and waits for nothing. |
| ForkPolicy.MidReleaseSnapshot | DiningPhilosophers.java:158-161 | With two philosophers, the state where p0 has given back fork 1 and still holds fork 0 while p1 holds fork 1 arises only between p0's two releases. It is reachable, p1 waits, and p0 does not, so it is not a deadlock. |
| ForkPolicy.CircularWaitWithoutBreak | DiningPhilosophers.java:134-143 | Without the break, the state "everyone holds its left fork" is reachable and deadlocked. |
| Timing.SleepMs | DiningPhilosophers.java:166-168 | Computing a duration, as written, throws exactly when the `int` difference `max - min` is `Integer.MAX_VALUE`, and then with the bound `Integer.MIN_VALUE`. When that difference is not positive, the duration is `min`. |
| Timing.NonNegativeRangeThrowsOnlyAtFullWidth | DiningPhilosophers.java:166-168 | For non-negative bounds, which are the only ones the reader stores, only the full-width range throws. |
| Timing.SleepWithinRange | DiningPhilosophers.java:166-168 | For a range that does not overflow and a draw `r` in `[0, max-min]`, the duration is `min + r`, within `[min, max]`. |
| Timing.SleepDegenerate | DiningPhilosophers.java:166-168 | When `max <= min` and the `int` difference `max - min` does not wrap, nothing is drawn and the duration is `min`. |
| Timing.FullWidthRangeThrows | DiningPhilosophers.java:167-168 | When `max - min` is `Integer.MAX_VALUE`, the bound overflows to `Integer.MIN_VALUE` and the draw throws. |
| Timing.SleepMsIntended | DiningPhilosophers.java:166-168 | The corrected duration lies in `[min, max]` when `min <= max`. It is `min + r` when `min < max` and `min` otherwise. |
| Timing.IntendedAgreesWithWritten | DiningPhilosophers.java:166-168 | Where the written code does not overflow, it returns the corrected duration. |
| Forks.NewForks | DiningPhilosophers.java:224-228 | `n` fresh forks, each with its one permit. |
| Forks.Acquire | DiningPhilosophers.java:142-143 | Takes one permit of the fork. Every other fork is unchanged. |
| Forks.Release | DiningPhilosophers.java:160-161 | Adds one permit to the fork. Every other fork is unchanged. |
| Statistics.SumUpdate | DiningPhilosophers.java:149 | Changing one slot changes the column total by exactly that change. |
| Statistics.NewStats | DiningPhilosophers.java:230-232 | Both statistics arrays are fresh, of length `n` and all zero. |
| Statistics.RecordMeal | DiningPhilosophers.java:145-150 | Only slot `id` changes: the meal count gains 1 and the total wait gains `fimEspera - inicioEspera`, both in Java arithmetic. Without overflow, the total of meals grows by exactly 1 and the wait grows by the exact wait. |
| Simulation.Gate | DiningPhilosophers.java:209-225 | The simulation starts exactly when `variacao` is `"simetria"` and `filosofos >= 0`. It then has `filosofos` philosophers. Any other variant is refused with that variant. A negative count is refused with a NegativeArraySizeException. |
| Simulation.VariantAnyCaseAccepted | DiningPhilosophers.java:24-31 | A `variacao` line that spells key and value in any letter case sets the variant to `"simetria"`, on any record. With `filosofos >= 0` the record passes the gate. |
| Simulation.PhilosophersLine | DiningPhilosophers.java:33-36 | A `filosofos` line under a key in any letter case sets the number of philosophers to the parsed value. |
| Simulation.ParseFive | DiningPhilosophers.java:35 | `"5"` parses as 5. |
| Simulation.FilosofosLine | DiningPhilosophers.java:33-36 | The line `filosofos=5` sets five philosophers. |
| Simulation.UpperCaseVariantLine | DiningPhilosophers.java:52-54 | The line `variacao=SIMETRIA` stores `"simetria"` on any record. |
| Simulation.SampleConfiguration | DiningPhilosophers.java:19-59 | The file `filosofos=5`, `variacao=SIMETRIA` reads as five philosophers with the symmetry variant and passes the gate. |
| Simulation.Start | DiningPhilosophers.java:209-232 | A refused gate returns its error. Otherwise there are `filosofos` fresh forks, all free, and fresh statistics arrays, all zero. |
| Simulation.FreeForksLetAnyoneEat | DiningPhilosophers.java:140-143 | With all forks free and `n >= 2`, any philosopher can take both its forks. |
| Simulation.LonePhilosopherBlocksItself | DiningPhilosophers.java:117-143 | With one philosopher, both forks are fork 0, so the second acquire cannot succeed. |
| Simulation.MealCycle | DiningPhilosophers.java:140-162 | After a meal, every fork is back at its old permit count and the statistics are updated as `RecordMeal` states. An interrupted acquire leaves the statistics unchanged, and `finally` still adds one permit to each fork that was not acquired. |

## Left out

- Threads, `StopFlag` and the interleaving of philosophers are not modelled as running code. Concurrency is captured by the holding-state predicates of `ForkPolicy` (who holds which fork, and who is between its two releases), by the steps that take and give back one fork, and by one meal cycle at a time.
- A blocking `Semaphore.acquire` is modelled by its precondition: a permit must be available. Waiting itself is not modelled.
- `Thread.sleep`, `System.currentTimeMillis` and `java.util.Random` are left out. The clock readings and the random draw are parameters. A sleep that is interrupted catches the exception and sets the interrupt flag again (DiningPhilosophers.java:171-173). The next `acquire` then throws at once. That is the `AtFirstAcquire` path of Simulation.MealCycle. Which pass of the loop this happens on is not modelled.
- Reading the file is left out: `fromFile` is modelled over the sequence of its lines, and an `IOException` is not modelled. Looking up the host name and testing it for the AWS pattern are left out too, because they only print.
- All printing, the averages computed in `double` and the final results table are left out.
- The `Thread.sleep(config.duracaoSeg * 1000L)` of `main` and the `InterruptedException` of `main` are left out. The sleep is not modelled. The reader does store a negative `duracao_seg` (ConfigFile.DurationStored). `Thread.sleep` then throws `IllegalArgumentException` in `main` (DiningPhilosophers.java:252), after every philosopher has started. `requestStop` (line 255) is never reached. The philosopher threads are not daemons, so they never stop, and no results are printed. The model does not capture this run.
- ForkPolicy.SomeoneCanProceed: a holding state gives each fork at most one holder. An interrupted acquire makes `finally` release a fork the philosopher never took, which leaves a fork with two permits (Simulation.MealCycle). That is shutdown after an interrupt, and the holding states do not follow it.
- `philos[i].join()` and thread creation are left out, with the rest of the thread lifecycle.
- `Thread.sleep` with a negative duration, which throws `IllegalArgumentException`, is not modelled. In `dormirRandom` it cannot arise from a file the reader accepts, because ConfigFile.Parse stores only non-negative range bounds. The sleep in `main` is the case above.
- JavaString.ToLower: maps only A-Z; for those letters this is what `toLowerCase()` does under any locale but Turkish or Azeri. Java's `toLowerCase` also lower-cases other Unicode letters. Under a Turkish or Azeri default locale it maps `I` to the dotless `ı`. There `FILOSOFOS=5` is an unknown key and `variacao=SIMETRIA` fails the gate. The model assumes any other locale.
- JavaString.ParseInt: accepts only ASCII digits. Java's `Integer.parseInt` also accepts other Unicode decimal digits.
- JavaString.Split: models `split` for a single literal character, which is all the source uses (`"="` and `"-"`). General regular expressions are not modelled.
- `main` always passes `simetria = true`. Without the break, the order is modelled by ForkPolicy.ForkOrder and studied by CircularWaitWithoutBreak, but Simulation.MealCycle only uses the broken order.
- Simulation.MealCycle: does not model the eating sleep (DiningPhilosophers.java:153). An interrupt during it is swallowed, and the pass completes as modelled. For a full-width `eat_ms` range the sleep throws `IllegalArgumentException` (see Findings). The meal is then already recorded, and `finally` releases both forks, so the forks and statistics end as MealCycle states. The exception then ends the philosopher's thread, which is not modelled. The same exception from the thinking sleep ends the thread before any fork is taken.

## Findings

| source | as written | input that shows it | evidently intended | confidence | as-written member | corrected member |
|---|---|---|---|---|---|---|
| DiningPhilosophers.java:167-168 | `delta + 1` is computed in `int`. When `maxMs - minMs == Integer.MAX_VALUE` it wraps to `Integer.MIN_VALUE`, and `random.nextInt` throws `IllegalArgumentException`, which ends the philosopher's thread | `think_ms=0-2147483647` | a duration drawn uniformly from `[minMs, maxMs]`, with the bound computed without overflow | not executed | Timing.FullWidthRangeThrows | Timing.SleepMsIntended |
