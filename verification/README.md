# Restore concurrency tuner and benchmark helpers, in Dafny

This project models the computational core of a benchmark runner for the
Duplicati backup program's restore flow and its SQLite experiments. It then
proves properties of that model.

**The restore tuner.** The centre is the concurrency auto-tuner
(`RunTuning`). It runs a restore with four worker counts, one per pipeline
stage:
- FileProcessor;
- VolumeDownloader;
- VolumeDecryptor;
- VolumeDecompressor.

It then reads the profiling log that the restore writes. Each log line is
one of two kinds:
- a wall-clock line, containing "took" and ending in a `d:hh:mm:ss.fff`
  duration;
- a stage line: a 78-character prefix, a stage name, and timing fields
  containing "ms". A fixed table turns each stage line into one
  (work, read) sample for its stage.

The tuner averages the samples, then doubles the worker count of the
bottleneck stage:
- FileProcessor when the mean read time exceeds the total work;
- otherwise the stage with the greatest mean work, ties going to the
  highest index.

It repeats this until one of three things happens:
- automatic tuning is off;
- a plateau counter reaches `AutoTuningSteps`;
- some count reaches twice the processor count.

Throughout, it keeps the vector with the smallest wall-clock total.

An earlier version of the tuner does a single step with the general
`TimeSpan.Parse`. It only looks at stages 1..3 when choosing the
bottleneck. That version is modelled alongside (`SingleStepTuner`), and
lemmas state where the two agree and where they differ.

**Helpers of the SQLite and LINQ microbenchmarks.**
- the return-code and value checks, the argument parser, the random
  alphanumeric strings and the order statistics of `shared.hpp`;
- the SQL parameter-name extraction, the commit and index predicates, the
  `(long, string)` comparer and the parameter grids of the C# benchmark
  driver;
- the key layouts of the blob, blob-int and hash-int select benchmarks
  (encoders, and the decode and match steps of their lookups);
- the list-intersection variants, the overlap-pair generator, the
  outlier-trimming `time_func` and the size grid of the LINQ
  microbenchmark.

**Modelling conventions.**
- Pipeline runs, the log file, the database, random number generators and
  the clock are inputs. The tuner is given a `Pipeline` function from
  (vector, step, run) to the lines the profiling log holds after that run.
  The log is deleted only at the start of a step, so these lines include
  what the earlier runs of the same step wrote. `ProcessorCount` is a
  parameter.
- .NET's `double` arithmetic is modelled with `real`. `int` and `long`
  bounds and wrap-around are explicit (`Ints.Wrap32`, `IsInt64`), as is
  C#'s truncating `%` (`Ints.TruncRem`).
- Strings are `seq<char>`; bytes are `Ints.Byte`. `char.IsDigit` (decimal digits of every script) and `char.IsWhiteSpace` are modelled over the 16-bit range of a .NET `char`; letters are the ASCII ones.
- Exceptions become `Err` values of a `Result`.
- The tuner's loop is a function with a `fuel` bound.
  `TuningSearch.SessionTerminates` proves that, when every worker count
  starts in [1, 2^30) and twice the processor count is at most 2^30, fuel
  equal to the doubling budget is always enough.

Modules: `Wrappers`, `Ints`, `Text` and `Sorting` are shared
foundations. `TunerTypes`, `TuningLog`, `TuningStats`, `TuningSearch` and
`SingleStepTuner` model the tuner. `BenchStats` (shared.hpp),
`SqliteBench`, `KeyPacking` and `Intersect` model the benchmarks.

## Model

| member | source | states |
|---|---|---|
| TuningSearch.ParseLegaciesToRun | 25-03-24-5728-restore-rework/benchmark/runner/Program.cs:264-274 | Both yields two distinct legacy strings and every other version one; each string is "false", "true" or "prenewbackend" |
| TuningSearch.LegaciesDetermineVersion | 25-03-24-5728-restore-rework/benchmark/runner/Program.cs:264-274 | different versions give different legacy lists, so the list identifies the version |
| TuningSearch.Validate | 25-03-24-5728-restore-rework/benchmark/runner/Program.cs:626-639 | Both is rejected for having two legacies, then `Size.All` is rejected; the rest is accepted exactly when the tuning (defaulted from "") has four comma-separated parts; the setup holds the single legacy string and a vector that joins back to the given tuning, or to "1,1,1,1" |
| TunerTypes.StageNamed | 25-03-24-5728-restore-rework/benchmark/runner/Program.cs:695-701 | a process name maps to a stage exactly when it is that stage's dictionary key; every other name maps to none |
| TunerTypes.FromParts | 25-03-24-5728-restore-rework/benchmark/runner/Program.cs:637-639 | a four-element tuning array becomes a vector whose parts, in stage order, are the array |
| TunerTypes.ConcurrencyOptions | 25-03-24-5728-restore-rework/benchmark/runner/Program.cs:690-693 | four option settings, each stage's restore option carrying that stage's component |
| TunerTypes.ConcurrencyOptionsInjective | WIP-restore/benchmark/runner/Program.cs:618-621 | different vectors give different option settings: no component is lost or swapped |
| TuningLog.DurationMillis | 25-03-24-5728-restore-rework/benchmark/runner/Program.cs:730-733 | accepted exactly when days ≤ 10675199, hours ≤ 23, minutes and seconds ≤ 59, the whole milliseconds are at most 922337203685477 and the total in 100 ns ticks (fraction included) is at most `long.MaxValue`; the value is non-negative and is ((d·24+h)·60+m)·60+s seconds in ms plus the whole ms of the fraction |
| TuningLog.ExactReadsFields | 25-03-24-5728-restore-rework/benchmark/runner/Program.cs:729-733 | `ParseExact` with `d\:hh\:mm\:ss\.fff` reads a token of 1-8 day digits, two-digit h/m/s and three fraction digits field by field into milliseconds |
| TuningLog.ExactOnlyFields | 25-03-24-5728-restore-rework/benchmark/runner/Program.cs:729-733 | every token the exact parser accepts has that shape; anything else throws |
| TuningLog.ExactImpliesGeneral | WIP-restore/benchmark/runner/Program.cs:643-645 | every token the later exact parser accepts, the earlier tuner's `TimeSpan.Parse` accepts with the same milliseconds |
| TuningLog.MsTokens | 25-03-24-5728-restore-rework/benchmark/runner/Program.cs:742-743 | the kept tokens are exactly the tokens containing "ms" |
| TuningLog.MsTokensConcat | 25-03-24-5728-restore-rework/benchmark/runner/Program.cs:742-743 | the `Where` filter keeps order and repeats: filtering a concatenation is filtering each part |
| TuningLog.MsTokensDetermined | 25-03-24-5728-restore-rework/benchmark/runner/Program.cs:742-743 | any filter that keeps a lone token exactly when it contains "ms" and distributes over concatenation equals `MsTokens` on every token list |
| TuningLog.TimeValueIsIntParse | 25-03-24-5728-restore-rework/benchmark/runner/Program.cs:744 | a timing is `int.Parse` of the characters `char.IsDigit` keeps from the token, digits of other scripts included |
| TuningLog.TimeValueRejectsOtherScripts | 25-03-24-5728-restore-rework/benchmark/runner/Program.cs:744 | a token holding a non-ASCII decimal digit (such as U+0663) gives no timing, because `int.Parse` rejects the digit the filter kept |
| TuningLog.ParseTimes | 25-03-24-5728-restore-rework/benchmark/runner/Program.cs:742-745 | succeeds exactly when every "ms" token has a parsable digit string; the result holds each token's value in order; a failure names a token that does not parse |
| TuningLog.TokenizeStageLine | 25-03-24-5728-restore-rework/benchmark/runner/Program.cs:738-745 | a line shorter than 78 characters, or one with no '-' after the prefix, throws; the name is the dash-free text before the first '-'; every timing is within `int`; otherwise the outcome (times or error) is that of parsing the "ms" tokens from the first '-' on |
| TuningLog.StageLineTimes | 25-03-24-5728-restore-rework/benchmark/runner/Program.cs:740-745 | `times[]` holds, in order and with repeats, the `int.Parse` value of each "ms" token after the dash; otherwise the line throws `BadNumber` on the first token that does not parse |
| TuningLog.ExtractSample | 25-03-24-5728-restore-rework/benchmark/runner/Program.cs:747-775 | an unknown name adds nothing; a known stage with too few timings throws; otherwise exactly one sample for the named stage, whose read time is the table's read position; never a wall-clock sample |
| TuningLog.ExtractMatchesPositions | 25-03-24-5728-restore-rework/benchmark/runner/Program.cs:752-768 | the work of a sample is the sum of the timings at the table's work positions for its stage |
| TuningLog.FileProcessorWorkSum | 25-03-24-5728-restore-rework/benchmark/runner/Program.cs:752-756 | FileProcessor's work positions sum to Σtimes[1..3) + Σtimes[5..8) + Σtimes[9..) |
| TuningLog.FileProcessorExample | 25-03-24-5728-restore-rework/benchmark/runner/Program.cs:752-756 | on timings 5,10,20,30,7,1,2,3,4,5,6 a FileProcessor line gives work 47 and read 7 |
| TuningLog.ParseLine | 25-03-24-5728-restore-rework/benchmark/runner/Program.cs:725-775 | a "took" line succeeds exactly when its last space token parses, and then gives that many ms as a wall-clock sample; any other line never gives a wall-clock sample, and one shorter than the prefix throws |
| TuningLog.Events | 25-03-24-5728-restore-rework/benchmark/runner/Program.cs:722-776 | a log that reads without error gives one classified event per line |
| TuningLog.ParseLogSpec | 25-03-24-5728-restore-rework/benchmark/runner/Program.cs:722-776 | reading a log fails exactly when some line fails, with the first failing line's error; otherwise each stage's work and read lists grow by that stage's samples in log order, and the wall-clock list by the "took" values |
| TuningLog.ParseLogConcat | 25-03-24-5728-restore-rework/benchmark/runner/Program.cs:708-776 | reading two logs one after the other into the same lists equals reading their concatenation |
| TuningLog.StepSamplesFlatten | 25-03-24-5728-restore-rework/benchmark/runner/Program.cs:695-776 | the iterations of one step, read in turn, read like one log of all their lines |
| TuningLog.StepSamplesSpec | 25-03-24-5728-restore-rework/benchmark/runner/Program.cs:695-776 | lists created empty at the start of a step hold exactly that step's samples, in order, over all its iterations |
| TuningStats.CheckedSum | 25-03-24-5728-restore-rework/benchmark/runner/Program.cs:781-787 | a sum that succeeds is the sum of the samples and fits in `long` |
| TuningStats.CheckedSumNonNegative | 25-03-24-5728-restore-rework/benchmark/runner/Program.cs:781-787 | for non-negative samples the checked sum overflows exactly when the true sum exceeds `long.MaxValue` |
| TuningStats.Average | 25-03-24-5728-restore-rework/benchmark/runner/Program.cs:781-787 | `Average` of an empty list throws; it succeeds exactly when the list is non-empty and its sum fits; the mean times the count is the sum |
| TuningStats.MeanWithin | 25-03-24-5728-restore-rework/benchmark/runner/Program.cs:789-796 | the mean of samples between two bounds lies between them |
| TuningStats.Evens | 25-03-24-5728-restore-rework/benchmark/runner/Program.cs:794 | ⌈n/2⌉ samples, the k-th being sample 2k (the setup phases) |
| TuningStats.Odds | 25-03-24-5728-restore-rework/benchmark/runner/Program.cs:795 | ⌊n/2⌋ samples, the k-th being sample 2k+1 (the restore phases) |
| TuningStats.EvensOddsSum | 25-03-24-5728-restore-rework/benchmark/runner/Program.cs:794-796 | the even- and odd-indexed samples partition the list: their sums add up to its sum |
| TuningStats.StageMeans | 25-03-24-5728-restore-rework/benchmark/runner/Program.cs:781-787 | a stage with no work or no read samples throws; otherwise both means times their counts give the sums |
| TuningStats.FirstFailure | 25-03-24-5728-restore-rework/benchmark/runner/Program.cs:781-787 | succeeds exactly when every stage does; otherwise the error is that of the first failing stage in dictionary order |
| TuningStats.AllMeans | 25-03-24-5728-restore-rework/benchmark/runner/Program.cs:781-790 | every stage's mean work and read, or the first stage's failure |
| TuningStats.WallClockMeans | 25-03-24-5728-restore-rework/benchmark/runner/Program.cs:794-796 | succeeds exactly when there are at least two samples and both halves sum within `long`; setup is the mean of the even-indexed samples, restore the mean of the odd-indexed ones |
| TuningStats.Aggregate | 25-03-24-5728-restore-rework/benchmark/runner/Program.cs:789-796 | total work is the sum of the four mean works, total read is the mean of the four mean reads, and setup and restore are the wall-clock means; the first failure is reported |
| TuningStats.MaxLast | 25-03-24-5728-restore-rework/benchmark/runner/Program.cs:818 | `Max()` over (mean, index) pairs: the chosen stage's mean work is the greatest, and every later candidate's is strictly smaller |
| TuningStats.LastMaxUnique | 25-03-24-5728-restore-rework/benchmark/runner/Program.cs:818 | that description determines the stage uniquely |
| TuningStats.SelectRework | 25-03-24-5728-restore-rework/benchmark/runner/Program.cs:812-820 | read-bound statistics pick FileProcessor; otherwise the last stage of greatest mean work among all four |
| TuningStats.SelectWip | WIP-restore/benchmark/runner/Program.cs:707-715 | read-bound statistics pick FileProcessor; otherwise the last stage of greatest mean work among stages 1..3, never FileProcessor |
| TuningStats.SelectorsDiffer | WIP-restore/benchmark/runner/Program.cs:707-715 | the two tuners choose differently exactly when the work branch is taken and the later one picks FileProcessor |
| TuningStats.DoubleAt | 25-03-24-5728-restore-rework/benchmark/runner/Program.cs:812-820 | throws exactly when the chosen component does not parse as `int`; every other component is unchanged |
| TuningStats.DoubleAtValue | 25-03-24-5728-restore-rework/benchmark/runner/Program.cs:814-819 | the chosen component becomes twice its value in 32-bit arithmetic, which is exactly twice when that does not overflow |
| TuningSearch.StepLogs | 25-03-24-5728-restore-rework/benchmark/runner/Program.cs:708-713 | one log per iteration (none when `Iterations` ≤ 0), each written by the pipeline for this vector, step and run |
| TuningSearch.NoRunsNoStats | 25-03-24-5728-restore-rework/benchmark/runner/Program.cs:708-787 | with no iterations nothing is read, and averaging FileProcessor's empty list throws |
| TuningSearch.AllBelowFromIff | 25-03-24-5728-restore-rework/benchmark/runner/Program.cs:821 | the cap test is true exactly when every component parses and is below the cap |
| TuningSearch.RunTuning | 25-03-24-5728-restore-rework/benchmark/runner/Program.cs:624-835 | invalid arguments abort with their error; the legacy engine returns after its first restore, exactly when at least one iteration runs; a finished search reports a best vector it evaluated and a minimum it measured, and every vector it evaluated after the first had all counts below `2 * ProcessorCount` |
| TuningSearch.StepTrace | 25-03-24-5728-restore-rework/benchmark/runner/Program.cs:803-820 | one step records the current vector, its wall-clock total and the stage the bottleneck rule picks; the next vector is this one with that stage doubled |
| TuningSearch.TraceExtend | 25-03-24-5728-restore-rework/benchmark/runner/Program.cs:803-820 | appending a correctly measured step to a consistent record keeps it consistent |
| TuningSearch.RunTrace | 25-03-24-5728-restore-rework/benchmark/runner/Program.cs:677-821 | a do-while run that stops has evaluated at least once, keeps the earlier record as a prefix, and first evaluated the vector it started from |
| TuningSearch.SessionEvaluates | 25-03-24-5728-restore-rework/benchmark/runner/Program.cs:677-821 | in a stopped tuning session every recorded step agrees with the evaluator and the doubling rule, and the first step evaluated the starting vector |
| TuningSearch.SingleStepWhenTuningOff | 25-03-24-5728-restore-rework/benchmark/runner/Program.cs:821 | with `AutoTuningSteps` ≤ 0 exactly one vector, the starting one, is evaluated |
| TuningSearch.FirstMin | 25-03-24-5728-restore-rework/benchmark/runner/Program.cs:803-810 | the position of the first smallest total: nothing is smaller, and every earlier total is strictly larger |
| TuningSearch.TunerMeasured | 25-03-24-5728-restore-rework/benchmark/runner/Program.cs:781-796 | every wall-clock total measured from a log is below `double.MaxValue`, so the first step always improves on the start |
| TuningSearch.ObserveKeepsBest | 25-03-24-5728-restore-rework/benchmark/runner/Program.cs:803-810 | after the strict-improvement update, `minima` is the least total so far, `best_tune` the vector of the first step that reached it, and `steps` the number of steps since then |
| TuningSearch.StepKeepsBest | 25-03-24-5728-restore-rework/benchmark/runner/Program.cs:803-821 | a whole loop iteration preserves that invariant |
| TuningSearch.RunKeepsBest | 25-03-24-5728-restore-rework/benchmark/runner/Program.cs:677-821 | any do-while run whose step preserves the invariant ends with it |
| TuningSearch.SessionKeepsBest | 25-03-24-5728-restore-rework/benchmark/runner/Program.cs:665-821 | starting from `minima = double.MaxValue`, the tuner ends with the running minimum and the first vector that attained it |
| TuningSearch.BudgetShrinks | 25-03-24-5728-restore-rework/benchmark/runner/Program.cs:812-821 | doubling one positive component that stays below the cap lowers the number of doublings left by exactly one and keeps every component positive |
| TuningSearch.StepBudget | 25-03-24-5728-restore-rework/benchmark/runner/Program.cs:812-821 | an iteration after which the loop continues spends exactly one doubling of the budget |
| TuningSearch.StepRecords | 25-03-24-5728-restore-rework/benchmark/runner/Program.cs:803-810 | every completed iteration records exactly one step |
| TuningSearch.RunTerminates | 25-03-24-5728-restore-rework/benchmark/runner/Program.cs:677-821 | a do-while loop whose continuing steps each spend one unit of a budget stops within that many steps |
| TuningSearch.SessionTerminates | 25-03-24-5728-restore-rework/benchmark/runner/Program.cs:821 | when every starting count parses and lies in [1, 2^30) and the cap `2 * ProcessorCount` is at most 2^30, the search stops after at most the doubling budget of evaluations |
| TuningSearch.DoublingOutOfRange | 25-03-24-5728-restore-rework/benchmark/runner/Program.cs:814-821 | outside that range the cap does not end the loop: doubling a count of 2^30 or more gives a negative `int`, below every positive cap, and a count of 0 doubles to 0 |
| TuningSearch.StepHalts | 25-03-24-5728-restore-rework/benchmark/runner/Program.cs:821 | an iteration that ends the loop leaves the loop condition false |
| TuningSearch.RunHalts | 25-03-24-5728-restore-rework/benchmark/runner/Program.cs:821 | a run stops only in a state where its exit test holds |
| TuningSearch.StopReason | 25-03-24-5728-restore-rework/benchmark/runner/Program.cs:821 | a stopped search has tuning off, reached the plateau limit, or has some count not below 2·ProcessorCount |
| TuningSearch.StepBelowCap | 25-03-24-5728-restore-rework/benchmark/runner/Program.cs:812-821 | an iteration entered with a vector that passed the loop test records only vectors that passed it, and continues only with a vector that passes it |
| TuningSearch.RunEstablishes | 25-03-24-5728-restore-rework/benchmark/runner/Program.cs:677-821 | a do-while run whose every step turns an entry invariant into an exit property, and keeps the invariant when it continues, ends with that property |
| TuningSearch.SessionNeverEvaluatesCap | 25-03-24-5728-restore-rework/benchmark/runner/Program.cs:677-821 | a vector that reaches the cap is never evaluated: every vector after the first (which the do-while always measures) had each component parse and lie below `2 * ProcessorCount` |
| SingleStepTuner.ValidateOnce | WIP-restore/benchmark/runner/Program.cs:576-589 | Both rejected, then `Size.All`; accepted exactly when the tuning splits into four parts, otherwise the part count is reported; the vector joins back to the tuning |
| SingleStepTuner.ValidatorsAgree | WIP-restore/benchmark/runner/Program.cs:587-589 | both tuners validate a non-empty tuning identically; on "" the earlier one rejects a single part while the later one defaults |
| SingleStepTuner.DefaultTuningAccepted | WIP-restore/benchmark/runner/Program.cs:140 | the command line's default "1,1,1,1" is accepted and gives the later tuner's default vector |
| SingleStepTuner.ReadClock | WIP-restore/benchmark/runner/Program.cs:702 | succeeds exactly when there are at least two wall-clock samples and their sum fits in `long`, and then the total is that sum; too few samples and overflow are distinct errors |
| SingleStepTuner.ClockMatchesMeans | WIP-restore/benchmark/runner/Program.cs:702 | with exactly two samples, the earlier report equals the later tuner's setup and restore means |
| SingleStepTuner.MeasureOnce | WIP-restore/benchmark/runner/Program.cs:690-702 | the same stage aggregation as the later tuner, with the wall clock read by index |
| SingleStepTuner.TuneOnce | WIP-restore/benchmark/runner/Program.cs:574-719 | validation and log errors abort; otherwise exactly one component changes, doubled in 32-bit arithmetic; read-bound picks FileProcessor, else the last greatest of stages 1..3 |
| SingleStepTuner.ParseLogFormats | WIP-restore/benchmark/runner/Program.cs:640-688 | a log the later exact parser reads is read identically by the earlier general parser |
| BenchStats.ReturnCodeOk | WIP-sqlite/benchmark/index_and_schema/shared.hpp:31-39 | true exactly for SQLITE_OK, SQLITE_ROW and SQLITE_DONE |
| BenchStats.ReturnCodeClassification | WIP-sqlite/benchmark/index_and_schema/shared.hpp:31-39 | every primary error code 1..28 is rejected; the three success codes are accepted |
| BenchStats.ValueMatches | WIP-sqlite/benchmark/index_and_schema/shared.hpp:41-51 | true exactly when the values are equal; a report is printed exactly on a mismatch with printing on |
| BenchStats.PrintFlagOnlyReports | WIP-sqlite/benchmark/index_and_schema/shared.hpp:41-51 | the print flag never changes the verdict, and off it prints nothing |
| BenchStats.Stoi | WIP-sqlite/benchmark/index_and_schema/shared.hpp:59 | `std::stoi` yields an `int` or throws |
| BenchStats.StoiUnsigned | WIP-sqlite/benchmark/index_and_schema/shared.hpp:59 | a digit run followed by a non-digit parses to its value, or throws out-of-range above `INT_MAX` |
| BenchStats.StoiMinus | WIP-sqlite/benchmark/index_and_schema/shared.hpp:59 | a minus sign negates the digit run, out-of-range below `INT_MIN` |
| BenchStats.StoiDecimal | WIP-sqlite/benchmark/index_and_schema/shared.hpp:59 | `stoi` reads back the decimal form of any `int`, whatever non-digit text follows |
| BenchStats.StoiSkipsWhite | WIP-sqlite/benchmark/index_and_schema/shared.hpp:59 | leading whitespace is skipped |
| BenchStats.ToUint64 | WIP-sqlite/benchmark/index_and_schema/shared.hpp:59 | conversion to `uint64_t` is reduction modulo 2^64: negatives wrap to 2^64 + v |
| BenchStats.ParseArgsNoFlags | WIP-sqlite/benchmark/index_and_schema/shared.hpp:53-68 | arguments that are not flags are reported unknown, in order, and change nothing |
| BenchStats.ParseArgsDefaults | WIP-sqlite/benchmark/index_and_schema/shared.hpp:53-68 | without flags the configuration is 100000 / 1000 / 10000 |
| BenchStats.ParseArgsOneFlag | WIP-sqlite/benchmark/index_and_schema/shared.hpp:58-63 | a flag followed by a number sets exactly that field, converted to `uint64_t` |
| BenchStats.ParseArgsTrailingFlag | WIP-sqlite/benchmark/index_and_schema/shared.hpp:58-66 | a flag with no following argument is reported unknown and leaves the defaults |
| BenchStats.EntriesProvenance | WIP-sqlite/benchmark/index_and_schema/shared.hpp:58-59 | a changed entry count is the value after some `--num-entries` flag |
| BenchStats.AlphabetLayout | WIP-sqlite/benchmark/index_and_schema/shared.hpp:72 | the alphabet has 62 characters: lower case, then upper case, then digits |
| BenchStats.AlphabetMembers | WIP-sqlite/benchmark/index_and_schema/shared.hpp:72 | a character is in the alphabet exactly when it is an ASCII letter or digit |
| BenchStats.RandomHashString | WIP-sqlite/benchmark/index_and_schema/shared.hpp:70-77 | exactly `length` characters, the i-th being the alphabet entry at draw i mod 62 |
| BenchStats.RandomHashStringOnto | WIP-sqlite/benchmark/index_and_schema/shared.hpp:70-77 | every alphanumeric string is produced by some draws |
| BenchStats.IntLeTotal | WIP-sqlite/benchmark/index_and_schema/shared.hpp:96 | `<` on samples gives a total order, so `std::sort` has one possible result |
| BenchStats.PickIndices | WIP-sqlite/benchmark/index_and_schema/shared.hpp:102-108 | for n ≥ 1 the picks n/100 ≤ n/10 ≤ n/4 ≤ n/2 ≤ 3n/4 ≤ 9n/10 ≤ 99n/100 are ascending and in bounds |
| BenchStats.PicksOrdered | WIP-sqlite/benchmark/index_and_schema/shared.hpp:96-108 | on sorted samples min ≤ 1st ≤ 10th ≤ q1 ≤ median ≤ q3 ≤ 90th ≤ 99th ≤ max, with front and back bounding every sample |
| BenchStats.ReportStats | WIP-sqlite/benchmark/index_and_schema/shared.hpp:96-108 | the same ordering after sorting arbitrary samples; min and max are samples and bound all of them |
| BenchStats.ReportStatsOrderFree | WIP-sqlite/benchmark/index_and_schema/shared.hpp:96-108 | the report depends only on the multiset of samples |
| BenchStats.AsWrittenDivisor | WIP-sqlite/benchmark/index_and_schema/shared.hpp:100-101 | the divisor as written is positive for n ≥ 1 |
| BenchStats.AsWrittenDivisorMatches | WIP-sqlite/benchmark/index_and_schema/shared.hpp:100-101 | the divisor as written equals the trimmed range's length exactly when n mod d < d/2 |
| BenchStats.TrimmedMeanBounded | WIP-sqlite/benchmark/index_and_schema/shared.hpp:100-101 | the corrected trimmed average lies between the first and last sample of the trimmed range |
| BenchStats.TrimmedMeanAsWrittenExceedsMax | WIP-sqlite/benchmark/index_and_schema/shared.hpp:100 | fifty equal samples: the 1-99 average as written is 50/49 times the sample, the corrected one is the sample |
| SqliteBench.RenderRoundTrip | WIP-sqlite/benchmark/Program.cs:61 | `ToString` can be parsed back into Count, CommitEveryN, UseIndex and IndexAfter; UseTransaction is not shown |
| SqliteBench.RenderInjective | WIP-sqlite/benchmark/Program.cs:61 | two parameter sets render alike exactly when the four shown fields agree |
| SqliteBench.NamesOf | WIP-sqlite/benchmark/Program.cs:155-157 | at most one name per token, each made of letters and digits only |
| SqliteBench.ParameterNamesOfWords | WIP-sqlite/benchmark/Program.cs:155-157 | for a query of words joined by spaces, none of them holding a `char.IsWhiteSpace` character, the names are those of the words containing '@', in query order, repeats kept |
| SqliteBench.SplitOnJoin | WIP-sqlite/benchmark/Program.cs:155 | splitting words joined by one separator gives exactly those words back when no word holds a separator |
| SqliteBench.ParameterNamesConcat | WIP-sqlite/benchmark/Program.cs:155-157 | joining two queries with any `char.IsWhiteSpace` separator (including U+00A0, U+0085 and U+2028) concatenates their parameter names |
| SqliteBench.CheckIfCommit | WIP-sqlite/benchmark/Program.cs:260-268 | commits exactly when a transaction is used, CommitEveryN > 0 and iteration mod CommitEveryN = CommitEveryN − 1 (C#'s remainder for negative iterations) |
| SqliteBench.CommitsPerBatch | WIP-sqlite/benchmark/Program.cs:260-268 | over iterations 0..k−1 there are exactly ⌊k / CommitEveryN⌋ commits |
| SqliteBench.CheckIfCreateIndex | WIP-sqlite/benchmark/Program.cs:270-278 | creates the index exactly when the table is not indexed up front and IndexAfter is set |
| SqliteBench.OrdinalZero | WIP-sqlite/benchmark/Program.cs:280-290 | ordinal comparison is 0 exactly for equal strings |
| SqliteBench.OrdinalAntisymmetric | WIP-sqlite/benchmark/Program.cs:280-290 | swapping the arguments negates the ordinal comparison |
| SqliteBench.OrdinalTransitive | WIP-sqlite/benchmark/Program.cs:280-290 | ordinal ≤ is transitive |
| SqliteBench.TupleCompareSpec | WIP-sqlite/benchmark/Program.cs:280-290 | the comparer returns 0 exactly for equal pairs and is antisymmetric |
| SqliteBench.TupleLeTotal | WIP-sqlite/benchmark/Program.cs:280-290 | the comparer's ≤ is a total order: Item1 first, then the strings ordinally |
| SqliteBench.SortEntries | WIP-sqlite/benchmark/Program.cs:353 | a permutation of the entries, ordered by the comparer and so by Item1 |
| SqliteBench.SortEntriesUnique | WIP-sqlite/benchmark/Program.cs:353 | any sorted permutation, whatever the algorithm, is that one |
| SqliteBench.GridOfZero | WIP-sqlite/benchmark/Program.cs:574-588 | with the single interval 0, three parameter sets per count, in count order |
| SqliteBench.GridRowSkip | WIP-sqlite/benchmark/Program.cs:574-588 | a count is skipped exactly when the interval is positive and not below the count |
| SqliteBench.InsertValidParamsSpec | WIP-sqlite/benchmark/Program.cs:574-588 | nine sets, three for each of 10000, 100000 and 1000000 in order: the first of each three is unindexed, the second creates its index after inserting, the third is indexed from the start; all use one transaction that never commits |
| SqliteBench.SelectValidParamsSpec | WIP-sqlite/benchmark/Program.cs:789-798 | one set: 10000 rows, indexed up front, one transaction that is never renewed |
| KeyPacking.PackEntry | WIP-sqlite/benchmark/SQLiteSelectBlobBenchmark.cs:154-158 | bytes 0..32 are the hash's first 32, bytes 32..40 the little-endian length, and no other byte changes |
| KeyPacking.PackedLengthRoundTrip | WIP-sqlite/benchmark/SQLiteSelectBlobBenchmark.cs:150-157 | `ToInt64(entry[32..40])` returns the packed length |
| KeyPacking.PackedKeyDetermines | WIP-sqlite/benchmark/SQLiteSelectBlobBenchmark.cs:107-111 | two keys are equal exactly when the lengths and the hashes' first 32 bytes are; bytes 32..39 of the hash are dropped |
| KeyPacking.PrettyPrintEntry | WIP-sqlite/benchmark/SQLiteSelectBlobBenchmark.cs:143-152 | 64 hexadecimal digits, then a space, then at least one more character (what it shows is `KeyPacking.PrettyPrintShowsKey`) |
| KeyPacking.PrettyPrintShowsKey | WIP-sqlite/benchmark/SQLiteSelectBlobBenchmark.cs:143-157 | the printout of a packed key decodes to the hash's first 32 bytes and the decimal length |
| KeyPacking.ScalarLookup | WIP-sqlite/benchmark/SQLiteSelectBlobBenchmark.cs:169-173 | −1 exactly when no row has the key; otherwise the id of a row with that key |
| KeyPacking.InsertedRows | WIP-sqlite/benchmark/SQLiteSelectBlobBenchmark.cs:105-117 | row i has id i and the packed key of entry i |
| KeyPacking.SelectBlob | WIP-sqlite/benchmark/SQLiteSelectBlobBenchmark.cs:161-175 | succeeds exactly when every selected entry's key is found |
| KeyPacking.SelectBlobFindsInserted | WIP-sqlite/benchmark/SQLiteSelectBlobBenchmark.cs:105-175 | every entry chosen from the inserted ones is found, whatever buffers were reused |
| KeyPacking.FirstHash | WIP-sqlite/benchmark/SQLiteSelectBlobIntBenchmark.cs:113 | the little-endian `long` of the first 8 hash bytes |
| KeyPacking.BlobIntBuffer | WIP-sqlite/benchmark/SQLiteSelectBlobIntBenchmark.cs:114-115 | buffer[0..24) = hash[8..32) and buffer[24..32) = the little-endian length |
| KeyPacking.BlobIntKeyRoundTrip | WIP-sqlite/benchmark/SQLiteSelectBlobIntBenchmark.cs:113-115 | firsthash and the buffer give back the whole hash, and the buffer's tail decodes to the length |
| KeyPacking.BlobIntKeyInjective | WIP-sqlite/benchmark/SQLiteSelectBlobIntBenchmark.cs:113-115 | the stored pair identifies the hash and the length |
| KeyPacking.MatchesAsWrittenAnyTail | WIP-sqlite/benchmark/SQLiteSelectBlobIntBenchmark.cs:187-190 | as written, a row whose stored length equals the entry's matches whatever its hash bytes |
| KeyPacking.MatchesCorrectedIff | WIP-sqlite/benchmark/SQLiteSelectBlobIntPInvokeBenchmark.cs:107-112 | the corrected match accepts exactly the buffer that was inserted for this hash and length |
| KeyPacking.ScanRows | WIP-sqlite/benchmark/SQLiteSelectBlobIntBenchmark.cs:182-196 | finds a row exactly when some row matches, and then reports the first matching row's id |
| KeyPacking.LookupBlobInt | WIP-sqlite/benchmark/SQLiteSelectBlobIntBenchmark.cs:182-199 | succeeds, returning the entry id, exactly when the first matching row has that id; otherwise throws |
| KeyPacking.LookupCorrectedFinds | WIP-sqlite/benchmark/SQLiteSelectBlobIntPInvokeBenchmark.cs:107-112 | with the corrected match, an inserted row whose buffer is unique to its id is always found |
| KeyPacking.LookupAsWrittenRejectsPresentRow | WIP-sqlite/benchmark/SQLiteSelectBlobIntBenchmark.cs:182-199 | two rows sharing firsthash and length: as written the lookup for the second takes the first and throws; corrected, it finds the second |
| KeyPacking.HashString | WIP-sqlite/benchmark/SQLiteSelectHashIntColumnBenchmark.cs:118-128 | 32 alphanumeric characters, the i-th being the alphabet entry at byte i mod 62 |
| KeyPacking.HashStringAscii | WIP-sqlite/benchmark/SQLiteSelectHashIntColumnBenchmark.cs:118-129 | those strings are ASCII, so UTF-8 encodes each character as one byte |
| KeyPacking.SplitKeyRoundTrip | WIP-sqlite/benchmark/SQLiteSelectHashIntColumnBenchmark.cs:129-130 | for an ASCII string, hashint's bytes followed by hashrest give back the string |
| KeyPacking.SplitKeyInjective | WIP-sqlite/benchmark/SQLiteSelectHashIntColumnBenchmark.cs:129-130 | two ASCII strings have the same (hashint, hashrest) exactly when they are equal |
| KeyPacking.LookupHashInt | WIP-sqlite/benchmark/SQLiteSelectHashIntColumnBenchmark.cs:239-251 | succeeds exactly when some row has the entry's length and rest, and then returns the first such row's id; otherwise throws |
| KeyPacking.LookupHashIntFindsInserted | WIP-sqlite/benchmark/SQLiteSelectHashIntColumnBenchmark.cs:235-251 | an inserted entry, looked up with its recomputed key, is always found |
| Intersect.OriginalLinq | 24-10-28-5595-docompact/microbenchmark/Program.cs:64-69 | the result is never longer than `a` |
| Intersect.OriginalLinqCounts | 24-10-28-5595-docompact/microbenchmark/Program.cs:64-69 | each element occurs as often as in `a` when it is in `b`, and not at all otherwise |
| Intersect.OriginalLinqConcat | 24-10-28-5595-docompact/microbenchmark/Program.cs:64-69 | the filter keeps `a`'s order: filtering a concatenation concatenates the filtered parts |
| Intersect.ComposeLinq | 24-10-28-5595-docompact/microbenchmark/Program.cs:76-79 | every kept element is in `b` |
| Intersect.SetLinq | 24-10-28-5595-docompact/microbenchmark/Program.cs:81-91 | every kept element is in `b` (HashSet and FrozenSet alike) |
| Intersect.WhereIsOriginal | 24-10-28-5595-docompact/microbenchmark/Program.cs:64-91 | any `Where` whose predicate agrees with membership in `b` on `a` is the original query |
| Intersect.FiltersAgree | 24-10-28-5595-docompact/microbenchmark/Program.cs:76-91 | the composed query and the set-based queries return exactly the original list |
| Intersect.IntersectFrom | 24-10-28-5595-docompact/microbenchmark/Program.cs:71-74 | no duplicates; holds exactly the elements of `a` still in the set |
| Intersect.StdLinq | 24-10-28-5595-docompact/microbenchmark/Program.cs:71-74 | `Intersect` has no duplicates and holds exactly the elements in both lists |
| Intersect.StdLinqIsOriginal | 24-10-28-5595-docompact/microbenchmark/Program.cs:71-74 | `Intersect` equals the original query exactly when the original result has no duplicates |
| Intersect.StdLinqWhenDistinct | 24-10-28-5595-docompact/microbenchmark/Program.cs:71-74 | for duplicate-free `a`, `Intersect` equals the original query |
| Intersect.VerifyPassesFilters | 24-10-28-5595-docompact/microbenchmark/Program.cs:123-128 | `verify`'s count-and-containment checks hold for the composed and set-based queries |
| Intersect.VerifyStdIff | 24-10-28-5595-docompact/microbenchmark/Program.cs:121-122 | the check against `Intersect` holds exactly when the original result has no duplicates |
| Intersect.VerifyCheckAcceptsReordering | 24-10-28-5595-docompact/microbenchmark/Program.cs:115-136 | the check is weaker than equality: it accepts a reordered list |
| Intersect.OverlapElements | 24-10-28-5595-docompact/microbenchmark/Program.cs:50 | the C# `int` product wraps, so the count is always within ±`int.MaxValue / 100`; while `n * overlap` fits, it is between 0 and n for an overlap between 0 and 100 and never positive for a negative overlap |
| Intersect.OverlapWraps | 24-10-28-5595-docompact/microbenchmark/Program.cs:50 | 30,000,000 elements at overlap 100 wrap to a negative count, −12,949,672 |
| Intersect.ExtraCount | 24-10-28-5595-docompact/microbenchmark/Program.cs:51 | `n - overlap_elements` as a wrapping `int`, equal to the true difference whenever that fits |
| Intersect.ShufflePermutes | 24-10-28-5595-docompact/microbenchmark/Program.cs:51-54 | ordering by random keys permutes the list |
| Intersect.ShuffleCovers | 24-10-28-5595-docompact/microbenchmark/Program.cs:51-54 | every permutation comes from some random keys |
| Intersect.GenerateStringPair | 24-10-28-5595-docompact/microbenchmark/Program.cs:48-56 | throws exactly when the wrapped fresh count is negative, which, when `n - ov` fits in `int`, is when more elements are shared than `a` has; otherwise `b` is a permutation of the fresh strings and `a`'s first ov elements |
| Intersect.GenerateStringPairShape | 24-10-28-5595-docompact/microbenchmark/Program.cs:48-56 | for overlap 0..100 with n·overlap within `int`, `b` has exactly n elements and contains `a`'s first n·overlap/100 |
| Intersect.PairOverlap | 24-10-28-5595-docompact/microbenchmark/Program.cs:48-56 | with distinct strings, the query over the pair returns exactly `a`'s first ov elements |
| Intersect.TimingOf | 24-10-28-5595-docompact/microbenchmark/Program.cs:22-32 | keeps runs − 2·(runs/100) ≥ 1 samples, whose mean lies between their min and max, both samples |
| Intersect.TimeFunc | 24-10-28-5595-docompact/microbenchmark/Program.cs:4-35 | with at least one run, the same facts about the sorted and trimmed times |
| Intersect.TimeFuncOrderFree | 24-10-28-5595-docompact/microbenchmark/Program.cs:22-26 | the summary depends only on the multiset of times |
| Intersect.RunsFor | 24-10-28-5595-docompact/microbenchmark/Program.cs:157-169 | after trimming, the two slow variants keep 10 timings and the others 980 |
| Intersect.VariantsAgree | 24-10-28-5595-docompact/microbenchmark/Program.cs:64-91 | for duplicate-free `a`, all five variants return the original list |
| Intersect.GridIndex | 24-10-28-5595-docompact/microbenchmark/Program.cs:146-155 | the loop position (i, j, k) is entry 30(i−1) + 9(j−1) + (k−1): row i−1 of the grid, with size 10^j·k |
| Intersect.SizeAtIndex | 24-10-28-5595-docompact/microbenchmark/Program.cs:149-154 | the u-th size of a row is 10^j·k for j 1..3 with k 1..9, and j = 4 with k 1..3 |
| Intersect.RunGrid | 24-10-28-5595-docompact/microbenchmark/Program.cs:146-155 | the loops visit 300 configurations, the t-th having size SizeAt(t mod 30) and overlap 10·(t/30 + 1) |
| Intersect.SizeAtBounds | 24-10-28-5595-docompact/microbenchmark/Program.cs:149-154 | every size is between 10 and 30000 |
| Intersect.GridEntryBounds | 24-10-28-5595-docompact/microbenchmark/Program.cs:146-155 | n·overlap never overflows `int`, and the shared count is between 0 and n |
| Ints.Wrap32 | 25-03-24-5728-restore-rework/benchmark/runner/Program.cs:819 | an `int` congruent to the input modulo 2^32, equal to it when it fits |
| Ints.TruncRem | WIP-sqlite/benchmark/Program.cs:262 | C#'s `%`: dividend = quotient·divisor + remainder, with the remainder taking the dividend's sign |
| Ints.Int64RoundTrip | WIP-sqlite/benchmark/SQLiteSelectBlobBenchmark.cs:150-157 | `ToInt64(GetBytes(x))` = x |
| Ints.Int64BytesRoundTrip | WIP-sqlite/benchmark/SQLiteSelectBlobIntBenchmark.cs:113 | `GetBytes(ToInt64(b))` = b for any 8 bytes |
| Ints.Int64ToLEInjective | WIP-sqlite/benchmark/SQLiteSelectBlobIntBenchmark.cs:113-115 | different `long`s have different byte images |
| Text.IntParseDecimal | 25-03-24-5728-restore-rework/benchmark/runner/Program.cs:819 | `int.Parse` reads back the `ToString` of any `int` |
| Text.IntParseUnsigned | 25-03-24-5728-restore-rework/benchmark/runner/Program.cs:744 | on characters no lower than '0' (no sign, no white space), `int.Parse` succeeds exactly on a non-empty run of ASCII digits whose value fits in `int`, and returns that value |
| Text.IndexOf | 25-03-24-5728-restore-rework/benchmark/runner/Program.cs:739 | −1 exactly when the character is absent; otherwise its first position |
| Text.Contains | 25-03-24-5728-restore-rework/benchmark/runner/Program.cs:727 | true exactly when the text occurs at some position |
| Text.JoinSplit | 25-03-24-5728-restore-rework/benchmark/runner/Program.cs:637-667 | joining the parts of a split restores the string |
| Text.SplitJoin | 25-03-24-5728-restore-rework/benchmark/runner/Program.cs:637-667 | splitting a join of separator-free parts gives back the parts |
| Text.SplitCount | 25-03-24-5728-restore-rework/benchmark/runner/Program.cs:637-638 | a split has one more part than there are separators |
| Text.DigitsOfMembers | 25-03-24-5728-restore-rework/benchmark/runner/Program.cs:744 | the kept characters are exactly the token's characters that `char.IsDigit` accepts, the decimal digits of every script |
| Text.UnHexOf | WIP-sqlite/benchmark/SQLiteSelectBlobBenchmark.cs:146-149 | the "X2" rendering of bytes can be decoded back |
| Sorting.InsertionSort | WIP-sqlite/benchmark/index_and_schema/shared.hpp:96 | a sorted permutation of the input |
| Sorting.SortedUnique | WIP-sqlite/benchmark/Program.cs:353 | under a total order, two sorted permutations of the same elements are equal, so an unstable sort's result is determined |

## Left out

- Process launches, file I/O, Duplicati's backup and restore calls, CSV output, console messages and the command-line setup. The log a restore writes is the `Pipeline` input.
- All SQLite calls. Query results are given as rows in insertion order, and `ExecuteScalarInt64` is modelled as returning −1 when no row has the key.
- Random number generators, `Guid` shuffles and `Stopwatch`. Their outputs are input sequences.
- The PLINQ variants of the LINQ microbenchmark (lines 93-113 of its Program.cs) and the parallel benchmarks: they are concurrent, and their results equal those of the sequential variants.
- `time_func`'s standard deviation (a square root that divides by `runs - 1`), `report_stats`'s untrimmed average and kops figures, and the "hidden overhead" print: floating point only.
- `Stopwatch` ticks scaled to microseconds. Timings are integers in the model; only their order and counts matter to the facts stated.
- FrozenSet and HashSet are one set-based query (`SetLinq`): both test membership in the set of `b`.
- The remaining select benchmarks (full-hash, length-only, dictionary lookups) and the duplicated copies of the driver under `old/`: the same logic as modelled members.
- TuningSearch.RunTuning: bounded by `fuel`, so it can also end in `FuelExhausted`. `TuningSearch.SessionTerminates` rules that out when every starting count lies in [1, 2^30) and `2 * ProcessorCount` is at most 2^30. The source checks neither bound. Outside them, termination rests on `AutoTuningSteps` and the measurements, not on the cap (`TuningSearch.DoublingOutOfRange`).
- TuningSearch.RunTuning: states that the reported best was evaluated and the minimum measured; the full invariant (first attained minimum, plateau count) is `TuningSearch.SessionKeepsBest`.
- TuningLog.ParseGeneralDuration: only `d:h:m:s[.f]` tokens, the shape the log writes. The other forms `TimeSpan.Parse` accepts (no days, signs, culture separators) are rejected.
- TuningLog.ParseExactDuration: its own contract only says the result is non-negative; its format is stated by `TuningLog.ExactReadsFields` and `TuningLog.ExactOnlyFields`.
- SingleStepTuner.ClockMatchesMeans: stated only for two non-negative samples, the case in which the earlier report and the later means coincide.
- Intersect.OriginalLinq, Intersect.ComposeLinq, Intersect.SetLinq: their own contracts only bound the result; equality with the original query is stated by `Intersect.OriginalLinqCounts` and `Intersect.FiltersAgree`.
- BenchStats.AsWrittenDivisor, BenchStats.TrimmedMeanBounded: only the divisors 10 and 100 the program uses.
- BenchStats.Stoi: decimal only, with no base prefixes; `stoi`'s `std::invalid_argument` is `InvalidArgument`.
- Intersect.GenerateStringPair: `b`'s element order comes from the random keys and is stated as a permutation.
- Intersect.OverlapElements: the bound 0..n is promised only while `n * overlap` fits in `int`. Past that the product wraps as in C# (`Intersect.OverlapWraps`), and the count may be negative. The program's grid stays far below it (`Intersect.GridEntryBounds`).
- Intersect.GenerateStringPairShape: stated only while `n * overlap` fits in `int`. Past that a wrapped negative count gives `b` more than n elements.
- Ints.Wrap32: the doubling in the tuner wraps because C# `int` arithmetic is unchecked by default; a `checked` build would throw instead.
- The tuner's log: lines are given as whole strings. `StreamReader.ReadLine` line splitting and encodings are not modelled.
- SqliteBench.NamesOf: names keep the ASCII letters and digits of a token. `char.IsLetterOrDigit` also keeps the letters (and digits) of other scripts, such as 'é', so a parameter named with them loses those characters in the model. The Unicode letter categories are too large to tabulate here.
- Text: a Dafny `char` is a Unicode scalar value while a .NET `char` is a UTF-16 code unit. Lengths, `line[78..]` and indices agree only for text below U+10000; log lines and SQL text outside that range are not modelled.

## Findings

| source | as written | input that shows it | evidently intended | confidence | as-written member | corrected member |
|---|---|---|---|---|---|---|
| WIP-sqlite/benchmark/index_and_schema/shared.hpp:100-101 | the trimmed averages divide by `n - 2 * n / d`, which C++ evaluates as `n - (2 * n) / d`, while summing `n - 2 * (n / d)` samples | 50 equal samples with d = 100: 50 samples summed, divided by 49, so the 1-99 average exceeds every sample | divide by the number of samples summed, `n - 2 * (n / d)` | not executed | BenchStats.TrimmedMeanAsWrittenExceedsMax | BenchStats.TrimmedMeanBounded |
| WIP-sqlite/benchmark/SQLiteSelectBlobIntBenchmark.cs:188-190 | the 24 stored hash bytes are compared only when the stored length differs from the entry's, so a row with the same length matches whatever its hash | two entries whose hashes agree in the first 8 bytes (the queried `firsthash`) with equal lengths: looking up the second returns the first row and throws | match when the length is equal and the 24 bytes are equal, as the P/Invoke variant does at lines 107-112 | not executed | KeyPacking.LookupAsWrittenRejectsPresentRow | KeyPacking.LookupCorrectedFinds |
