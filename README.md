# Build-tool latency benchmark: a verified model of its driver

The benchmark driver (`build.performance.Main`) does three things.

1. It scans its command line into a configuration.
2. For each requested build tool (sbt, mill or gradle), it sets up a copy of a template project and starts the tool in watch mode.
3. It measures latency:
   - it rewrites one source file (`AkkaMain.scala`) with a fresh UUID;
   - it waits for the tool to touch a marker file `watch.out`;
   - it takes the difference of the two modification times as one latency sample.

It averages the samples, generates 5000 filler sources, and measures again.

This project models, in Dafny, the deterministic core of that driver:

| module | file | what it models |
|---|---|---|
| `Wrappers` | `wrappers.dfy` | `Option` and `Result` |
| `JavaInt` | `java_int.dfy` | Java `int` and `long`: two's-complement `+`, `-`, unary `-` and `/` written out; `Integer.toString` (`Decimal`); `Integer.valueOf` (`ParseInt`, with `None` for `NumberFormatException`) |
| `JavaString` | `java_string.dfy` | `String.split` on a single literal character, including the removal of trailing empty strings; repetition |
| `Args` | `args.dfy` | the argument loop of `main`, as a method over the argument sequence, proved equal to a prefix-recursive characterisation (`Scanned`) |
| `Dispatch` | `dispatch.dfy` | the prefix dispatch from project name to sbt, mill or gradle, and each kind's directories and watch command |
| `Sources` | `sources.dfy` | `srcDirectory`; the `Project` constructor's writes; `updateAkkaMain`; `generatedSource` (the `StringBuilder` loop); `genSources` (a loop writing into a file map); `getModifiedTimeOrZero` (`OrZero`) |
| `Sampler` | `sampler.dfy` | the measurement loop of `run`, over a finite sequence of observed samples |

Modelling choices:

- **File system.** It is a map from paths (sequences of segments) to contents. Directories are implicit.
- **Sampler input.** What the file system reports during one pass of `run` is one `Sample`. It holds:
  - the UUID written;
  - the modification time read back from the mutation target;
  - the marker's modification time, or `None` when it cannot be read.
- **Computing the samples.**
  - The latency of a pass is the marker time minus the mutation time, as a `long` subtraction.
  - `Positives` keeps the positive latencies.
  - `Counted` keeps those that arrive while the loop counter is not negative.
  - `Total` adds them up in `long` arithmetic.
- **Run's result.** `Sampler.Run` is the loop itself: it keeps the counter `i`, the running total and the rewritten file. When the samples run out before the loop is done, it returns `OutOfSamples`; the real driver retries forever. `iterations == 0` yields `DivisionByZero`, the uncaught `ArithmeticException` of the final division.
- **Scanner fallback.** Tokens that are neither flags nor recognised projects are not simply skipped: the code has a `key=value` fallback.
  - The fallback tests the key against `-s` and `--base-directory` first. So `--base-directory=X` sets the *source* directory, `-b=X` sets the base directory, and `--source-directory=X` does nothing. The model keeps this (`Args.KeyValue`, `Args.KeyValueForms`).
  - `split("=")` drops trailing empty strings, so `-b=X==` still assigns `X`.
- **Negative warmup.** A negative `warmupIterations` starts the counter above zero, so fewer than `iterations` passes are counted. `Sampler.NegativeWarmupCountsLess` shows the case `-w -1`. The lower bounds on the total (`TotalAtLeastIterations`, `CompletedRunAverage`) therefore require a non-negative warmup.

## Model

| member | source | states |
|---|---|---|
| Args.Scan | src/main/java/build/performance/Main.java:50-100 | the scanning loop returns exactly `Scanned(args)`: the first malformed `-i`/`-w` value aborts with `NumberFormat`; otherwise each field holds its last assignment (defaults 1 and 3), and the projects are the recognised names read while idle |
| Args.FirstBadNumberPrefix | src/main/java/build/performance/Main.java:68-75 | once a malformed number has been read, later tokens never change which token aborts the scan |
| Args.NoArguments | src/main/java/build/performance/Main.java:50-55 | no arguments give no directories, 1 iteration, 3 warmup iterations and no projects |
| Args.FlagTakesNextToken | src/main/java/build/performance/Main.java:59-84 | a flag read while idle takes the very next token as its value, whatever it is: a path is stored, a number is parsed or aborts the scan; the state is idle again and nothing else changes |
| Args.TrailingFlag | src/main/java/build/performance/Main.java:77-84 | a flag with nothing after it leaves the configuration unchanged and the scanner waiting |
| Args.ProjectToken | src/main/java/build/performance/Main.java:85-86 | a recognised project name read while idle is appended to the project list, duplicates kept, and nothing else changes |
| Args.OtherToken | src/main/java/build/performance/Main.java:87-97 | any other token read while idle changes only the directory its `key=value` form assigns, if any |
| Args.KeyValue | src/main/java/build/performance/Main.java:88-95 | a token assigns a directory only if it splits into exactly two parts. The second part is the value. The key `-s` or `--base-directory` means the source directory, only `-b` the base directory |
| Args.KeyValueForms | src/main/java/build/performance/Main.java:88-95 | `-s=X` and `--base-directory=X` set the source directory, `-b=X` the base directory, every other key is ignored; trailing `=` signs do not matter |
| Args.KeyValueShape | src/main/java/build/performance/Main.java:88-95 | conversely, a token assigns a directory only if it has the form key, `=`, non-empty value without `=`, more `=` signs; a base directory only with key `-b` |
| Args.ProjectsRecognised | src/main/java/build/performance/Main.java:41-47 | every project in the configuration is one of the four recognised names |
| Args.ProjectsWithoutFlags | src/main/java/build/performance/Main.java:85-86 | without flags the scanner stays idle and the project list is exactly the recognised names among the arguments, in order |
| Dispatch.Classify | src/main/java/build/performance/Main.java:103-111 | a name is accepted exactly when it starts with `sbt`, `mill` or `gradle`; otherwise the error carries the message `Cannot create a project from name <name>` |
| Dispatch.ClassifyByPrefix | src/main/java/build/performance/Main.java:103-108 | each kind is chosen exactly when the name has that kind's prefix |
| Dispatch.ProjectLayout | src/main/java/build/performance/Main.java:126-147 | a layout exists exactly for accepted names. The output directory is the template directory in the workspace. Template and source root are the name and the output directory for sbt and gradle, `mill` and `mill/AkkaTest` for mill. The commands are `sbt ~test`, `mill -w AkkaTest.test` and `gradle -t spec` |
| Dispatch.SharedOutputDirectory | src/main/java/build/performance/Main.java:126-147 | two accepted names share an output directory exactly when they are equal or both mill names; every mutation target lies inside its project's output directory |
| Dispatch.RecognisedKinds | src/main/java/build/performance/Main.java:42-46 | the two sbt versions are sbt, the mill version is mill, the gradle version is gradle |
| Dispatch.ScannedProjectsDispatch | src/main/java/build/performance/Main.java:101-111 | the dispatch never throws for a project list the scanner produced |
| JavaInt.ParseInt | src/main/java/build/performance/Main.java:69 | `Integer.valueOf` succeeds exactly on an optional `-` or `+` followed by at least one decimal digit whose value lies in the `int` range, and then returns that value |
| JavaInt.ParseIntCanonical | src/main/java/build/performance/Main.java:69 | conversely, an accepted string is the decimal form of its value up to a `+` sign, leading zeros and a `-` before zero; a negative value always has the `-` |
| JavaInt.ParseDecimal | src/main/java/build/performance/Main.java:73 | parsing the decimal form of `n` gives back `n` exactly when `n` is an `int` |
| JavaInt.Decimal | src/main/java/build/performance/Main.java:291 | the decimal form of an `int` in string concatenation starts with `-` exactly for negative numbers, and the rest is the magnitude's digits without leading zeros |
| JavaInt.DecimalInjective | src/main/java/build/performance/Main.java:291 | different numbers have different decimal forms |
| JavaInt.Wrap32 | src/main/java/build/performance/Main.java:167 | 32-bit wrap-around leaves every `int` value unchanged |
| JavaInt.Wrap64 | src/main/java/build/performance/Main.java:175 | 64-bit wrap-around leaves every `long` value unchanged |
| JavaInt.AddInt | src/main/java/build/performance/Main.java:167 | `int` addition is exact when the sum fits |
| JavaInt.AddIntWraps | src/main/java/build/performance/Main.java:167 | `int` addition is the mathematical sum wrapped to 32 bits |
| JavaInt.NegInt | src/main/java/build/performance/Main.java:167 | `-warmupIterations` is exact except at `Integer.MIN_VALUE` |
| JavaInt.NegIntWraps | src/main/java/build/performance/Main.java:167 | `int` negation is the negated value wrapped to 32 bits |
| JavaInt.DecrementIncrement | src/main/java/build/performance/Main.java:177 | `i -= 1` followed by `++i` gives `i` back, also at `Integer.MIN_VALUE` |
| JavaInt.AddLong | src/main/java/build/performance/Main.java:175 | `long` addition is exact when the sum fits |
| JavaInt.AddLongWraps | src/main/java/build/performance/Main.java:175 | `long` addition is the mathematical sum wrapped to 64 bits |
| JavaInt.WrapAdd64 | src/main/java/build/performance/Main.java:175 | wrapping after every addition equals wrapping the whole sum once |
| JavaInt.SubLong | src/main/java/build/performance/Main.java:172 | `long` subtraction is exact when the difference fits |
| JavaInt.SubLongWraps | src/main/java/build/performance/Main.java:172 | `long` subtraction is the mathematical difference wrapped to 64 bits |
| JavaInt.JavaDiv | src/main/java/build/performance/Main.java:181 | a positive quotient has operands of equal sign |
| JavaInt.JavaDivTruncates | src/main/java/build/performance/Main.java:181 | rounding toward zero: the quotient's magnitude is the largest `q` with `q * abs(b) <= abs(a)`, and a non-zero quotient is negative exactly when the signs differ |
| JavaInt.JavaDivBounds | src/main/java/build/performance/Main.java:181 | for a non-negative dividend and a positive divisor, the quotient is the largest `q` with `q * b <= a` |
| JavaInt.DivLong | src/main/java/build/performance/Main.java:181 | `long` division is the truncated quotient except for `Long.MIN_VALUE / -1` |
| JavaInt.DivLongWraps | src/main/java/build/performance/Main.java:181 | `long` division is the truncated quotient wrapped to 64 bits |
| JavaString.Split | src/main/java/build/performance/Main.java:88 | a token without the separator splits into itself alone; otherwise the last piece returned is never empty |
| JavaString.JoinSplitOn | src/main/java/build/performance/Main.java:88 | joining the pieces of a split with the separator gives the token back, and no piece contains the separator |
| JavaString.SplitKeyValue | src/main/java/build/performance/Main.java:88 | `k=v` followed by any number of separators splits into exactly `[k, v]` |
| JavaString.SplitTwoParts | src/main/java/build/performance/Main.java:88-89 | a split into exactly two parts means the token is part, separator, non-empty part, then only separators |
| Sources.SrcDirectory | src/main/java/build/performance/Main.java:37-39 | the source directory of a configuration has five segments, starts with `src` and names the configuration second, so `main` and `test` never coincide |
| Sources.OrZero | src/main/java/build/performance/Main.java:437-442 | a readable modification time is returned as it is, an unreadable one as 0 |
| Sources.UpdateAkkaMain | src/main/java/build/performance/Main.java:257-261 | after the update the mutation target exists and starts with its original content |
| Sources.NewProject | src/main/java/build/performance/Main.java:264-285 | the constructor writes the mutation target and the test driver under `src/main/...` and `src/test/...` of the source root, and leaves every other file alone |
| Sources.UpdateAkkaMainEffect | src/main/java/build/performance/Main.java:257-261 | the update writes the original content plus a newline, `//` and the tag, touches no other file, and returns the modification time read back, or 0 |
| Sources.AkkaMainKeepsOriginal | src/main/java/build/performance/Main.java:258-259 | the original content is a prefix of the rewritten file, the tag can be read back, and different tags give different files |
| Sources.UpdatesReplaceTag | src/main/java/build/performance/Main.java:257-261 | a second update replaces the first tag instead of adding to it |
| Sources.FillerBlock | src/main/java/build/performance/Main.java:312-315 | the 75 filler lines take 75 × 69 characters |
| Sources.GeneratedSource | src/main/java/build/performance/Main.java:306-317 | the `StringBuilder` loop yields the header, the decimal counter and then 75 copies of the comment line, without separators |
| Sources.ClassHeaderText | src/main/java/build/performance/Main.java:308-311 | the generated header is `package sbt.benchmark.blah`, two newlines and `class Blah`: 38 characters |
| Sources.SourceTextShape | src/main/java/build/performance/Main.java:306-317 | a generated source starts with the header and has a length fixed by its counter; its counter can be parsed back from it |
| Sources.SourceTextInjective | src/main/java/build/performance/Main.java:311 | different counters give different generated sources |
| Sources.BlahPathInjective | src/main/java/build/performance/Main.java:291 | different counters give different file names `Blah<i>.scala` |
| Sources.GeneratedOnly | src/main/java/build/performance/Main.java:290-292 | every generated file is `Blah<i>.scala` for some `1 <= i <= count` |
| Sources.GeneratedAt | src/main/java/build/performance/Main.java:290-292 | for every `1 <= i <= count`, `Blah<i>.scala` exists and holds `generatedSource(i)`; no later file overwrites it |
| Sources.GeneratedFresh | src/main/java/build/performance/Main.java:290-292 | each next file is a new path |
| Sources.GeneratedFilesCount | src/main/java/build/performance/Main.java:290-292 | `genSources(count)` writes exactly `count` distinct files |
| Sources.GeneratedSparesProject | src/main/java/build/performance/Main.java:288-291 | generated files lie in `src/main/scala/sbt/benchmark/blah`, never at the mutation target or the test driver |
| Sources.WriteNext | src/main/java/build/performance/Main.java:291 | writing the next file over the files before equals generating one more |
| Sources.Overwrite | src/main/java/build/performance/Main.java:290-292 | after generation each numbered file holds its text, the paths are the old ones plus the generated ones, and every other file keeps its content |
| Sources.GenSources | src/main/java/build/performance/Main.java:287-293 | the loop leaves the old files overlaid with exactly the generated ones: each `Blah<i>.scala` holds `generatedSource(i)`, no other path changes, and `count <= 0` writes nothing |
| Sources.GenSourcesIdempotent | src/main/java/build/performance/Main.java:287-293 | generating the same sources again changes nothing |
| Sampler.Elapsed | src/main/java/build/performance/Main.java:171-172 | with both times read and no overflow, the latency is the marker's time minus the mutation's; with no marker and a non-negative mutation time it is not positive |
| Sampler.Average | src/main/java/build/performance/Main.java:181 | the average fails exactly when `iterations == 0`, with a division by zero |
| Sampler.Run | src/main/java/build/performance/Main.java:164-181 | the loop consumes samples until it has `Needed(iterations, warmupIterations)` positive latencies, and never stops earlier. It returns `OutOfSamples` exactly when the samples hold fewer. Otherwise it reports the `long` total of the counted latencies and the quotient. The mutation target ends with the last tag written |
| Sampler.Pass | src/main/java/build/performance/Main.java:169-178 | one pass: a positive latency adds one to the positives and, with a counter that is not negative, is added to the total; a non-positive one changes neither |
| Sampler.Minimal | src/main/java/build/performance/Main.java:167 | if the passes before the last had too few positives, so had every shorter prefix |
| Sampler.Finished | src/main/java/build/performance/Main.java:167 | when the counter reaches `iterations`, the passes consumed hold exactly the positives needed |
| Sampler.TotalIsWrappedSum | src/main/java/build/performance/Main.java:175 | the running `long` total equals the sum of the counted latencies, wrapped once |
| Sampler.CountedSuffix | src/main/java/build/performance/Main.java:173-175 | the counted latencies are the positive ones after those that arrived while the counter was negative |
| Sampler.CountedLength | src/main/java/build/performance/Main.java:167-175 | with non-negative counts a completed run needs `warmupIterations + iterations` positives and counts exactly the last `iterations` of them |
| Sampler.TotalAtLeastIterations | src/main/java/build/performance/Main.java:164-178 | the total of a completed run is at least `iterations` |
| Sampler.AverageAtLeastOne | src/main/java/build/performance/Main.java:181 | with `0 < iterations <= total` the average is at least 1 and is the truncated quotient |
| Sampler.CompletedRunAverage | src/main/java/build/performance/Main.java:164-181 | a completed run with at least one iteration reports a total of at least `iterations` and an average of at least 1 |
| Sampler.NegativeWarmupCountsLess | src/main/java/build/performance/Main.java:167 | with `-w -1` and one iteration nothing is needed and the total and average are 0 |
| Sampler.MissingMarkerRetried | src/main/java/build/performance/Main.java:437-442 | an unreadable marker counts as time 0, so with a non-negative mutation time the pass is not positive and adds no positive latency |
| Sampler.NeverTouched | src/main/java/build/performance/Main.java:171-177 | if the marker is never written, no pass is positive |
| Sampler.FiftyMillisecondLatency | src/main/java/build/performance/Main.java:171-172 | a marker written 50 ms after the mutation yields the latency 50 |
| Sampler.FiftyMilliseconds | src/main/java/build/performance/Main.java:164-181 | one iteration, no warmup and a marker 50 ms after the mutation give a total and an average of 50 |

## Left out

- `ForkProcess` (threads reading the tool's output, process kill), `runTool` and `ProcessBuilder`: concurrency and process control. `Dispatch.ProjectLayout` only records the command line.
- The path watcher, its observer, and the queue's `clear` and timed `poll` waits: a foreign library plus thread hand-off. They are replaced by the sequence of samples.
- `setupProject` and `loadSourceFile`: class-loader resource lookup, JAR file systems and tree copying. The template name is recorded; the two source contents are parameters of `NewProject`.
- `TempDirectory` and its recursive deletion: file-system clean-up that tolerates concurrent modification.
- `UUID.randomUUID`, `Files.getLastModifiedTime` (the clock) and `Thread.sleep`: parameters (`tag`, the sample's times) or omitted.
- All printing to standard output and standard error.
- `IOException` and `InterruptedException` from the file system or the waits: `run` logs them and returns, which the model does not represent.
- Byte encoding by `getBytes`: contents are kept as strings.
- Path normalisation and `InvalidPathException` from `Paths.get`: paths are kept as the token strings or segment sequences.
- Directory creation: directories are implicit in the file map.
- The loop in `main` over the scanned projects, which runs, generates 5000 sources and runs again: modelled only as its parts, `Dispatch.ProjectLayout`, `Sampler.Run` and `Sources.GenSources`.
- Sampler.Run: returns `OutOfSamples` when the samples are used up. The Java loop would wait for more forever.
- GenSources: requires `count < Integer.MAX_VALUE`. At `MAX_VALUE` the Java counter `i <= count` wraps and the loop never ends; the only caller passes 5000.
- ParseInt: accepts ASCII digits only. Java's `Integer.valueOf` also accepts other Unicode decimal digits.
- TotalAtLeastIterations: requires a non-negative warmup count and a sum of counted latencies that fits in a `long`. With a negative warmup the claim is false (`NegativeWarmupCountsLess`), and a `long` overflow is not considered.
- CompletedRunAverage: assumes the same non-negative warmup and no `long` overflow as `TotalAtLeastIterations`.
