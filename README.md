# Benchmark argument schedule of the xtensor micro-benchmarks

The benchmark suite registers each benchmark for a range of problem sizes through
`CustomArguments(b, start, end, threshold1, threshold2)`. The function runs three counter
loops and hands each counter to `b->Arg(i)`:

1. a linear phase from `start`, step `linear_increment_1`, while `i < threshold1 && i <= end`;
2. a linear phase from `threshold1`, step `linear_increment_2`, while `i <= threshold2 && i <= end`;
3. a geometric phase from `threshold2 * 2`, factor `exponential_increment`, while `i <= end`.

The header defines it with steps chosen at compile time: complete mode uses 1, 16 and ×2,
fast mode uses 1, 16 and ×4. The `.cpp` file defines it a second time with the literals 1, 16
and ×2. This project models both definitions and the size ranges the benchmarks pass to them.

Files:

- `cint.dfy` (module `CInt`): the C++ `int` as the newtype `int32`. All counter arithmetic in
  the methods is on `int32`, so every `+=` and `*=` must be proved free of signed overflow.
- `schedule.dfy` (module `ArgSchedule`): what each loop appends (`Linear`, `Geometric`), the
  counter's value when each loop stops (`LinearExit`, `GeometricExit`), the three phases and
  the whole schedule (`Schedule`), the exact no-overflow and termination conditions
  (`NoOverflow`, `Stops`), and the lemmas about them.
- `registry.dfy` (module `Registry`): the benchmark object. Its only state is the list of size
  arguments, and `Arg(x)` appends `x` to it.
- `benchmark_utils_hpp.dfy` (module `BenchmarkUtilsHpp`): the compile-time mode as a `Mode`
  value, the three step constants, the header `CustomArguments` as a method with three
  `while` loops, the range constants of both modes and of the 2-D benchmarks, and the exact
  schedules they produce.
- `benchmark_utils_cpp.dfy` (module `BenchmarkUtilsCpp`): the `.cpp` `CustomArguments` and
  its relation to the header version.

Each method is specified by `b.args == old(b.args) + <schedule function>`. Its loop
invariants say that what is already appended, followed by what the rest of the loop will
append, is the whole phase.

Two preconditions come from the code itself. Neither definition checks them.

- `Stops(end, threshold2)`: phase 3 ends only if `2 * threshold2 > end` or `2 * threshold2 > 0`.
  Otherwise the counter `from` satisfies `from <= 0` and `from <= end`, and on unbounded
  integers `from * k^n <= from <= end` for every n (`GeometricNeverStops`). On a C++ `int` this
  means two different things. A start of 0 stays 0 and loops forever. A negative start leaves
  the range of `int` by the 32nd multiplication, which is undefined signed overflow
  (`NegativeStartOverflows`). The model excludes both cases.
- `NoOverflow(...)`: three values must fit in `int`: `2 * threshold2`, and the two counter
  values that make the guards of phases 2 and 3 fail. The condition is sufficient: both
  methods verify under it with every counter operation checked. It is also necessary: each
  of those exit values is computed by the loop itself, as the start value or as the last
  appended value plus 16 or times k (`LinearExitComputed`, `GeometricExitComputed`). Phase 1
  can never overflow, because its counter is below `threshold1` before each increment by 1.
  `NoOverflowFromBounds` gives simpler sufficient bounds: `end`, `threshold1` and
  `2 * threshold2` fit, and so do `min(threshold2, end) + 16` and `end * k`.

Notes on the code:

- The comment on phase 3 (`benchmark/benchmark_utils.hpp:36`) says "powers of 2", but fast
  mode multiplies by 4 (`benchmark/benchmark_utils.hpp:17`). The sizes are still
  `2 * threshold2` times a power of two, but fast mode keeps only every other one of
  complete mode's sizes (`FastPhase3SkipsAlternateSizes`).
- `benchmark/benchmark_utils.cpp` includes the header, so that file holds two definitions of
  the same function with the same signature, which C++ rejects as a redefinition. The model
  treats the `.cpp` body as if it were compiled on its own. Read that way, it agrees with the
  header only in complete mode (`MatchesCompleteMode`). On the fast-mode range its text would
  register 64, 128, 256, 512, 1024 instead of 64, 256, 1024 (`DiffersFromFastMode`).
- If `threshold1 > 2 * threshold2`, phase 3 can repeat a size from phase 1
  (`ThresholdsOutOfOrderRepeat`). None of the configured ranges does this.

## Model

The table lists the members that carry contracts. The reference definitions they are stated
against (`Linear`, `Geometric`, `Schedule`, `Stops`, `NoOverflow`, and the range constants
`Config` for `benchmark/benchmark_utils.hpp:45-56` and `Config2D` for
`benchmark/benchmark_utils.hpp:60-63`) have no contract of their own. What they compute is
stated by the lemmas about them.

| member | source | states |
|---|---|---|
| `Registry.Benchmark.Arg` | benchmark/benchmark_utils.hpp:29 | registering a size appends it to the benchmark's list of arguments, and nothing else changes |
| `BenchmarkUtilsHpp.LinearIncrement1` | benchmark/benchmark_utils.hpp:10-18 | the phase-1 step is positive in both modes, so phase 1 advances |
| `BenchmarkUtilsHpp.LinearIncrement2` | benchmark/benchmark_utils.hpp:10-18 | the phase-2 step is positive in both modes, so phase 2 advances |
| `BenchmarkUtilsHpp.ExponentialIncrement` | benchmark/benchmark_utils.hpp:10-18 | the phase-3 factor is at least 2 in both modes, so a positive counter grows |
| `BenchmarkUtilsHpp.CustomArguments` | benchmark/benchmark_utils.hpp:20-41 | given termination and no overflow, the benchmark's arguments grow by exactly the three phases for the mode's steps, with every counter operation free of `int` overflow |
| `BenchmarkUtilsCpp.CustomArguments` | benchmark/benchmark_utils.cpp:4-24 | the same, with steps 1, 16 and ×2 hard-coded |
| `ArgSchedule.LinearAt` | benchmark/benchmark_utils.hpp:27-35 | the j-th value a linear phase appends is `from + j*step` |
| `ArgSchedule.LinearLength` | benchmark/benchmark_utils.hpp:32-35 | a linear phase appends `(limit - from) / step + 1` values, or none if `from > limit` |
| `ArgSchedule.LinearClosedForm` | benchmark/benchmark_utils.hpp:27-35 | a linear phase is exactly the arithmetic progression from `from` with the given step |
| `ArgSchedule.LinearIncreasing` | benchmark/benchmark_utils.hpp:27-35 | every value of a linear phase lies in `[from, limit]`, and the phase strictly increases |
| `ArgSchedule.LinearExitAfter` | benchmark/benchmark_utils.hpp:32 | the counter stops at `from + count*step`, which is above the limit, not below `from`, and at most one step past the limit |
| `ArgSchedule.GeometricStep` | benchmark/benchmark_utils.hpp:37-40 | one pass of the geometric loop: the counter grows, the loop still terminates, the value heads the rest of the phase, and the next counter does not exceed the exit value |
| `ArgSchedule.GeometricAt` | benchmark/benchmark_utils.hpp:37-40 | the n-th value of the geometric phase is `from * k^n` |
| `ArgSchedule.GeometricIncreasing` | benchmark/benchmark_utils.hpp:37-40 | every value of the geometric phase lies in `[from, end]`, the phase strictly increases, and it appends something only from a positive start |
| `ArgSchedule.GeometricExitAfter` | benchmark/benchmark_utils.hpp:37 | the counter stops at `from * k^count`, the first such value above `end` |
| `ArgSchedule.GeometricExitBound` | benchmark/benchmark_utils.hpp:37 | when phase 3 runs at all, its exit counter is at most `end * k` |
| `ArgSchedule.GeometricNeverStops` | benchmark/benchmark_utils.cpp:21 | on unbounded integers, from a non-positive start not above `end`, the guard `i <= end` holds after any number n of multiplications, because `from * k^n <= from <= end`; on `int` this is an endless loop only from 0 |
| `ArgSchedule.NegativeStartOverflows` | benchmark/benchmark_utils.cpp:21 | from a negative start, `from * k^32` is below the smallest `int`, so the loop ends in signed overflow rather than looping forever |
| `ArgSchedule.LinearExitComputed` | benchmark/benchmark_utils.hpp:32 | the exit counter of a linear loop is the start value or the last appended value plus one step, a value the loop computes, so requiring it to fit is necessary |
| `ArgSchedule.GeometricExitComputed` | benchmark/benchmark_utils.hpp:37 | the exit counter of the geometric loop is the start value or the last appended value times k, a value the loop computes, so requiring it to fit is necessary |
| `ArgSchedule.GeometricEveryOther` | benchmark/benchmark_utils.hpp:37-40 | multiplying by 4 visits exactly the even-indexed values that multiplying by 2 visits, half as many rounded up |
| `ArgSchedule.NoOverflowFromBounds` | benchmark/benchmark_utils.hpp:32-40 | if `end`, `threshold1` and `2*threshold2` fit in `int`, and so do `min(threshold2, end) + step2` and `end * k`, no counter overflows |
| `ArgSchedule.PhaseBounds` | benchmark/benchmark_utils.hpp:27-40 | phase 1 values are in `[start, threshold1)`, phase 2 values in `[threshold1, threshold2]`, phase 3 values are at least `2*threshold2`, and all are at most `end` |
| `ArgSchedule.ScheduleAtMostEnd` | benchmark/benchmark_utils.cpp:12-23 | no registered size exceeds `end` |
| `ArgSchedule.Phase1Count` | benchmark/benchmark_utils.cpp:13-15 | phase 1 appends `max(0, min(threshold1-1, end) - start + 1)` values, and none exactly when `start >= threshold1` or `start > end` |
| `ArgSchedule.Phase2Count` | benchmark/benchmark_utils.cpp:17-19 | phase 2 appends `(min(threshold2, end) - threshold1) / step + 1` values, and none exactly when `threshold1 > threshold2` or `threshold1 > end` |
| `ArgSchedule.ScheduleIncreasing` | benchmark/benchmark_utils.hpp:27-40 | with `threshold2 > 0` and `threshold1 <= 2*threshold2`, the whole schedule strictly increases and holds no size twice |
| `BenchmarkUtilsHpp.FastConfigArguments` | benchmark/benchmark_utils.hpp:52-55 | the fast-mode range is admissible, phases 1 and 2 are empty, and the sizes are exactly 64, 256, 1024 |
| `BenchmarkUtilsHpp.CompleteConfigArguments` | benchmark/benchmark_utils.hpp:46-49 | the complete-mode range is admissible and gives 127 strictly increasing sizes: 1..63, then 64, 80, ..., 1024, then 2048, 4096, 8192 |
| `BenchmarkUtilsHpp.Config2DArguments` | benchmark/benchmark_utils.hpp:60-63 | in both modes the 2-D range is admissible and gives exactly 1..7, 8, 24, 64 |
| `BenchmarkUtilsHpp.ThresholdsOutOfOrderRepeat` | benchmark/benchmark_utils.hpp:27-40 | when `threshold1 > 2*threshold2` a size can be registered twice: (0, 10, 5, 2) gives 0, 1, 2, 3, 4, 4, 8 |
| `BenchmarkUtilsHpp.FastPhase3SkipsAlternateSizes` | benchmark/benchmark_utils.hpp:36-37 | fast-mode phase 3 registers every other size of complete-mode phase 3, starting with the first |
| `BenchmarkUtilsCpp.MatchesCompleteMode` | benchmark/benchmark_utils.cpp:12-23 | for all inputs, the `.cpp` schedule and its overflow condition equal those of the header in complete mode |
| `BenchmarkUtilsCpp.DiffersFromFastMode` | benchmark/benchmark_utils.cpp:21 | on the fast-mode range the `.cpp` version registers 64, 128, 256, 512, 1024, which differs from fast mode |

## Left out

- The benchmark bodies (`BENCHMARK*` in the other benchmark files) and the array, view and
  expression engine they measure. That engine lives in xtensor headers that are not part of
  this model.
- The floating-point arithmetic of the benchmark bodies.
- The benchmark library beyond `Arg`: timing, `State`, `DoNotOptimize`, `ClobberMemory`. The
  `Benchmark*` argument `b` is modelled as a non-null object. The 64-bit width of `Arg`'s parameter
  does not matter, because every argument comes from an `int`.
- The `#ifdef BENCHMARK_COMPLETE_MODE` selection itself. It becomes the `Mode` parameter, and
  the range constants become `Config(mode)` and `Config2D`.
- The commented-out constants at `benchmark/benchmark_utils.cpp:27-37`, which are not
  compiled.
- The redefinition error: `benchmark/benchmark_utils.cpp` includes the header, so the file
  holds two definitions of the same function, which C++ rejects. The model treats the `.cpp`
  body as if compiled on its own, as a second method in its own module.
- `navtreedata.js`: generated documentation navigation data with no logic.
- BenchmarkUtilsHpp.CustomArguments: requires `Stops` and `NoOverflow`, which the C++ function
  does not check. Without them it loops forever or hits undefined signed overflow, and the
  model does not describe that behaviour.
- BenchmarkUtilsCpp.CustomArguments: requires `Stops` and `NoOverflow` for the same reason.
