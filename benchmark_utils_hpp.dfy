/** The header version of `CustomArguments` and the size ranges the benchmarks pass to it.

    Two configurations are chosen at compile time: complete mode (every size, for fine
    measurements) and fast mode (a few sizes, readable in a terminal). Here the choice is
    an explicit `Mode` argument. */
module BenchmarkUtilsHpp {
  import opened CInt
  import opened ArgSchedule
  import opened Registry

  datatype Mode = Complete | Fast

  /** Step of phase 1. Positive in both modes, so phase 1 advances. */
  function LinearIncrement1(mode: Mode): (r: int)
    ensures r > 0
  {
    match mode
    case Complete => 1
    case Fast => 1
  }

  /** Step of phase 2. Positive in both modes, so phase 2 advances. */
  function LinearIncrement2(mode: Mode): (r: int)
    ensures r > 0
  {
    match mode
    case Complete => 16
    case Fast => 16
  }

  /** Factor of phase 3: 2 in complete mode, 4 in fast mode. At least 2, so a positive
      counter grows at each step. */
  function ExponentialIncrement(mode: Mode): (r: int)
    ensures r >= 2
  {
    match mode
    case Complete => 2
    case Fast => 4
  }

  /** The sizes the header version registers in the given mode. */
  function Arguments(mode: Mode, start: int, end: int, threshold1: int, threshold2: int): (r: seq<int>)
    requires Stops(end, threshold2)
  {
    Schedule(start, end, threshold1, threshold2,
             LinearIncrement1(mode), LinearIncrement2(mode), ExponentialIncrement(mode))
  }

  /** Registers on `b` the sizes of the three phases: step `LinearIncrement1` below
      `threshold1`, step `LinearIncrement2` up to `threshold2`, then multiplication by
      `ExponentialIncrement` from `2 * threshold2`; every size is at most `end`.
      The caller must ensure that phase 3 terminates and that no counter overflows. */
  method CustomArguments(b: Benchmark, mode: Mode,
                         start: int32, end: int32, threshold1: int32, threshold2: int32)
    requires Stops(end as int, threshold2 as int)
    requires NoOverflow(end as int, threshold1 as int, threshold2 as int,
                        LinearIncrement2(mode), ExponentialIncrement(mode))
    modifies b
    ensures b.args == old(b.args) + Arguments(mode, start as int, end as int,
                                              threshold1 as int, threshold2 as int)
  {
    var inc1, inc2, factor := LinearIncrement1(mode) as int32, LinearIncrement2(mode) as int32,
                              ExponentialIncrement(mode) as int32;
    ghost var s1, s2, k := inc1 as int, inc2 as int, factor as int;
    ghost var limit1 := Min(threshold1 as int - 1, end as int);
    ghost var limit2 := Min(threshold2 as int, end as int);
    ghost var p1 := Phase1(start as int, end as int, threshold1 as int, s1);
    ghost var p2 := Phase2(end as int, threshold1 as int, threshold2 as int, s2);
    ghost var p3 := Phase3(end as int, threshold2 as int, k);
    ghost var all := p1 + p2 + p3;
    assert all == Arguments(mode, start as int, end as int, threshold1 as int, threshold2 as int);

    // Phase 1: step linear_increment_1
    ghost var before := b.args;
    var i := start;
    while i < threshold1 && i <= end
      invariant before + p1 == b.args + Linear(i as int, limit1, s1)
      decreases limit1 - i as int
    {
      Assoc(b.args, [i as int], Linear(i as int + s1, limit1, s1));
      b.Arg(i as int);
      i := i + inc1;
    }
    ghost var after1 := b.args;
    assert after1 == before + p1;

    // Phase 2: step linear_increment_2
    i := threshold1;
    while i <= threshold2 && i <= end
      invariant after1 + p2 == b.args + Linear(i as int, limit2, s2)
      invariant LinearExit(i as int, limit2, s2) == LinearExit(threshold1 as int, limit2, s2)
      decreases limit2 - i as int
    {
      Assoc(b.args, [i as int], Linear(i as int + s2, limit2, s2));
      b.Arg(i as int);
      LinearExitAfter(i as int + s2, limit2, s2);
      i := i + inc2;
    }
    ghost var after2 := b.args;
    assert after2 == after1 + p2;
    Assoc(before, p1, p2);

    // Phase 3: factor exponential_increment
    i := threshold2 * 2;
    while i <= end
      invariant GeometricStops(i as int, end as int)
      invariant after2 + p3 == b.args + Geometric(i as int, end as int, k)
      invariant GeometricExit(i as int, end as int, k) == GeometricExit(2 * threshold2 as int, end as int, k)
      decreases end as int - i as int
    {
      GeometricStep(i as int, end as int, k);
      Assoc(b.args, [i as int], Geometric(i as int * k, end as int, k));
      b.Arg(i as int);
      i := i * factor;
    }
    assert b.args == after2 + p3;
    Assoc(before, p1 + p2, p3);
  }

  /** The range passed as (start, end, threshold1, threshold2). */
  datatype Range = Range(min: int, max: int, threshold1: int, threshold2: int)

  /** `min`, `max`, `threshold1`, `threshold2` of each mode. */
  function Config(mode: Mode): (r: Range) {
    match mode
    case Complete => Range(1, 1024 * 8, 64, 1024)
    case Fast => Range(64, 1024, 64, 32)
  }

  /** `min_2d`, `max_2d`, `threshold1_2d`, `threshold2_2d`, the same in both modes. */
  const Config2D: Range := Range(1, 100, 8, 32)

  /** Whether a range can be passed to CustomArguments in the given mode. */
  predicate Admissible(mode: Mode, c: Range) {
    Fits(c.min) && Fits(c.max) && Fits(c.threshold1) && Fits(c.threshold2)
    && Stops(c.max, c.threshold2)
    && NoOverflow(c.max, c.threshold1, c.threshold2,
                  LinearIncrement2(mode), ExponentialIncrement(mode))
  }

  /** In fast mode the benchmarks register exactly 64, 256 and 1024: phases 1 and 2 are
      empty because start = threshold1 and threshold1 > threshold2. */
  lemma FastConfigArguments()
    ensures Admissible(Fast, Config(Fast))
    ensures Phase1(64, 1024, 64, LinearIncrement1(Fast)) == []
    ensures Phase2(1024, 64, 32, LinearIncrement2(Fast)) == []
    ensures var c := Config(Fast);
            Arguments(Fast, c.min, c.max, c.threshold1, c.threshold2) == [64, 256, 1024]
  {
  }

  /** In complete mode the benchmarks register 1, ..., 63, then 64, 80, ..., 1024, then
      2048, 4096, 8192: 127 sizes in strictly increasing order. */
  lemma CompleteConfigArguments()
    ensures Admissible(Complete, Config(Complete))
    ensures var c := Config(Complete);
            var r := Arguments(Complete, c.min, c.max, c.threshold1, c.threshold2);
            |r| == 127
            && (forall j :: 0 <= j < 63 ==> r[j] == j + 1)
            && (forall j :: 0 <= j < 61 ==> r[63 + j] == 64 + 16 * j)
            && r[124..] == [2048, 4096, 8192]
            && StrictlyIncreasing(r)
  {
    var p1 := Phase1(1, 8192, 64, 1);
    var p2 := Phase2(8192, 64, 1024, 16);
    var p3 := Phase3(8192, 1024, 2);
    LinearLength(1, 63, 1);
    LinearLength(64, 1024, 16);
    LinearClosedForm(1, 63, 1);
    LinearClosedForm(64, 1024, 16);
    assert p3 == [2048, 4096, 8192] by {
      assert Geometric(2048, 8192, 2) == [2048] + Geometric(4096, 8192, 2);
      assert Geometric(4096, 8192, 2) == [4096] + Geometric(8192, 8192, 2);
      assert Geometric(8192, 8192, 2) == [8192] + Geometric(16384, 8192, 2);
    }
    var r := Arguments(Complete, 1, 8192, 64, 1024);
    assert r == p1 + p2 + p3;
    forall j | 0 <= j < 63
      ensures r[j] == j + 1
    {
      assert r[j] == p1[j];
    }
    forall j | 0 <= j < 61
      ensures r[63 + j] == 64 + 16 * j
    {
      assert r[63 + j] == p2[j];
    }
    assert r[124..] == p3;
    ScheduleIncreasing(1, 8192, 64, 1024, 1, 16, 2);
    NoOverflowFromBounds(8192, 64, 1024, 16, 2);
  }

  /** The two-dimensional benchmarks register 1, ..., 7, then 8 and 24, then 64, whatever
      the mode: 128 and 256 both exceed 100. */
  lemma Config2DArguments(mode: Mode)
    ensures Admissible(mode, Config2D)
    ensures Arguments(mode, Config2D.min, Config2D.max, Config2D.threshold1, Config2D.threshold2)
            == [1, 2, 3, 4, 5, 6, 7, 8, 24, 64]
  {
  }

  /** With threshold1 > 2 * threshold2 the phases overlap and a size is registered twice:
      (0, 10, 5, 2) gives 0..4 in phase 1, nothing in phase 2, and 4, 8 in phase 3. */
  lemma ThresholdsOutOfOrderRepeat()
    ensures Arguments(Complete, 0, 10, 5, 2) == [0, 1, 2, 3, 4, 4, 8]
    ensures !StrictlyIncreasing(Arguments(Complete, 0, 10, 5, 2))
  {
    LinearLength(0, 4, 1);
    LinearClosedForm(0, 4, 1);
    assert Phase1(0, 10, 5, 1) == [0, 1, 2, 3, 4];
    assert Geometric(4, 10, 2) == [4] + Geometric(8, 10, 2);
    assert Geometric(8, 10, 2) == [8] + Geometric(16, 10, 2);
    var r := Arguments(Complete, 0, 10, 5, 2);
    assert r[4] == r[5];
  }

  /** Phase 3 of fast mode registers every other size of phase 3 of complete mode: the
      sizes are still powers of two times 2 * threshold2, but with exponents 0, 2, 4, ... */
  lemma FastPhase3SkipsAlternateSizes(end: int, threshold2: int)
    requires Stops(end, threshold2)
    ensures var fast, complete := Phase3(end, threshold2, ExponentialIncrement(Fast)),
                                  Phase3(end, threshold2, ExponentialIncrement(Complete));
            |fast| == (|complete| + 1) / 2
            && forall n :: 0 <= n < |fast| ==> 2 * n < |complete| && fast[n] == complete[2 * n]
  {
    GeometricEveryOther(2 * threshold2, end);
  }
}
