/** The out-of-line version of `CustomArguments`, whose steps are written as literals:
    1 in phase 1, 16 in phase 2 and a factor of 2 in phase 3. */
module BenchmarkUtilsCpp {
  import opened CInt
  import opened ArgSchedule
  import opened Registry
  import Hpp = BenchmarkUtilsHpp

  /** The sizes this version registers. */
  function Arguments(start: int, end: int, threshold1: int, threshold2: int): (r: seq<int>)
    requires Stops(end, threshold2)
  {
    Schedule(start, end, threshold1, threshold2, 1, 16, 2)
  }

  /** Registers on `b` the sizes start, start + 1, ... below `threshold1`, then threshold1,
      threshold1 + 16, ... up to `threshold2`, then 2 * threshold2, 4 * threshold2, ...;
      every size is at most `end`. The caller must ensure that phase 3 terminates and that
      no counter overflows. */
  method CustomArguments(b: Benchmark, start: int32, end: int32, threshold1: int32, threshold2: int32)
    requires Stops(end as int, threshold2 as int)
    requires NoOverflow(end as int, threshold1 as int, threshold2 as int, 16, 2)
    modifies b
    ensures b.args == old(b.args) + Arguments(start as int, end as int,
                                              threshold1 as int, threshold2 as int)
  {
    ghost var limit1 := Min(threshold1 as int - 1, end as int);
    ghost var limit2 := Min(threshold2 as int, end as int);
    ghost var p1 := Phase1(start as int, end as int, threshold1 as int, 1);
    ghost var p2 := Phase2(end as int, threshold1 as int, threshold2 as int, 16);
    ghost var p3 := Phase3(end as int, threshold2 as int, 2);
    ghost var all := p1 + p2 + p3;
    assert all == Arguments(start as int, end as int, threshold1 as int, threshold2 as int);

    // Phase 1: ++i
    ghost var before := b.args;
    var i := start;
    while i < threshold1 && i <= end
      invariant before + p1 == b.args + Linear(i as int, limit1, 1)
      decreases limit1 - i as int
    {
      Assoc(b.args, [i as int], Linear(i as int + 1, limit1, 1));
      b.Arg(i as int);
      i := i + 1;
    }
    ghost var after1 := b.args;
    assert after1 == before + p1;

    // Phase 2: i += 16
    i := threshold1;
    while i <= threshold2 && i <= end
      invariant after1 + p2 == b.args + Linear(i as int, limit2, 16)
      invariant LinearExit(i as int, limit2, 16) == LinearExit(threshold1 as int, limit2, 16)
      decreases limit2 - i as int
    {
      Assoc(b.args, [i as int], Linear(i as int + 16, limit2, 16));
      b.Arg(i as int);
      LinearExitAfter(i as int + 16, limit2, 16);
      i := i + 16;
    }
    ghost var after2 := b.args;
    assert after2 == after1 + p2;
    Assoc(before, p1, p2);

    // Phase 3: i *= 2
    i := threshold2 * 2;
    while i <= end
      invariant GeometricStops(i as int, end as int)
      invariant after2 + p3 == b.args + Geometric(i as int, end as int, 2)
      invariant GeometricExit(i as int, end as int, 2) == GeometricExit(2 * threshold2 as int, end as int, 2)
      decreases end as int - i as int
    {
      GeometricStep(i as int, end as int, 2);
      Assoc(b.args, [i as int], Geometric(i as int * 2, end as int, 2));
      b.Arg(i as int);
      i := i * 2;
    }
    assert b.args == after2 + p3;
    Assoc(before, p1 + p2, p3);
  }

  /** For every input, this version registers the same sizes as the header version in
      complete mode, under the same preconditions. */
  lemma MatchesCompleteMode(start: int, end: int, threshold1: int, threshold2: int)
    requires Stops(end, threshold2)
    ensures Arguments(start, end, threshold1, threshold2)
            == Hpp.Arguments(Hpp.Complete, start, end, threshold1, threshold2)
    ensures NoOverflow(end, threshold1, threshold2, 16, 2)
            == NoOverflow(end, threshold1, threshold2,
                          Hpp.LinearIncrement2(Hpp.Complete), Hpp.ExponentialIncrement(Hpp.Complete))
  {
  }

  /** It does not match fast mode: on the fast-mode range (64, 1024, 64, 32) it registers
      64, 128, 256, 512, 1024 where the header version registers 64, 256, 1024. */
  lemma DiffersFromFastMode()
    ensures Arguments(64, 1024, 64, 32) == [64, 128, 256, 512, 1024]
    ensures Arguments(64, 1024, 64, 32) != Hpp.Arguments(Hpp.Fast, 64, 1024, 64, 32)
  {
  }
}
