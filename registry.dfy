/** The part of the benchmark library that `CustomArguments` uses. */
module Registry {
  /** A registered benchmark. `Arg(x)` adds one run of it with size argument x; the only
      state modelled is the list of size arguments, in registration order. */
  class Benchmark {
    var args: seq<int>

    constructor ()
      ensures args == []
    {
      args := [];
    }

    method Arg(x: int)
      modifies this
      ensures args == old(args) + [x]
    {
      args := args + [x];
    }
  }
}
