/**
  One benchmark of benches/lib.rs, `binary_search(b, cache, mapper)`: the
  slice it builds once, and the closure the timing harness calls repeatedly,
  which advances the register `r` it owns, derives a probe key from it and
  searches for that key.
*/
module Benchmark {
  import opened BinarySearch
  import opened Workload

  class Scenario {
    const size: nat
    const mapper: Mapper
    const v: seq<int>
    /** The register `r`, captured by the closure and updated on every call. */
    var r: Usize
    /** How many times the closure has run. */
    ghost var calls: nat

    ghost predicate Valid()
      reads this
    {
      && 0 < size
      && v == Dataset(size, mapper)
      && r == Register(calls)
    }

    /** The set-up part: the tier's size, the slice built with the mapper, `r` at 0. */
    constructor (cache: Cache, mapper: Mapper)
      ensures Valid()
      ensures size == Size(cache) && this.mapper == mapper
      ensures v == Dataset(Size(cache), mapper)
      ensures calls == 0 && r == 0
    {
      size := Size(cache);
      this.mapper := mapper;
      v := Dataset(Size(cache), mapper);
      r := 0;
      calls := 0;
    }

    /**
      One call of the closure. `found` is the `is_ok()` of the search result,
      the value handed to the optimisation barrier: every call finds its key.
    */
    method Iter() returns (found: bool)
      requires Valid()
      modifies this
      ensures Valid()
      ensures r == Next(old(r)) && calls == old(calls) + 1
      ensures r == Register(calls)
      ensures found
    {
      r := Next(r);
      calls := calls + 1;
      var key := ProbeKey(mapper, r, size);
      var res;
      ghost var halvings;
      res, halvings := OldBinarySearch(v, key);
      DatasetSorted(size, mapper);
      found := res.Ok?;
    }
  }
}
