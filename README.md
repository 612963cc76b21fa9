# binary_search_bench in Dafny

This project models the benchmark crate `binary_search_bench`. The crate times
one binary-search routine, `old_binary_search`, on sorted slices whose sizes
match the CPU cache tiers (L1, L2, L3 and too large for any cache). Each
benchmark builds its slice once from an index-to-value mapper, either doubling
(`i * 2`, no duplicates) or rounding down to a multiple of 16 (`i / 16 * 16`,
runs of 16 equal values). On every timed call it then takes a probe key from a
64-bit linear-congruential generator and searches for it.

The project has three modules, one per part of `benches/lib.rs`:

- `BinarySearch` (binary_search.dfy) holds the search. `OldBinarySearch` is a
  method with the source's loop. The source's sub-slice `s` is the window
  `a[base..base + len]` of the searched slice `a`, and `len >> 1` is `len / 2`.
  The element type is `int`, standing for any totally ordered `T`.
  - `Answers` states what the search guarantees for every slice, sorted or not.
  - The lemmas derive the insertion-point property on sorted slices, the
    empty and one-element cases, and the uniqueness of the answer on strictly
    increasing slices.
- `Workload` (workload.dfy) holds the pure parts as functions:
  - the size of each cache tier;
  - the two mappers and the slice built from them;
  - the wrapping 64-bit LCG step and the register sequence from 0;
  - the probe index and the probe key.
  Its lemmas prove that both slices are sorted and that the doubling slice is
  strictly increasing. They give the exact count of each value in the
  runs-of-16 slice, at most 16, and prove that every probe key is found.
- `Benchmark` (benchmark.dfy) holds the class `Scenario`. It is the state that
  `binary_search` sets up and that the timed closure captures: the slice, the
  mapper and the mutable register `r`. `Iter` is one call of that closure.

The comment at benches/lib.rs:36 promises half hits and half misses, but the
code does not bear it out. The probe key is `mapper(r % size)`
(benches/lib.rs:37), the value the slice built at benches/lib.rs:31 holds at
index `r % size`, so every search finds its key. The model follows
the code: `Scenario.Iter` ensures `found`, and `ProbeAlwaysHits` states the
same fact for any answer the search may give.

## Model

| member | source | states |
|---|---|---|
| `BinarySearch.OldBinarySearch` | benches/lib.rs:147-166 | For any slice, `Ok(i)` has `i` below the length of `a` and `a[i] == key`. `Err(i)` has `i` at most that length, its left neighbour below the key and `a[i]` above it. On a sorted slice, `Err(i)` is the insertion point (everything before `i` is smaller, everything from `i` on is larger), and `Ok` is returned exactly when the key is present. An empty slice gives `Err(0)`; a one-element slice gives `Ok(0)`, `Err(0)` or `Err(1)` by one comparison. At most as many rounds as `a` has elements go on searching, so the loop ends and `base` never passes the end of the slice |
| `BinarySearch.SortedAnswer` | benches/lib.rs:149-163 | On a sorted slice, an answer the search can give that is `Err(i)` splits the slice into smaller and larger elements. `Ok` is answered if and only if the key occurs |
| `BinarySearch.ShortSliceAnswer` | benches/lib.rs:152-155 | The empty slice admits only `Err(0)`. A one-element slice `[x]` admits only `Ok(0)` when `x == key`, `Err(0)` when `key < x` and `Err(1)` when `x < key` |
| `BinarySearch.StrictlySortedAnswerUnique` | benches/lib.rs:147-166 | On a strictly increasing slice, any two answers that meet the search's guarantee are equal, so the result does not depend on the halving path |
| `Workload.Size` | benches/lib.rs:25-30 | The tier sizes are 1000, 10 000, 1 000 000 and 10 000 000. Each is positive, so `r % size` is defined, and twice each fits in a 64-bit `usize` |
| `Workload.Apply` | benches/lib.rs:44-82 | The doubling mapper gives the even number whose half is the index. The runs-of-16 mapper gives a multiple of 16 that is at most the index and more than the index minus 16 |
| `Workload.ApplyMonotone` | benches/lib.rs:44-82 | Both mappers are monotone: a larger index never gives a smaller value |
| `Workload.Dataset` | benches/lib.rs:31 | The slice built by `(0..size).map(mapper).collect()` has length `size` and holds `mapper(j)` at every index `j` |
| `Workload.DatasetSorted` | benches/lib.rs:31 | The slice built with either mapper is non-decreasing, which is what the search assumes |
| `Workload.DoublingStrictlySorted` | benches/lib.rs:46 | The slice built with the doubling mapper is strictly increasing |
| `Workload.RunsOf16Count` | benches/lib.rs:66 | In the runs-of-16 slice of length `n`, a non-negative multiple `x` of 16 occurs `min(16, n - x)` times (0 when `n <= x`). No other value occurs |
| `Workload.RunsOf16AtMost16` | benches/lib.rs:66 | No value occurs more than 16 times in the runs-of-16 slice |
| `Workload.WrappingMul` | benches/lib.rs:35 | `wrapping_mul` on 64-bit `usize` gives the 64-bit value congruent to the product modulo 2^64, which is the exact product whenever that fits |
| `Workload.WrappingAdd` | benches/lib.rs:35 | `wrapping_add` on 64-bit `usize` is the sum, less 2^64 exactly when the sum overflows |
| `Workload.Next` | benches/lib.rs:35 | The register step, a wrapping multiply by 1664525 then a wrapping add of 1013904223, equals `(r * 1664525 + 1013904223) mod 2^64` |
| `Workload.RegisterStart` | benches/lib.rs:32-35 | From the start value 0, the register takes the values 1013904223, 1687669940693298 and then 5263708829673912041; the third step wraps around |
| `Workload.ProbeIndex` | benches/lib.rs:37 | The probe index `r % size` is below `size`, and equals `r` when `r` is already below `size` |
| `Workload.ProbeKey` | benches/lib.rs:37 | The probe key `mapper(r % size)` is the element the slice holds at the probe index, so it is always in the slice |
| `Workload.ProbeAlwaysHits` | benches/lib.rs:31-40 | Every answer the search may give for a probe key is `Ok`, for both mappers and every register value |
| `Workload.DoublingAnswer` | benches/lib.rs:44-47 | On a doubling slice of length `size`, the answer is fixed. An even key in `[0, 2 * size)` gives `Ok(key / 2)`. Any other key gives `Err` at the number of elements smaller than it |
| `Benchmark.Scenario.constructor` | benches/lib.rs:22-32 | Set-up: the size of the tier, the slice built with the mapper, and the register at 0 |
| `Benchmark.Scenario.Iter` | benches/lib.rs:33-41 | One timed call: the register becomes `Next(r)`, which is the register's value after the number of calls so far. The search result handed to `black_box` is always `is_ok()` |

## Left out

- The timing driver `Bencher` and its `iter` (benches/lib.rs:13, 33) are an external harness. The model keeps only the closure body, as `Scenario.Iter`.
- `black_box` (benches/lib.rs:12, 40) only hides a value from the optimiser. `Iter` returns that value instead.
- The commented-out search `find`/`_find` (benches/lib.rs:84-145) and the commented-out calls at benches/lib.rs:38-39 are dead code.
- The eight `#[bench]` entry points (benches/lib.rs:44-82) are the four tiers crossed with the two mappers. They appear only as the arguments of `Scenario`'s constructor.
- OldBinarySearch: bounds the rounds that go on searching by the length of the slice, not by its base-2 logarithm.
- OldBinarySearch: with duplicate keys, the contract promises some matching index, not the one the halving path reaches. The source promises no more.
- OldBinarySearch: the element type is `int`, not a generic `T: Ord`. The sub-slice is an index window into the one immutable slice, not a separate slice value.
- Apply: the mapper arithmetic is unbounded. `Size` shows that twice every tier size fits in 64 bits, so `i * 2` cannot overflow for any index the benchmarks use.
- The width of `usize` is fixed at 64 bits; platforms with other widths are not modelled.
