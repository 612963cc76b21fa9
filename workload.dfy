/**
  The workload of benches/lib.rs: the size of the searched slice per cache
  tier, the two index-to-value mappers, the slice built from them, and the
  linear-congruential generator whose register picks the probe keys.
*/
module Workload {
  import opened BinarySearch

  /** Rust's `usize`, fixed at 64 bits. */
  const WORD_MODULUS: nat := 0x1_0000_0000_0000_0000

  type Usize = x: int | 0 <= x < WORD_MODULUS

  /** The cache level whose capacity the searched slice is sized for. */
  datatype Cache = L1 | L2 | L3 | TooLarge

  /**
    Number of elements searched for each tier. Every size is positive, so
    `r % size` is defined, and twice every size fits in a `usize`, so neither
    mapper overflows on an index below it.
  */
  function Size(cache: Cache): (n: nat)
    ensures 0 < n && 2 * n < WORD_MODULUS
  {
    match cache
    case L1 => 1000
    case L2 => 10_000
    case L3 => 1_000_000
    case TooLarge => 10_000_000
  }

  /** The two closures the benchmarks pass in: `i * 2` and `i / 16 * 16`. */
  datatype Mapper = Doubling | RunsOf16

  /**
    The value stored at index i. Doubling gives the even number whose half
    is i; RunsOf16 rounds i down to a multiple of 16.
  */
  function Apply(m: Mapper, i: nat): (x: nat)
    ensures m == Doubling ==> x % 2 == 0 && x / 2 == i
    ensures m == RunsOf16 ==> x % 16 == 0 && x <= i < x + 16
  {
    match m
    case Doubling => i * 2
    case RunsOf16 => i / 16 * 16
  }

  lemma ApplyMonotone(m: Mapper, i: nat, j: nat)
    requires i <= j
    ensures Apply(m, i) <= Apply(m, j)
  {
  }

  /** `(0..size).map(mapper).collect()`: the values of indices 0 up to size - 1, in order. */
  function Dataset(size: nat, m: Mapper): (v: seq<int>)
    ensures |v| == size
    ensures forall j :: 0 <= j < size ==> v[j] == Apply(m, j)
  {
    if size == 0 then [] else Dataset(size - 1, m) + [Apply(m, size - 1)]
  }

  /** Both mappers yield a non-decreasing slice, as the search assumes. */
  lemma DatasetSorted(size: nat, m: Mapper)
    ensures Sorted(Dataset(size, m))
  {
    var v := Dataset(size, m);
    forall i, j | 0 <= i < j < |v|
      ensures v[i] <= v[j]
    {
      ApplyMonotone(m, i, j);
    }
  }

  /** The doubling mapper yields a strictly increasing slice without duplicates. */
  lemma DoublingStrictlySorted(size: nat)
    ensures StrictlySorted(Dataset(size, Doubling))
  {
  }

  /**
    How often the value x occurs among RunsOf16 applied to 0 up to n - 1:
    a multiple of 16 occurs once per index in [x, x + 16) below n, any other
    value never.
  */
  function RunLength(n: nat, x: int): nat {
    if x < 0 || x % 16 != 0 || n <= x then 0
    else if x + 16 <= n then 16
    else n - x
  }

  /** The exact number of occurrences of each value in a RunsOf16 slice. */
  lemma {:induction false} RunsOf16Count(size: nat, x: int)
    ensures multiset(Dataset(size, RunsOf16))[x] == RunLength(size, x)
  {
    if size != 0 {
      var n := size - 1;
      var last := Apply(RunsOf16, n);
      RunsOf16Count(n, x);
      assert Dataset(size, RunsOf16) == Dataset(n, RunsOf16) + [last];
      assert multiset(Dataset(size, RunsOf16))[x]
          == multiset(Dataset(n, RunsOf16))[x] + (if last == x then 1 else 0);
      if x >= 0 && x % 16 == 0 && last != x {
        MultiplesOf16Apart(x, last);
      }
    }
  }

  /** Two different multiples of 16 are at least 16 apart. */
  lemma MultiplesOf16Apart(x: int, y: int)
    requires x % 16 == 0 && y % 16 == 0 && x != y
    ensures x + 16 <= y || y + 16 <= x
  {
    assert x == 16 * (x / 16) && y == 16 * (y / 16);
  }

  /** Every value occurs at most 16 times in a RunsOf16 slice. */
  lemma RunsOf16AtMost16(size: nat, x: int)
    ensures multiset(Dataset(size, RunsOf16))[x] <= 16
  {
    RunsOf16Count(size, x);
  }

  const LCG_MULTIPLIER: Usize := 1664525
  const LCG_INCREMENT: Usize := 1013904223

  /**
    `usize::wrapping_mul`: the 64-bit value congruent to the product modulo
    2^64, which is the exact product when it fits.
  */
  function WrappingMul(x: Usize, y: Usize): (r: Usize)
    ensures (x * y - r) % WORD_MODULUS == 0
    ensures x * y < WORD_MODULUS ==> r == x * y
  {
    var p := x * y;
    assert p - p % WORD_MODULUS == (p / WORD_MODULUS) * WORD_MODULUS;
    p % WORD_MODULUS
  }

  /** `usize::wrapping_add`: the sum, less 2^64 when it overflows. */
  function WrappingAdd(x: Usize, y: Usize): (r: Usize)
    ensures r == if x + y < WORD_MODULUS then x + y else x + y - WORD_MODULUS
  {
    (x + y) % WORD_MODULUS
  }

  /** Reducing a summand modulo 2^64 first does not change the sum modulo 2^64. */
  lemma ReduceThenAdd(x: nat, c: nat)
    ensures (x % WORD_MODULUS + c) % WORD_MODULUS == (x + c) % WORD_MODULUS
  {
    var q := x / WORD_MODULUS;
    assert x + c == q * WORD_MODULUS + (x % WORD_MODULUS + c);
  }

  /**
    One step of the register: `r.wrapping_mul(1664525).wrapping_add(1013904223)`.
    Wrapping twice is the same as reducing the exact result once modulo 2^64.
  */
  function Next(r: Usize): (r': Usize)
    ensures r' == (r * LCG_MULTIPLIER + LCG_INCREMENT) % WORD_MODULUS
  {
    ReduceThenAdd(r * LCG_MULTIPLIER, LCG_INCREMENT);
    WrappingAdd(WrappingMul(r, LCG_MULTIPLIER), LCG_INCREMENT)
  }

  /** The register after n steps from its start value 0. */
  function Register(n: nat): Usize {
    if n == 0 then 0 else Next(Register(n - 1))
  }

  /** The first values of the register; the third step already wraps around. */
  lemma RegisterStart()
    ensures Register(1) == 1013904223
    ensures Register(2) == 1687669940693298
    ensures Register(3) == 5263708829673912041
  {
  }

  /** `r % size`: the index whose value becomes the probe key. */
  function ProbeIndex(r: Usize, size: nat): (i: nat)
    requires 0 < size
    ensures i < size
    ensures r < size ==> i == r
  {
    r % size
  }

  /**
    `mapper(r % size)`: the probe key is the value the slice holds at the
    probe index, so it is always one of the slice's values.
  */
  function ProbeKey(m: Mapper, r: Usize, size: nat): (key: int)
    requires 0 < size
    ensures key == Dataset(size, m)[ProbeIndex(r, size)]
    ensures key in Dataset(size, m)
  {
    Apply(m, ProbeIndex(r, size))
  }

  /**
    Whatever answer the search gives for a probe key, it is `Ok`: the key is
    taken from the slice itself, and the slice is sorted.
  */
  lemma ProbeAlwaysHits(m: Mapper, r: Usize, size: nat)
    requires 0 < size
    ensures forall res :: Answers(Dataset(size, m), ProbeKey(m, r, size), res) ==> res.Ok?
  {
    DatasetSorted(size, m);
    forall res | Answers(Dataset(size, m), ProbeKey(m, r, size), res)
      ensures res.Ok?
    {
      SortedAnswer(Dataset(size, m), ProbeKey(m, r, size), res);
    }
  }

  /**
    On a doubling slice the answer is fully determined: an even key in range
    is found at its half, any other key is reported missing at the number of
    elements smaller than it.
  */
  lemma DoublingAnswer(size: nat, key: int, res: SearchResult)
    requires Answers(Dataset(size, Doubling), key, res)
    ensures res == if key % 2 == 0 && 0 <= key < 2 * size then Ok(key / 2)
                   else if key < 0 then Err(0)
                   else if 2 * size <= key then Err(size)
                   else Err((key + 1) / 2)
  {
    var v := Dataset(size, Doubling);
    var expected :=
      if key % 2 == 0 && 0 <= key < 2 * size then Ok(key / 2)
      else if key < 0 then Err(0)
      else if 2 * size <= key then Err(size)
      else Err((key + 1) / 2);
    assert Answers(v, key, expected);
    DoublingStrictlySorted(size);
    StrictlySortedAnswerUnique(v, key, res, expected);
  }
}
