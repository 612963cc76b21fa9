/**
  The search routine `old_binary_search` of benches/lib.rs.

  The routine keeps the absolute offset `base` of its current window and the
  window itself as a sub-slice `s` of the searched slice. Each round splits `s`
  at half its length, compares the first element of the upper half with the
  key and either stops, moves right past that element, or keeps the lower half.
  Here the sub-slice is the window a[base..base + len] of the whole slice `a`.
*/
module BinarySearch {

  /** Rust's `Result<usize, usize>`: `Ok` carries a matching index, `Err` an insertion point. */
  datatype SearchResult = Ok(index: nat) | Err(index: nat)

  /** Non-decreasing order, the only assumption the routine makes of its slice. */
  predicate Sorted(a: seq<int>) {
    forall i, j :: 0 <= i < j < |a| ==> a[i] <= a[j]
  }

  /** Strictly increasing order: every value occurs at most once. */
  predicate StrictlySorted(a: seq<int>) {
    forall i, j :: 0 <= i < j < |a| ==> a[i] < a[j]
  }

  /**
    What the routine guarantees for every slice, sorted or not: `Ok(i)` points
    at an element equal to the key, and `Err(i)` is a position inside the slice
    (or just past it) whose left neighbour is smaller than the key and whose
    own element is larger.
  */
  predicate Answers(a: seq<int>, key: int, r: SearchResult) {
    match r
    case Ok(i) => i < |a| && a[i] == key
    case Err(i) =>
      && i <= |a|
      && (i == 0 || a[i - 1] < key)
      && (i == |a| || key < a[i])
  }

  /**
    On a sorted slice an `Err` answer is the insertion point: everything before
    it is smaller than the key, everything from it on is larger, so the key is
    absent; hence `Ok` is answered exactly when the key is present.
  */
  lemma {:induction false} SortedAnswer(a: seq<int>, key: int, r: SearchResult)
    requires Sorted(a) && Answers(a, key, r)
    ensures r.Err? ==>
              (forall j :: 0 <= j < r.index ==> a[j] < key) &&
              (forall j :: r.index <= j < |a| ==> key < a[j])
    ensures r.Ok? <==> key in a
  {
    if r.Err? {
      var i := r.index;
      forall j | 0 <= j < i
        ensures a[j] < key
      {
        assert a[j] <= a[i - 1];
      }
      forall j | i <= j < |a|
        ensures key < a[j]
      {
        assert a[i] <= a[j];
      }
    }
  }

  /**
    On an empty slice the only answer is `Err(0)`; on a one-element slice the
    answer is decided by a single comparison with that element.
  */
  lemma ShortSliceAnswer(a: seq<int>, key: int, r: SearchResult)
    requires |a| <= 1 && Answers(a, key, r)
    ensures |a| == 0 ==> r == Err(0)
    ensures |a| == 1 ==>
              r == (if a[0] == key then Ok(0) else if key < a[0] then Err(0) else Err(1))
  {
  }

  /**
    On a strictly increasing slice there is exactly one answer: the search is
    then fully determined by its specification, whichever path it takes.
  */
  lemma {:induction false} StrictlySortedAnswerUnique(a: seq<int>, key: int, r1: SearchResult, r2: SearchResult)
    requires StrictlySorted(a) && Answers(a, key, r1) && Answers(a, key, r2)
    ensures r1 == r2
  {
    assert Sorted(a);
    SortedAnswer(a, key, r1);
    SortedAnswer(a, key, r2);
  }

  /**
    `old_binary_search`: a loop that ends only by returning. `len >> 1` on a
    length is its half rounded down, written `/ 2`. Duplicates are allowed,
    and `Ok` may point at any of them, whichever the halving path reaches.

    `halvings` is a ghost count of the rounds that went on searching: each of
    them shrinks the window, so there are at most |a| of them and the loop
    makes at most |a| + 1 rounds.
  */
  method OldBinarySearch(a: seq<int>, key: int) returns (r: SearchResult, ghost halvings: nat)
    // for any slice: Ok is a genuine match, Err is bracketed by its neighbours
    ensures Answers(a, key, r)
    // on a sorted slice: Err is the insertion point and Ok means the key is present
    ensures Sorted(a) && r.Err? ==>
              (forall j :: 0 <= j < r.index ==> a[j] < key) &&
              (forall j :: r.index <= j < |a| ==> key < a[j])
    ensures Sorted(a) ==> (r.Ok? <==> key in a)
    ensures |a| == 0 ==> r == Err(0)
    ensures |a| == 1 ==>
              r == (if a[0] == key then Ok(0) else if key < a[0] then Err(0) else Err(1))
    ensures halvings <= |a|
  {
    var base: nat := 0;
    var len: nat := |a|;
    halvings := 0;
    while true
      invariant base + len <= |a|
      invariant base == 0 || a[base - 1] < key
      invariant base + len == |a| || key < a[base + len]
      invariant halvings + len <= |a|
      decreases len
    {
      // split_at(len >> 1): head is a[base..base + half], tail a[base + half..base + len]
      var half := len / 2;
      if len - half == 0 {
        r := Err(base);
        break;
      }
      if a[base + half] < key {
        base := base + half + 1;
        len := len - half - 1;
      } else if key < a[base + half] {
        len := half;
      } else {
        r := Ok(base + half);
        break;
      }
      halvings := halvings + 1;
    }
    if Sorted(a) {
      SortedAnswer(a, key, r);
    }
    if |a| <= 1 {
      ShortSliceAnswer(a, key, r);
    }
  }
}
