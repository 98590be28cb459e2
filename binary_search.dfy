/**
 * OO.binarySearch (src/core.js): a loop narrowing the half-open window
 * [left, right) of an array until the search function reports a match or the
 * window is empty.
 *
 * The search function is told an element and answers with a number: above
 * zero when the sought value lies to the right of that element, below zero
 * when it lies to the left, zero on a match.
 */
module BinarySearch {
  import opened Wrappers

  /** Largest length of a JavaScript array (2^32 - 1). */
  const MaxArrayLength: nat := 0xFFFF_FFFF

  /**
   * The search function's answers are consistent with one position in `arr`:
   * once the sought value is left of an element it is left of every later
   * one, and once it is right of an element it is right of every earlier one.
   */
  ghost predicate Monotone<T>(arr: seq<T>, f: T -> int) {
    forall i, j :: 0 <= i < j < |arr| ==>
      (f(arr[i]) < 0 ==> f(arr[j]) < 0) && (f(arr[j]) > 0 ==> f(arr[i]) > 0)
  }

  /** The midpoint the loop probes, floor((left + right) / 2). */
  function Midpoint(left: nat, right: nat): (mid: nat)
    requires left < right
    ensures left <= mid < right
  {
    (left + right) / 2
  }

  /**
   * The search on the window [left, right): the index it returns (None for
   * JavaScript's null) and the indexes it probes, in order.
   */
  function Search<T>(arr: seq<T>, f: T -> int, forInsertion: bool, left: nat, right: nat): (Option<nat>, seq<nat>)
    requires left <= right <= |arr|
    decreases right - left
  {
    if left < right then
      var mid := Midpoint(left, right);
      var cmp := f(arr[mid]);
      if cmp < 0 then
        var rest := Search(arr, f, forInsertion, left, mid);
        (rest.0, [mid] + rest.1)
      else if cmp > 0 then
        var rest := Search(arr, f, forInsertion, mid + 1, right);
        (rest.0, [mid] + rest.1)
      else
        (Some(mid), [mid])
    else
      (if forInsertion then Some(right) else None, [])
  }

  /** The search over the whole array, as OO.binarySearch runs it. */
  function SearchAll<T>(arr: seq<T>, f: T -> int, forInsertion: bool): (Option<nat>, seq<nat>)
  {
    Search(arr, f, forInsertion, 0, |arr|)
  }

  /**
   * OO.binarySearch. Besides the result it returns the indexes whose
   * elements were handed to the search function, in call order.
   */
  method BinarySearch<T>(arr: seq<T>, searchFunc: T -> int, forInsertion: bool) returns (r: Option<nat>, probes: seq<nat>)
    ensures r == SearchAll(arr, searchFunc, forInsertion).0
    ensures probes == SearchAll(arr, searchFunc, forInsertion).1
  {
    var left, right := 0, |arr|;
    probes := [];
    ghost var whole := SearchAll(arr, searchFunc, forInsertion);
    while left < right
      invariant 0 <= left <= right <= |arr|
      invariant whole.0 == Search(arr, searchFunc, forInsertion, left, right).0
      invariant whole.1 == probes + Search(arr, searchFunc, forInsertion, left, right).1
      decreases right - left
    {
      var mid := Midpoint(left, right);
      var cmpResult := searchFunc(arr[mid]);
      SearchStep(arr, searchFunc, forInsertion, left, right, probes);
      probes := probes + [mid];
      if cmpResult < 0 {
        right := mid;
      } else if cmpResult > 0 {
        left := mid + 1;
      } else {
        return Some(mid), probes;
      }
    }
    assert Search(arr, searchFunc, forInsertion, left, right).1 == [];
    r := if forInsertion then Some(right) else None;
  }

  /** One probe of the window: the answer and the probes of the rest of the search. */
  lemma SearchStep<T>(arr: seq<T>, f: T -> int, forInsertion: bool, left: nat, right: nat, done: seq<nat>)
    requires left < right <= |arr|
    ensures var mid, s := Midpoint(left, right), Search(arr, f, forInsertion, left, right);
      && (f(arr[mid]) < 0 ==> var next := Search(arr, f, forInsertion, left, mid);
            s.0 == next.0 && done + s.1 == (done + [mid]) + next.1)
      && (f(arr[mid]) > 0 ==> var next := Search(arr, f, forInsertion, mid + 1, right);
            s.0 == next.0 && done + s.1 == (done + [mid]) + next.1)
      && (f(arr[mid]) == 0 ==> s == (Some(mid), [mid]))
  {
    var mid, s := Midpoint(left, right), Search(arr, f, forInsertion, left, right);
    if f(arr[mid]) < 0 {
      assert s.1 == [mid] + Search(arr, f, forInsertion, left, mid).1;
    } else if f(arr[mid]) > 0 {
      assert s.1 == [mid] + Search(arr, f, forInsertion, mid + 1, right).1;
    }
  }

  /**
   * Every answer lies in the window: a match is an index inside it whose
   * element the function calls equal; without `forInsertion` a miss is None;
   * with it, the result is an index in [left, right].
   */
  lemma {:induction false} SearchInWindow<T>(arr: seq<T>, f: T -> int, forInsertion: bool, left: nat, right: nat)
    requires left <= right <= |arr|
    ensures var r := Search(arr, f, forInsertion, left, right).0;
      && (forInsertion ==> r.Some?)
      && (r.Some? ==> left <= r.value <= right)
      && (!forInsertion && r.Some? ==> r.value < right && f(arr[r.value]) == 0)
    decreases right - left
  {
    if left < right {
      var mid := Midpoint(left, right);
      if f(arr[mid]) < 0 {
        SearchInWindow(arr, f, forInsertion, left, mid);
      } else if f(arr[mid]) > 0 {
        SearchInWindow(arr, f, forInsertion, mid + 1, right);
      }
    }
  }

  /**
   * Without `forInsertion` the result is null or the index of an element the
   * search function calls equal; with it, the result is always an index in
   * [0, |arr|].
   */
  lemma SearchResult<T>(arr: seq<T>, f: T -> int, forInsertion: bool)
    ensures var r := SearchAll(arr, f, forInsertion).0;
      && (!forInsertion ==> r.None? || (r.value < |arr| && f(arr[r.value]) == 0))
      && (forInsertion ==> r.Some? && r.value <= |arr|)
  {
    SearchInWindow(arr, f, forInsertion, 0, |arr|);
  }

  /**
   * Under a monotone search function, a search that finds no match stops at
   * the insertion point: every element before it is left of the sought value
   * and every element from it on is right of it; and no element matches.
   */
  lemma {:induction false} SearchPartitions<T>(arr: seq<T>, f: T -> int, forInsertion: bool, left: nat, right: nat)
    requires left <= right <= |arr|
    requires Monotone(arr, f)
    requires forall k :: 0 <= k < left ==> f(arr[k]) > 0
    requires forall k :: right <= k < |arr| ==> f(arr[k]) < 0
    ensures var r := Search(arr, f, forInsertion, left, right).0;
      (r.None? || r.value >= |arr| || f(arr[r.value]) != 0) ==>
        && (forall k :: 0 <= k < |arr| ==> f(arr[k]) != 0)
        && (r.Some? ==>
              (forall k :: 0 <= k < r.value && k < |arr| ==> f(arr[k]) > 0)
              && (forall k :: r.value <= k < |arr| ==> f(arr[k]) < 0))
    decreases right - left
  {
    if left < right {
      var mid := Midpoint(left, right);
      if f(arr[mid]) < 0 {
        SearchPartitions(arr, f, forInsertion, left, mid);
      } else if f(arr[mid]) > 0 {
        SearchPartitions(arr, f, forInsertion, mid + 1, right);
      }
    }
  }

  /**
   * With a monotone search function: the search finds a match whenever one
   * exists, and otherwise (with `forInsertion`) returns the index where the
   * sought value keeps the array in order.
   */
  lemma MonotoneSearch<T>(arr: seq<T>, f: T -> int, forInsertion: bool)
    requires Monotone(arr, f)
    ensures var r := SearchAll(arr, f, forInsertion).0;
      && ((exists k :: 0 <= k < |arr| && f(arr[k]) == 0) ==> r.Some? && r.value < |arr| && f(arr[r.value]) == 0)
      && (forInsertion && (forall k :: 0 <= k < |arr| ==> f(arr[k]) != 0) ==>
            r.Some? && r.value <= |arr|
            && (forall k :: 0 <= k < r.value ==> f(arr[k]) > 0)
            && (forall k :: r.value <= k < |arr| ==> f(arr[k]) < 0))
  {
    SearchInWindow(arr, f, forInsertion, 0, |arr|);
    SearchPartitions(arr, f, forInsertion, 0, |arr|);
  }

  /** log2 rounded down, used to bound the number of probes. */
  function Log2(n: nat): nat
  {
    if n <= 1 then 0 else 1 + Log2(n / 2)
  }

  /** The window at least halves with every probe, so there are at most log2(n) + 1 probes. */
  lemma {:induction false} ProbeCount<T>(arr: seq<T>, f: T -> int, forInsertion: bool, left: nat, right: nat)
    requires left <= right <= |arr|
    ensures var probes := Search(arr, f, forInsertion, left, right).1;
      && |probes| <= (if left == right then 0 else Log2(right - left) + 1)
      && (forall p :: p in probes ==> left <= p < right)
    decreases right - left
  {
    if left < right {
      var mid := Midpoint(left, right);
      if f(arr[mid]) < 0 {
        ProbeCount(arr, f, forInsertion, left, mid);
        Log2Monotone(mid - left, right - left);
      } else if f(arr[mid]) > 0 {
        ProbeCount(arr, f, forInsertion, mid + 1, right);
        Log2Monotone(right - (mid + 1), right - left);
      }
    }
  }

  /** Halving lowers log2 by one; log2 is monotone. */
  lemma {:induction false} Log2Monotone(m: nat, n: nat)
    requires 2 * m <= n
    ensures m >= 1 ==> Log2(m) + 1 <= Log2(n)
    ensures m <= n
    decreases n
  {
    if m > 1 {
      Log2Monotone(m / 2, n / 2);
    }
  }

  /** A number converted to a signed 32-bit integer, as JavaScript's bitwise operators do. */
  function ToInt32(x: int): (r: int)
    ensures -0x8000_0000 <= r < 0x8000_0000
    ensures (r - x) % 0x1_0000_0000 == 0
  {
    (x + 0x8000_0000) % 0x1_0000_0000 - 0x8000_0000
  }

  /** The midpoint as the source writes it, `( left + right ) >> 1`. */
  function ShiftMidpoint(left: nat, right: nat): int
  {
    ToInt32(left + right) / 2
  }

  /** While left + right stays below 2^31 the shift is the floor division the model uses. */
  lemma ShiftMidpointAgrees(left: nat, right: nat)
    requires left < right && left + right < 0x8000_0000
    ensures ShiftMidpoint(left, right) == Midpoint(left, right)
  {
  }

  /**
   * For an array of 2^31 elements (a legal JavaScript array length) the very
   * first probe of the shift is a negative index, outside the array.
   */
  lemma ShiftMidpointOverflows()
    ensures 0x8000_0000 <= MaxArrayLength
    ensures ShiftMidpoint(0, 0x8000_0000) == -0x4000_0000
  {
  }

  /** Three-way comparison of a target number against an element, as the unit tests use it. */
  function Direction(target: int): int -> int
  {
    item => if target > item then 1 else if target < item then -1 else 0
  }

  /** The array of the unit tests. */
  function TestData(): seq<int>
  {
    [-42, -10, 0, 2, 5, 7, 12, 21, 42, 70, 144, 1001]
  }

  /** Searching 12 probes only 12 and returns 6; searching -42 probes 12, 2, -10, -42. */
  lemma SearchExamples()
    ensures SearchAll(TestData(), Direction(12), false) == (Some(6), [6])
    ensures SearchAll(TestData(), Direction(-42), false) == (Some(0), [6, 3, 1, 0])
    ensures SearchAll(TestData(), Direction(42), false) == (Some(8), [6, 9, 8])
    ensures SearchAll(TestData(), Direction(2000), false).0 == None
  {
    assert Search(TestData(), Direction(-42), false, 0, 1) == (Some(0), [0]);
    assert [1] + [0] == [1, 0];
    assert Search(TestData(), Direction(-42), false, 0, 3) == (Some(0), [1, 0]);
    assert [3] + [1, 0] == [3, 1, 0];
    assert Search(TestData(), Direction(-42), false, 0, 6) == (Some(0), [3, 1, 0]);
    assert [6] + [3, 1, 0] == [6, 3, 1, 0];
    assert Search(TestData(), Direction(42), false, 7, 9) == (Some(8), [8]);
    assert [9] + [8] == [9, 8];
    assert Search(TestData(), Direction(42), false, 7, 12) == (Some(8), [9, 8]);
    assert [6] + [9, 8] == [6, 9, 8];
  }

  /** Insertion points of the unit tests: 0 before everything, 2 in the middle, 12 at the end. */
  lemma InsertionExamples()
    ensures SearchAll(TestData(), Direction(-2000), true).0 == Some(0)
    ensures SearchAll([1, 2, 4, 5], Direction(3), true).0 == Some(2)
    ensures SearchAll(TestData(), Direction(2000), true).0 == Some(12)
  {
  }
}
