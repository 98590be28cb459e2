/**
 * The order-preserving set operations of src/core.js: OO.unique,
 * OO.simpleArrayUnion and the simpleArrayCombine helper behind
 * OO.simpleArrayIntersection and OO.simpleArrayDifference.
 *
 * A JavaScript Set remembers insertion order and ignores re-insertion, so
 * `Array.from(set)` lists the distinct values in the order they were first
 * added. Here that is specified by `Dedup`, which keeps an element exactly
 * when it does not occur earlier. Values are compared with Dafny equality.
 */
module ArraySets {

  /** No value occurs twice in `s`. */
  predicate NoDuplicates<T(==)>(s: seq<T>) {
    forall i, j :: 0 <= i < j < |s| ==> s[i] != s[j]
  }

  /** The set of values occurring in `s`. */
  function Elements<T>(s: seq<T>): set<T> {
    set x | x in s
  }

  /** The position of the first occurrence of `x` in `s`. */
  function FirstIndex<T(==)>(s: seq<T>, x: T): (i: nat)
    requires x in s
    ensures i < |s| && s[i] == x && x !in s[..i]
  {
    if s[0] == x then 0 else FirstIndex(s[1..], x) + 1
  }

  /**
   * The distinct values of `s` in order of first occurrence: the last
   * element is kept exactly when no earlier element equals it.
   */
  function Dedup<T(==)>(s: seq<T>): seq<T>
  {
    if |s| == 0 then []
    else
      var init := s[..|s| - 1];
      var rest := Dedup(init);
      if s[|s| - 1] in init then rest else rest + [s[|s| - 1]]
  }

  /** Appending one value to the input either leaves the output alone or appends it. */
  lemma DedupSnoc<T>(s: seq<T>, x: T)
    ensures Dedup(s + [x]) == if x in s then Dedup(s) else Dedup(s) + [x]
  {
    assert (s + [x])[..|s|] == s;
  }

  /** `Dedup` keeps exactly the values of its input. */
  lemma {:induction false} DedupElements<T>(s: seq<T>)
    ensures forall x :: x in Dedup(s) <==> x in s
  {
    if |s| > 0 {
      var init := s[..|s| - 1];
      DedupElements(init);
      assert s == init + [s[|s| - 1]];
    }
  }

  /** `Dedup` leaves no value twice. */
  lemma {:induction false} DedupNoDuplicates<T>(s: seq<T>)
    ensures NoDuplicates(Dedup(s))
  {
    if |s| > 0 {
      var init := s[..|s| - 1];
      DedupNoDuplicates(init);
      DedupElements(init);
    }
  }

  /** Removing the last element does not move any first occurrence inside the prefix. */
  lemma {:induction false} FirstIndexPrefix<T>(s: seq<T>, x: T, y: T)
    requires y in s
    ensures FirstIndex(s + [x], y) == FirstIndex(s, y)
    decreases |s|
  {
    assert (s + [x])[0] == s[0];
    if s[0] != y {
      assert (s + [x])[1..] == s[1..] + [x];
      FirstIndexPrefix(s[1..], x, y);
    }
  }

  /** A value occurring only at the end of `s + [x]` has its first occurrence there. */
  lemma {:induction false} FirstIndexLast<T>(s: seq<T>, x: T)
    requires x !in s
    ensures FirstIndex(s + [x], x) == |s|
    decreases |s|
  {
    if |s| == 0 {
      assert s + [x] == [x];
    } else {
      assert (s + [x])[0] == s[0] != x;
      assert (s + [x])[1..] == s[1..] + [x];
      FirstIndexLast(s[1..], x);
    }
  }

  /** The values of `d` occur in `s`, ordered by their first occurrence there. */
  ghost predicate FirstOccurrenceOrdered<T>(d: seq<T>, s: seq<T>) {
    && (forall i :: 0 <= i < |d| ==> d[i] in s)
    && (forall i, j :: 0 <= i < j < |d| ==> FirstIndex(s, d[i]) < FirstIndex(s, d[j]))
  }

  /** Appending a value to `s` keeps the order of the values already in `s`. */
  lemma OrderedSnocOld<T>(d: seq<T>, s: seq<T>, x: T)
    requires FirstOccurrenceOrdered(d, s)
    ensures FirstOccurrenceOrdered(d, s + [x])
  {
    forall i, j | 0 <= i < j < |d|
      ensures d[i] in s + [x] && d[j] in s + [x] && FirstIndex(s + [x], d[i]) < FirstIndex(s + [x], d[j])
    {
      FirstIndexPrefix(s, x, d[i]);
      FirstIndexPrefix(s, x, d[j]);
    }
  }

  /** A value new to `s` is ordered after every value of `s`. */
  lemma OrderedSnocNew<T>(d: seq<T>, s: seq<T>, x: T)
    requires FirstOccurrenceOrdered(d, s)
    requires forall y :: y in d ==> y in s
    requires x !in s
    ensures FirstOccurrenceOrdered(d + [x], s + [x])
  {
    OrderedSnocOld(d, s, x);
    FirstIndexLast(s, x);
    var e := d + [x];
    forall i, j | 0 <= i < j < |e|
      ensures e[i] in s + [x] && e[j] in s + [x] && FirstIndex(s + [x], e[i]) < FirstIndex(s + [x], e[j])
    {
      if j == |d| {
        assert e[i] == d[i] && d[i] in d;
        FirstIndexPrefix(s, x, d[i]);
      } else {
        assert e[i] == d[i] && e[j] == d[j];
      }
    }
  }

  /** `Dedup` lists the distinct values in the order of their first occurrence. */
  lemma {:induction false} DedupFirstOccurrenceOrder<T>(s: seq<T>)
    ensures FirstOccurrenceOrdered(Dedup(s), s)
  {
    if |s| > 0 {
      var init, x := s[..|s| - 1], s[|s| - 1];
      assert s == init + [x];
      DedupFirstOccurrenceOrder(init);
      DedupElements(init);
      if x in init {
        OrderedSnocOld(Dedup(init), init, x);
      } else {
        OrderedSnocNew(Dedup(init), init, x);
      }
    }
  }

  /** A duplicate-free sequence is its own `Dedup`. */
  lemma {:induction false} DedupOfDistinct<T>(s: seq<T>)
    requires NoDuplicates(s)
    ensures Dedup(s) == s
  {
    if |s| > 0 {
      var init := s[..|s| - 1];
      assert NoDuplicates(init);
      DedupOfDistinct(init);
      assert s[|s| - 1] !in init by {
        forall k | 0 <= k < |init| ensures init[k] != s[|s| - 1] {
          assert init[k] == s[k];
        }
      }
      assert s == init + [s[|s| - 1]];
    }
  }

  /**
   * OO.unique: the distinct values in first-occurrence order, which are
   * duplicate-free and are exactly the values of `arr`.
   */
  function Unique<T(==)>(arr: seq<T>): (r: seq<T>)
    ensures NoDuplicates(r)
    ensures Elements(r) == Elements(arr)
  {
    DedupNoDuplicates(arr);
    DedupElements(arr);
    assert Elements(Dedup(arr)) == Elements(arr);
    Dedup(arr)
  }

  /** `unique` is idempotent. */
  lemma UniqueIdempotent<T>(arr: seq<T>)
    ensures Unique(Unique(arr)) == Unique(arr)
  {
    DedupOfDistinct(Unique(arr));
  }

  /** The concatenation of a list of arrays. */
  function Flatten<T>(arrs: seq<seq<T>>): seq<T>
  {
    if |arrs| == 0 then [] else Flatten(arrs[..|arrs| - 1]) + arrs[|arrs| - 1]
  }

  /** The values of `s + [x]`. */
  lemma ElementsSnoc<T>(s: seq<T>, x: T)
    ensures Elements(s + [x]) == Elements(s) + {x}
    ensures x in Elements(s) <==> x in s
  {
  }

  /** Adding `x` to a Set holding the values of `seen`, in their first-occurrence order. */
  lemma SetAddStep<T>(seen: seq<T>, x: T, order: seq<T>, members: set<T>)
    requires order == Dedup(seen) && members == Elements(seen)
    ensures (if x in members then order else order + [x]) == Dedup(seen + [x])
    ensures members + {x} == Elements(seen + [x])
  {
    DedupSnoc(seen, x);
    ElementsSnoc(seen, x);
  }

  /** Extending a prefix of `arr` by one element, after `p`. */
  lemma PrefixSnoc<T>(p: seq<T>, arr: seq<T>, j: nat)
    requires j < |arr|
    ensures p + arr[..j + 1] == (p + arr[..j]) + [arr[j]]
  {
    assert arr[..j + 1] == arr[..j] + [arr[j]];
  }

  /** One more array appended to a flattened prefix. */
  lemma FlattenPrefix<T>(arrs: seq<seq<T>>, i: nat)
    requires i < |arrs|
    ensures Flatten(arrs[..i + 1]) == Flatten(arrs[..i]) + arrs[i]
  {
    assert arrs[..i + 1][..i] == arrs[..i];
  }

  /**
   * OO.simpleArrayUnion: a Set seeded from `a`, to which every element of
   * every array in `rest` is added in turn, read back in insertion order.
   * The result is `unique` of all arrays concatenated.
   */
  method SimpleArrayUnion<T(==)>(a: seq<T>, rest: seq<seq<T>>) returns (r: seq<T>)
    ensures r == Unique(a + Flatten(rest))
  {
    // The Set: its insertion order and its membership.
    var order := Dedup(a);
    var members := Elements(a);
    DedupElements(a);
    assert a + Flatten(rest[..0]) == a;
    var i := 0;
    while i < |rest|
      invariant 0 <= i <= |rest|
      invariant order == Dedup(a + Flatten(rest[..i]))
      invariant members == Elements(a + Flatten(rest[..i]))
    {
      ghost var before := a + Flatten(rest[..i]);
      order, members := AddEach(before, rest[i], order, members);
      FlattenPrefix(rest, i);
      assert a + Flatten(rest[..i + 1]) == before + rest[i];
      i := i + 1;
    }
    assert rest[..i] == rest;
    r := order;
  }

  /** The inner loop of simpleArrayUnion: `set.add` of each element of `arr`, in order, to the Set of `seen`. */
  method AddEach<T(==)>(ghost seen: seq<T>, arr: seq<T>, order: seq<T>, members: set<T>) returns (order': seq<T>, members': set<T>)
    requires order == Dedup(seen) && members == Elements(seen)
    ensures order' == Dedup(seen + arr) && members' == Elements(seen + arr)
  {
    order', members' := order, members;
    var j := 0;
    ghost var cur := seen;
    assert seen + arr[..0] == seen;
    while j < |arr|
      invariant 0 <= j <= |arr|
      invariant cur == seen + arr[..j]
      invariant order' == Dedup(cur) && members' == Elements(cur)
    {
      SetAddStep(cur, arr[j], order', members');
      PrefixSnoc(seen, arr, j);
      cur := cur + [arr[j]];
      if arr[j] !in members' {
        order' := order' + [arr[j]];
        members' := members' + {arr[j]};
      }
      j := j + 1;
    }
    assert arr[..j] == arr;
  }

  /**
   * The elements of `a`, with their duplicates and in their order, whose
   * membership in `b` equals `includeB`.
   */
  function Combine<T(==)>(a: seq<T>, b: seq<T>, includeB: bool): seq<T>
  {
    if |a| == 0 then []
    else
      var rest := Combine(a[..|a| - 1], b, includeB);
      if (a[|a| - 1] in b) == includeB then rest + [a[|a| - 1]] else rest
  }

  /**
   * simpleArrayCombine: one pass over `a`, keeping an element exactly when
   * its membership in the Set built from `b` equals `includeB`.
   */
  method SimpleArrayCombine<T(==)>(a: seq<T>, b: seq<T>, includeB: bool) returns (result: seq<T>)
    ensures result == Combine(a, b, includeB)
  {
    var members := Elements(b);
    result := [];
    var j := 0;
    while j < |a|
      invariant 0 <= j <= |a|
      invariant result == Combine(a[..j], b, includeB)
    {
      assert a[..j + 1][..j] == a[..j];
      var isInB := a[j] in members;
      if isInB == includeB {
        result := result + [a[j]];
      }
      j := j + 1;
    }
    assert a[..j] == a;
  }

  /** OO.simpleArrayIntersection: the elements of `a` that are in `b`. */
  method SimpleArrayIntersection<T(==)>(a: seq<T>, b: seq<T>) returns (r: seq<T>)
    ensures r == Combine(a, b, true)
  {
    r := SimpleArrayCombine(a, b, true);
  }

  /** OO.simpleArrayDifference: the elements of `a` that are not in `b`. */
  method SimpleArrayDifference<T(==)>(a: seq<T>, b: seq<T>) returns (r: seq<T>)
    ensures r == Combine(a, b, false)
  {
    r := SimpleArrayCombine(a, b, false);
  }

  /**
   * A value occurs in the combination exactly as often as in `a` when its
   * membership in `b` matches `includeB`, and not at all otherwise.
   */
  lemma {:induction false} CombineMultiplicity<T>(a: seq<T>, b: seq<T>, includeB: bool)
    ensures forall x ::
      multiset(Combine(a, b, includeB))[x] == if (x in b) == includeB then multiset(a)[x] else 0
  {
    if |a| > 0 {
      var init := a[..|a| - 1];
      CombineMultiplicity(init, b, includeB);
      assert a == init + [a[|a| - 1]];
    }
  }

  /** Combining distributes over concatenation of `a`, so `a`'s order is kept. */
  lemma {:induction false} CombineAppend<T>(a1: seq<T>, a2: seq<T>, b: seq<T>, includeB: bool)
    ensures Combine(a1 + a2, b, includeB) == Combine(a1, b, includeB) + Combine(a2, b, includeB)
    decreases |a2|
  {
    if |a2| == 0 {
      assert a1 + a2 == a1;
    } else {
      var init, x := a2[..|a2| - 1], a2[|a2| - 1];
      var whole := a1 + a2;
      assert whole[..|whole| - 1] == a1 + init;
      assert whole[|whole| - 1] == x;
      CombineAppend(a1, init, b, includeB);
    }
  }

  /** Intersection and difference split `a` with nothing lost or gained. */
  lemma {:induction false} IntersectionDifferencePartition<T>(a: seq<T>, b: seq<T>)
    ensures multiset(Combine(a, b, true)) + multiset(Combine(a, b, false)) == multiset(a)
  {
    if |a| > 0 {
      var init, x := a[..|a| - 1], a[|a| - 1];
      IntersectionDifferencePartition(init, b);
      assert a == init + [x];
      var both, neither := Combine(init, b, true), Combine(init, b, false);
      if x in b {
        assert Combine(a, b, true) == both + [x] && Combine(a, b, false) == neither;
      } else {
        assert Combine(a, b, true) == both && Combine(a, b, false) == neither + [x];
      }
    }
  }

  /** Cases of the unit tests: duplicates dropped, first occurrences kept in order. */
  lemma UniqueExamples()
    ensures Unique<int>([]) == []
    ensures Unique(['a', 'b', 'a']) == ['a', 'b']
    ensures Unique(['o', 'o', 'j', 's']) == ['o', 'j', 's']
  {
    assert ['a', 'b', 'a'][..2] == ['a', 'b'];
    assert ['a', 'b'][..1] == ['a'];
    assert Dedup(['a', 'b']) == ['a', 'b'];
    assert ['a', 'b'][0] == 'a';
    assert ['o', 'o', 'j', 's'][..3] == ['o', 'o', 'j'];
    assert ['o', 'o', 'j'][..2] == ['o', 'o'];
    assert ['o', 'o'][..1] == ['o'];
  }

  /** Cases of the unit tests for intersection and difference. */
  lemma CombineExamples()
    ensures Combine(['a', 'b', 'c', 'a'], ['b', 'c', 'd', 'c'], true) == ['b', 'c']
    ensures Combine(['a', 'b', 'c', 'a'], ['b', 'c', 'd', 'c'], false) == ['a', 'a']
  {
    assert ['a', 'b', 'c', 'a'][..3] == ['a', 'b', 'c'];
    assert ['a', 'b', 'c'][..2] == ['a', 'b'];
    assert ['a', 'b'][..1] == ['a'];
  }
}
