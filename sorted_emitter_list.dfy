/**
 * OO.SortedEmitterList (src/SortedEmitterList.js): an emitter list that
 * keeps its items in the order of a sorting callback. Adding an item puts it
 * where a binary search says it belongs, and an item there that the callback
 * calls equal to it is removed first.
 *
 * The callback is modelled by its answers, a `Comparator`: negative when the
 * first item sorts first, positive when it sorts last, zero for items that
 * count as equal. An item whose sort key changes changes those answers; the
 * list is then in order except for that item, which it re-sorts when the
 * item reports `itemSortChange`.
 */
module SortedItemLists {
  import opened Wrappers
  import opened Events
  import opened ArraySets
  import opened ItemLists
  import BinarySearch

  /** The answers of a sorting callback for two items, as they are now. */
  type Comparator = (Item, Item) -> int

  /**
   * What the callback must be on the items `d` it is asked about: a
   * consistent three-way comparison. The sign flips with the order of the
   * arguments, and "sorts first or equal" is transitive.
   */
  ghost predicate Consistent(cmp: Comparator, d: set<Item>) {
    && (forall a, b {:trigger cmp(a, b)} :: a in d && b in d ==> (cmp(a, b) < 0 <==> cmp(b, a) > 0))
    && (forall a, b, c {:trigger cmp(a, b), cmp(b, c)} ::
          a in d && b in d && c in d && cmp(a, b) <= 0 && cmp(b, c) <= 0 ==> cmp(a, c) <= 0)
  }

  /** Every item of `s` is in `d`. */
  predicate Within(s: seq<Item>, d: set<Item>) {
    forall x :: x in s ==> x in d
  }

  /** The items are in strictly increasing order: no two of them compare equal. */
  predicate Sorted(s: seq<Item>, cmp: Comparator) {
    forall i, j :: 0 <= i < j < |s| ==> cmp(s[i], s[j]) < 0
  }

  /** A valid comparator calls every item equal to itself, and equality is symmetric. */
  lemma ComparatorEquality(cmp: Comparator, d: set<Item>, a: Item, b: Item)
    requires Consistent(cmp, d) && a in d && b in d
    ensures cmp(a, a) == 0
    ensures cmp(a, b) == 0 <==> cmp(b, a) == 0
  {
    assert cmp(a, a) < 0 <==> cmp(a, a) > 0;
  }

  /** Sorting strictly first, then first or equal, is sorting strictly first. */
  lemma ComparatorStrict(cmp: Comparator, d: set<Item>, a: Item, b: Item, c: Item)
    requires Consistent(cmp, d) && a in d && b in d && c in d
    ensures cmp(a, b) < 0 && cmp(b, c) <= 0 ==> cmp(a, c) < 0
    ensures cmp(a, b) <= 0 && cmp(b, c) < 0 ==> cmp(a, c) < 0
  {
    assert cmp(a, c) >= 0 ==> cmp(c, a) <= 0;
  }

  /** A strictly sorted list has no repeated item. */
  lemma SortedNoDuplicates(s: seq<Item>, cmp: Comparator, d: set<Item>)
    requires Consistent(cmp, d) && Within(s, d) && Sorted(s, cmp)
    ensures NoDuplicates(s)
  {
    forall i, j | 0 <= i < j < |s| ensures s[i] != s[j] {
      ComparatorEquality(cmp, d, s[i], s[i]);
    }
  }

  /** The search function findInsertionIndex hands to binarySearch: the callback with the item first. */
  function SearchFor(cmp: Comparator, item: Item): Item -> int {
    other => cmp(item, other)
  }

  /** findInsertionIndex( item ): binarySearch with `forInsertion`, which always yields an index. */
  function InsertionIndex(items: seq<Item>, item: Item, cmp: Comparator): (r: nat)
    ensures r <= |items|
  {
    BinarySearch.SearchResult(items, SearchFor(cmp, item), true);
    BinarySearch.SearchAll(items, SearchFor(cmp, item), true).0.value
  }

  /** In a sorted list, the callback with a fixed first item is monotone, as binarySearch needs. */
  lemma SortedMonotone(items: seq<Item>, item: Item, cmp: Comparator, d: set<Item>)
    requires Consistent(cmp, d) && Within(items, d) && item in d && Sorted(items, cmp)
    ensures BinarySearch.Monotone(items, SearchFor(cmp, item))
  {
    var f := SearchFor(cmp, item);
    forall i, j | 0 <= i < j < |items|
      ensures (f(items[i]) < 0 ==> f(items[j]) < 0) && (f(items[j]) > 0 ==> f(items[i]) > 0)
    {
      ComparatorStrict(cmp, d, item, items[i], items[j]);
      ComparatorStrict(cmp, d, items[i], items[j], item);
      assert cmp(item, items[j]) > 0 <==> cmp(items[j], item) < 0;
      assert cmp(item, items[i]) > 0 <==> cmp(items[i], item) < 0;
    }
  }

  /**
   * In a sorted list the insertion index is the item's place: every item
   * before it sorts first, every item after it sorts last, the item there (if
   * any) does not sort first, and an item equal to the new one can only be
   * the one there.
   */
  lemma InsertionPoint(items: seq<Item>, item: Item, cmp: Comparator, d: set<Item>)
    requires Consistent(cmp, d) && Within(items, d) && item in d && Sorted(items, cmp)
    ensures var k := InsertionIndex(items, item, cmp);
      && (forall j :: 0 <= j < k ==> cmp(items[j], item) < 0)
      && (forall j :: k < j < |items| ==> cmp(item, items[j]) < 0)
      && (k < |items| ==> cmp(item, items[k]) <= 0)
      && (forall j :: 0 <= j < |items| && cmp(items[j], item) == 0 ==> j == k)
  {
    var f := SearchFor(cmp, item);
    var k := InsertionIndex(items, item, cmp);
    SortedMonotone(items, item, cmp, d);
    BinarySearch.MonotoneSearch(items, f, true);
    if exists j :: 0 <= j < |items| && f(items[j]) == 0 {
      assert f(items[k]) == 0;
      forall j | 0 <= j < |items|
        ensures j < k ==> cmp(items[j], item) < 0
        ensures j > k ==> cmp(item, items[j]) < 0
        ensures cmp(items[j], item) == 0 ==> j == k
      {
        ComparatorEquality(cmp, d, item, items[k]);
        ComparatorEquality(cmp, d, item, items[j]);
        if j < k {
          ComparatorStrict(cmp, d, items[j], items[k], item);
        } else if j > k {
          ComparatorStrict(cmp, d, item, items[k], items[j]);
        }
      }
    } else {
      forall j | 0 <= j < k ensures cmp(items[j], item) < 0 {
        assert f(items[j]) > 0;
      }
      forall j | 0 <= j < |items| ensures cmp(items[j], item) != 0 {
        assert f(items[j]) != 0;
        ComparatorEquality(cmp, d, item, items[j]);
      }
    }
  }

  /** The item of the list at the insertion index compares equal to the new item. */
  predicate Occupied(items: seq<Item>, item: Item, cmp: Comparator) {
    var k := InsertionIndex(items, item, cmp);
    k < |items| && cmp(items[k], item) == 0
  }

  /** The list once an equal item at the insertion index has been removed. */
  function Vacated(items: seq<Item>, item: Item, cmp: Comparator): (r: seq<Item>)
    ensures InsertionIndex(items, item, cmp) <= |r|
  {
    if Occupied(items, item, cmp) then RemoveAt(items, InsertionIndex(items, item, cmp)) else items
  }

  /** The list once the new item is inserted at its index, in place of an equal one there. */
  function SortedInsert(items: seq<Item>, item: Item, cmp: Comparator): seq<Item> {
    InsertAt(Vacated(items, item, cmp), InsertionIndex(items, item, cmp), item)
  }

  /** Inserting an item that sorts after everything before the index and before everything from it on keeps the order. */
  lemma SortedInsertAt(s: seq<Item>, k: nat, x: Item, cmp: Comparator)
    requires k <= |s| && Sorted(s, cmp)
    requires forall j :: 0 <= j < k ==> cmp(s[j], x) < 0
    requires forall j :: k <= j < |s| ==> cmp(x, s[j]) < 0
    ensures Sorted(InsertAt(s, k, x), cmp)
  {
    var r := InsertAt(s, k, x);
    forall i, j | 0 <= i < j < |r| ensures cmp(r[i], r[j]) < 0 {
      if j < k {
        assert r[i] == s[i] && r[j] == s[j];
      } else if j == k {
        assert r[i] == s[i];
      } else if i < k {
        assert r[i] == s[i] && r[j] == s[j - 1];
      } else if i == k {
        assert r[j] == s[j - 1];
      } else {
        assert r[i] == s[i - 1] && r[j] == s[j - 1];
      }
    }
  }

  /** Removing an item keeps the order. */
  lemma SortedRemoveAt(s: seq<Item>, k: nat, cmp: Comparator)
    requires k < |s| && Sorted(s, cmp)
    ensures Sorted(RemoveAt(s, k), cmp)
  {
    var r := RemoveAt(s, k);
    forall i, j | 0 <= i < j < |r| ensures cmp(r[i], r[j]) < 0 {
      var i' := if i < k then i else i + 1;
      var j' := if j < k then j else j + 1;
      assert r[i] == s[i'] && r[j] == s[j'];
    }
  }

  /** In a sorted list, an item equal to the new one can only be the item at the insertion index. */
  lemma EqualIsOccupant(items: seq<Item>, x: Item, cmp: Comparator, d: set<Item>)
    requires Consistent(cmp, d) && Within(items, d) && x in d && Sorted(items, cmp)
    ensures Occupied(items, x, cmp) <==> exists y :: y in items && cmp(y, x) == 0
    ensures forall y :: y in items ==>
      (cmp(y, x) == 0 <==> Occupied(items, x, cmp) && y == items[InsertionIndex(items, x, cmp)])
  {
    var k := InsertionIndex(items, x, cmp);
    InsertionPoint(items, x, cmp, d);
    forall y | y in items ensures cmp(y, x) == 0 <==> Occupied(items, x, cmp) && y == items[k] {
      var j :| 0 <= j < |items| && items[j] == y;
    }
    if Occupied(items, x, cmp) {
      assert items[k] in items;
    }
  }

  /**
   * The vacated list is sorted, holds the items not equal to the new one
   * (so not the new one itself), and the new item fits at the insertion
   * index.
   */
  lemma VacatedMeaning(items: seq<Item>, x: Item, cmp: Comparator, d: set<Item>)
    requires Consistent(cmp, d) && Within(items, d) && x in d && Sorted(items, cmp)
    ensures var kept, k := Vacated(items, x, cmp), InsertionIndex(items, x, cmp);
      && Sorted(kept, cmp)
      && (forall y :: y in kept <==> y in items && cmp(y, x) != 0)
      && (forall j :: 0 <= j < k ==> cmp(kept[j], x) < 0)
      && (forall j :: k <= j < |kept| ==> cmp(x, kept[j]) < 0)
  {
    var k := InsertionIndex(items, x, cmp);
    var kept := Vacated(items, x, cmp);
    InsertionPoint(items, x, cmp, d);
    EqualIsOccupant(items, x, cmp, d);
    SortedNoDuplicates(items, cmp, d);
    if Occupied(items, x, cmp) {
      SortedRemoveAt(items, k, cmp);
      forall y ensures y in kept <==> y in items && y != items[k] {
        RemoveAtMembers(items, k, y);
      }
      forall j | k <= j < |kept| ensures cmp(x, kept[j]) < 0 {
        assert kept[j] == items[j + 1];
      }
    } else {
      forall j | k <= j < |kept| ensures cmp(x, kept[j]) < 0 {
        if j == k {
          ComparatorEquality(cmp, d, x, items[k]);
        }
      }
    }
  }

  /** Inserting adds the value to the members. */
  lemma InsertAtMembers<T>(s: seq<T>, i: nat, x: T)
    requires i <= |s|
    ensures forall y :: y in InsertAt(s, i, x) <==> y == x || y in s
  {
    assert InsertAt(s, i, x) == s[..i] + [x] + s[i..];
    assert s == s[..i] + s[i..];
  }

  /**
   * One turn of addItems keeps a sorted list sorted, and the new item is
   * not in the list it is inserted into.
   */
  lemma SortedInsertSorted(items: seq<Item>, x: Item, cmp: Comparator, d: set<Item>)
    requires Consistent(cmp, d) && Within(items, d) && x in d && Sorted(items, cmp)
    ensures x !in Vacated(items, x, cmp)
    ensures Sorted(Vacated(items, x, cmp), cmp) && Sorted(SortedInsert(items, x, cmp), cmp)
  {
    VacatedMeaning(items, x, cmp, d);
    ComparatorEquality(cmp, d, x, x);
    SortedInsertAt(Vacated(items, x, cmp), InsertionIndex(items, x, cmp), x, cmp);
  }

  /**
   * One turn of addItems on a sorted list replaces an item exactly when one
   * compares equal to the new item, so the count then stays the same; the
   * result holds the new item and the items not equal to it.
   */
  lemma SortedInsertContents(items: seq<Item>, x: Item, cmp: Comparator, d: set<Item>)
    requires Consistent(cmp, d) && Within(items, d) && x in d && Sorted(items, cmp)
    ensures Occupied(items, x, cmp) <==> exists y :: y in items && cmp(y, x) == 0
    ensures |SortedInsert(items, x, cmp)| == |items| + (if Occupied(items, x, cmp) then 0 else 1)
    ensures forall y :: y in SortedInsert(items, x, cmp) <==> y == x || (y in items && cmp(y, x) != 0)
  {
    VacatedMeaning(items, x, cmp, d);
    EqualIsOccupant(items, x, cmp, d);
    InsertAtMembers(Vacated(items, x, cmp), InsertionIndex(items, x, cmp), x);
  }

  /** Why the loop of addItems stopped: a `disconnect` of the equal item threw, or insertItem did. */
  datatype Halt = Disconnecting(occupant: Item) | Inserting(error: ListError)

  /** What addItems did: the items, the events emitted, and where it stopped, if it did. */
  datatype SortedAdded = SortedAdded(items: seq<Item>, events: seq<ListEvent>, halt: Option<Halt>)

  /** The item removeItems takes out before the new one goes in: the equal one at the insertion index, if any. */
  function Evicted(items: seq<Item>, item: Item, cmp: Comparator): (r: set<Item>)
    ensures forall y :: y in r ==> y in items
  {
    if Occupied(items, item, cmp) then {items[InsertionIndex(items, item, cmp)]} else {}
  }

  /** The `remove` event of the evicted item, if any. */
  function Removal(items: seq<Item>, item: Item, cmp: Comparator): seq<ListEvent> {
    var k := InsertionIndex(items, item, cmp);
    if Occupied(items, item, cmp) then [Remove(items[k], k)] else []
  }

  /** The `remove` event of the evicted item, if any, and the `add` event of the new one. */
  function TurnEvents(items: seq<Item>, item: Item, cmp: Comparator): seq<ListEvent> {
    Removal(items, item, cmp) + [Add(item, InsertionIndex(items, item, cmp))]
  }

  /**
   * The loop of addItems. Each item goes to its insertion index; an item
   * there that compares equal is removed first (removeItems, emitting
   * `remove`), and the insertion emits `add`. `stale` holds the items whose
   * `disconnect( list )` throws: removing one of them stops the loop, as
   * does inserting an item that is not an object. A removed item has no
   * bindings of the list left, so it is no longer stale.
   */
  function SortedAddFrom(items: seq<Item>, adds: seq<Item>, cmp: Comparator, stale: set<Item>): SortedAdded
    decreases |adds|
  {
    if adds == [] then SortedAdded(items, [], None)
    else
      var x := adds[0];
      var k := InsertionIndex(items, x, cmp);
      if Occupied(items, x, cmp) && items[k] in stale then SortedAdded(items, [], Some(Disconnecting(items[k])))
      else if !IsObjectItem(x) then
        SortedAdded(Vacated(items, x, cmp), if Occupied(items, x, cmp) then [Remove(items[k], k)] else [],
                    Some(Inserting(NotAnObject(TypeofItem(x)))))
      else
        var rest := SortedAddFrom(SortedInsert(items, x, cmp), adds[1..], cmp, stale - Evicted(items, x, cmp));
        rest.(events := TurnEvents(items, x, cmp) + rest.events)
  }

  /** A turn of addItems that goes on: the rest of the loop runs on the list with the item placed. */
  lemma SortedAddFromStep(items: seq<Item>, adds: seq<Item>, cmp: Comparator, stale: set<Item>)
    requires adds != [] && IsObjectItem(adds[0])
    requires !(Occupied(items, adds[0], cmp) && items[InsertionIndex(items, adds[0], cmp)] in stale)
    ensures var rest := SortedAddFrom(SortedInsert(items, adds[0], cmp), adds[1..], cmp, stale - Evicted(items, adds[0], cmp));
      SortedAddFrom(items, adds, cmp, stale) == rest.(events := TurnEvents(items, adds[0], cmp) + rest.events)
  {
  }

  /** A loop of addItems that runs to the end went on at its first turn. */
  lemma SortedAddFromGoesOn(items: seq<Item>, adds: seq<Item>, cmp: Comparator, stale: set<Item>)
    requires adds != [] && SortedAddFrom(items, adds, cmp, stale).halt.None?
    ensures IsObjectItem(adds[0])
    ensures !(Occupied(items, adds[0], cmp) && items[InsertionIndex(items, adds[0], cmp)] in stale)
    ensures SortedAddFrom(SortedInsert(items, adds[0], cmp), adds[1..], cmp, stale - Evicted(items, adds[0], cmp)).halt.None?
  {
  }

  /** Some item of `s` compares equal to `y`. */
  ghost predicate EqualIn(s: seq<Item>, y: Item, cmp: Comparator) {
    exists a :: a in s && cmp(a, y) == 0
  }

  /** `y` is in `adds` with no later item of `adds` equal to it. */
  ghost predicate LastOfClass(adds: seq<Item>, y: Item, cmp: Comparator) {
    exists k :: 0 <= k < |adds| && adds[k] == y && !EqualIn(adds[k + 1..], y, cmp)
  }

  /** Both lists one turn of addItems can end with are sorted and hold only items of `d`. */
  lemma TurnSorted(items: seq<Item>, x: Item, cmp: Comparator, d: set<Item>)
    requires Consistent(cmp, d) && Within(items, d) && x in d && Sorted(items, cmp)
    ensures Sorted(Vacated(items, x, cmp), cmp) && Within(Vacated(items, x, cmp), d)
    ensures Sorted(SortedInsert(items, x, cmp), cmp) && Within(SortedInsert(items, x, cmp), d)
  {
    var kept, k := Vacated(items, x, cmp), InsertionIndex(items, x, cmp);
    SortedInsertSorted(items, x, cmp, d);
    assert Within(kept, d) by {
      VacatedMeaning(items, x, cmp, d);
      forall y | y in kept ensures y in d {
        assert y in items;
      }
    }
    assert Within(SortedInsert(items, x, cmp), d) by {
      assert k <= |kept| by {
        VacatedMeaning(items, x, cmp, d);
      }
      InsertAtMembers(kept, k, x);
      assert SortedInsert(items, x, cmp) == InsertAt(kept, k, x);
    }
  }

  /** addItems keeps a sorted list sorted, on every path, and only ever holds the items given. */
  lemma {:induction false} SortedAddFromSorted(items: seq<Item>, adds: seq<Item>, cmp: Comparator, stale: set<Item>, d: set<Item>)
    requires Consistent(cmp, d) && Within(items, d) && Within(adds, d) && Sorted(items, cmp)
    ensures var r := SortedAddFrom(items, adds, cmp, stale);
      Sorted(r.items, cmp) && Within(r.items, d)
    decreases |adds|
  {
    if adds != [] {
      var x := adds[0];
      assert x in adds;
      var k := InsertionIndex(items, x, cmp);
      TurnSorted(items, x, cmp, d);
      var r := SortedAddFrom(items, adds, cmp, stale);
      if Occupied(items, x, cmp) && items[k] in stale {
        assert r.items == items;
      } else if !IsObjectItem(x) {
        assert r.items == Vacated(items, x, cmp);
      } else {
        var stale' := stale - Evicted(items, x, cmp);
        assert Within(adds[1..], d);
        SortedAddFromSorted(SortedInsert(items, x, cmp), adds[1..], cmp, stale', d);
        SortedAddFromStep(items, adds, cmp, stale);
      }
    }
  }

  /** An item of `adds` is equal to `y` when the first one is or one of the others is. */
  lemma EqualInCons(adds: seq<Item>, y: Item, cmp: Comparator)
    requires adds != []
    ensures EqualIn(adds, y, cmp) <==> cmp(adds[0], y) == 0 || EqualIn(adds[1..], y, cmp)
  {
    if EqualIn(adds, y, cmp) {
      var a :| a in adds && cmp(a, y) == 0;
      if a != adds[0] {
        assert a in adds[1..];
      }
    }
    if EqualIn(adds[1..], y, cmp) {
      var a :| a in adds[1..] && cmp(a, y) == 0;
      assert a in adds;
    }
  }

  /** `y` is last of its class in `adds` when it is the first item and no other is equal, or last among the others. */
  lemma LastOfClassCons(adds: seq<Item>, y: Item, cmp: Comparator)
    requires adds != []
    ensures LastOfClass(adds, y, cmp) <==>
      (y == adds[0] && !EqualIn(adds[1..], y, cmp)) || LastOfClass(adds[1..], y, cmp)
  {
    if LastOfClass(adds, y, cmp) {
      var k :| 0 <= k < |adds| && adds[k] == y && !EqualIn(adds[k + 1..], y, cmp);
      if k > 0 {
        assert adds[1..][k - 1] == y && adds[1..][k..] == adds[k + 1..];
      }
    }
    if LastOfClass(adds[1..], y, cmp) {
      var k :| 0 <= k < |adds[1..]| && adds[1..][k] == y && !EqualIn(adds[1..][k + 1..], y, cmp);
      assert adds[k + 1] == y && adds[1..][k + 1..] == adds[k + 2..];
    }
    if y == adds[0] && !EqualIn(adds[1..], y, cmp) {
      assert adds[0 + 1..] == adds[1..];
    }
  }

  /**
   * When addItems runs to the end on a sorted list, the list holds exactly
   * the old items no added item equals, and the added items that no later
   * added item equals: an equal item replaces, the last one winning.
   */
  lemma {:induction false} SortedAddFromMembers(items: seq<Item>, adds: seq<Item>, cmp: Comparator, stale: set<Item>, d: set<Item>)
    requires Consistent(cmp, d) && Within(items, d) && Within(adds, d) && Sorted(items, cmp)
    requires SortedAddFrom(items, adds, cmp, stale).halt.None?
    ensures forall y :: y in SortedAddFrom(items, adds, cmp, stale).items <==>
      (y in items && !EqualIn(adds, y, cmp)) || LastOfClass(adds, y, cmp)
    decreases |adds|
  {
    var r := SortedAddFrom(items, adds, cmp, stale);
    if adds == [] {
      forall y ensures !EqualIn(adds, y, cmp) && !LastOfClass(adds, y, cmp) {
      }
    } else {
      var x := adds[0];
      assert x in adds;
      var items' := SortedInsert(items, x, cmp);
      var stale' := stale - Evicted(items, x, cmp);
      SortedAddFromGoesOn(items, adds, cmp, stale);
      SortedAddFromStep(items, adds, cmp, stale);
      TurnSorted(items, x, cmp, d);
      SortedInsertContents(items, x, cmp, d);
      assert Within(adds[1..], d);
      SortedAddFromMembers(items', adds[1..], cmp, stale', d);
      forall y ensures y in r.items <==> (y in items && !EqualIn(adds, y, cmp)) || LastOfClass(adds, y, cmp) {
        EqualInCons(adds, y, cmp);
        LastOfClassCons(adds, y, cmp);
        if y in items {
          ComparatorEquality(cmp, d, x, y);
        }
      }
    }
  }

  /** Splicing out a position leaves only values that were there. */
  lemma RemoveAtSubset<T>(s: seq<T>, i: nat)
    requires i < |s|
    ensures forall y :: y in RemoveAt(s, i) ==> y in s
  {
    assert RemoveAt(s, i) == s[..i] + s[i + 1..];
    assert s == s[..i] + [s[i]] + s[i + 1..];
  }

  /**
   * addItems runs to the end when every item given is an object and no item
   * of the list or given is one whose `disconnect` throws.
   */
  lemma {:induction false} SortedAddFromCompletes(items: seq<Item>, adds: seq<Item>, cmp: Comparator, stale: set<Item>)
    requires forall x :: x in adds ==> IsObjectItem(x)
    requires forall y :: y in stale ==> y !in items && y !in adds
    ensures SortedAddFrom(items, adds, cmp, stale).halt.None?
    decreases |adds|
  {
    if adds != [] {
      var x := adds[0];
      assert x in adds;
      var k := InsertionIndex(items, x, cmp);
      var kept := Vacated(items, x, cmp);
      if Occupied(items, x, cmp) {
        assert items[k] in items;
        RemoveAtSubset(items, k);
      }
      InsertAtMembers(kept, k, x);
      var stale' := stale - Evicted(items, x, cmp);
      forall y | y in stale' ensures y !in SortedInsert(items, x, cmp) && y !in adds[1..] {
        assert y in stale && y != x;
      }
      SortedAddFromCompletes(SortedInsert(items, x, cmp), adds[1..], cmp, stale');
      SortedAddFromStep(items, adds, cmp, stale);
    }
  }

  /**
   * addItems with one item on a sorted list: the item ends at the index of
   * its `add` event, after a `remove` of the item there when that one
   * compares equal; the count then stays the same, and grows by one
   * otherwise.
   */
  lemma AddOne(items: seq<Item>, x: Item, cmp: Comparator, d: set<Item>)
    requires Consistent(cmp, d) && Within(items, d) && x in d && Sorted(items, cmp)
    requires IsObjectItem(x)
    ensures var r, k := SortedAddFrom(items, [x], cmp, {}), InsertionIndex(items, x, cmp);
      && r.halt.None?
      && k < |r.items| && r.items[k] == x
      && |r.items| == |items| + (if exists y :: y in items && cmp(y, x) == 0 then 0 else 1)
      && r.events == (if Occupied(items, x, cmp) then [Remove(items[k], k)] else []) + [Add(x, k)]
  {
    var k := InsertionIndex(items, x, cmp);
    SortedInsertContents(items, x, cmp, d);
    assert [x][1..] == [];
  }

  /** No two items of the list compare equal. */
  predicate AllDistinct(s: seq<Item>, cmp: Comparator) {
    forall i, j :: 0 <= i < j < |s| ==> cmp(s[i], s[j]) != 0
  }

  /** A list without repeats holds each of its items once. */
  lemma {:induction false} NoDuplicatesMultiplicity<T>(s: seq<T>, y: T)
    requires NoDuplicates(s)
    ensures multiset(s)[y] == if y in s then 1 else 0
    decreases |s|
  {
    if s != [] {
      NoDuplicatesCons(s);
      NoDuplicatesMultiplicity(s[1..], y);
      assert s == [s[0]] + s[1..];
    }
  }

  /** Two lists without repeats and with the same items are permutations of each other. */
  lemma SameMembers<T>(a: seq<T>, b: seq<T>)
    requires NoDuplicates(a) && NoDuplicates(b)
    requires forall y :: y in a <==> y in b
    ensures multiset(a) == multiset(b)
  {
    forall y ensures multiset(a)[y] == multiset(b)[y] {
      NoDuplicatesMultiplicity(a, y);
      NoDuplicatesMultiplicity(b, y);
    }
  }

  /**
   * Adding items that no two of compare equal to an empty list, as
   * setSortingCallback does, puts all of them in the list, each once, in the
   * comparator's order.
   */
  lemma ResortDistinct(s: seq<Item>, cmp: Comparator, d: set<Item>)
    requires Consistent(cmp, d) && Within(s, d) && AllDistinct(s, cmp)
    requires forall x :: x in s ==> IsObjectItem(x)
    ensures var r := SortedAddFrom([], s, cmp, {});
      r.halt.None? && Sorted(r.items, cmp) && multiset(r.items) == multiset(s)
  {
    var r := SortedAddFrom([], s, cmp, {});
    SortedAddFromCompletes([], s, cmp, {});
    SortedAddFromSorted([], s, cmp, {}, d);
    SortedAddFromMembers([], s, cmp, {}, d);
    SortedNoDuplicates(r.items, cmp, d);
    forall y ensures y in r.items <==> y in s {
      if y in s {
        var k :| 0 <= k < |s| && s[k] == y;
        forall a | a in s[k + 1..] ensures cmp(a, y) != 0 {
          var j :| k + 1 <= j < |s| && s[j] == a;
          ComparatorEquality(cmp, d, a, y);
        }
      }
    }
    forall i, j | 0 <= i < j < |s| ensures s[i] != s[j] {
      ComparatorEquality(cmp, d, s[i], s[i]);
    }
    SameMembers(r.items, s);
  }

  /*
   * Which items' `disconnect( list )` throws, as the list's operations
   * change their bindings.
   */

  /** Appending a binding adds a stale binding exactly when that binding is stale. */
  lemma StaleAppend(t: Table, e: string, b: Binding, host: Context, world: World)
    ensures HasStale(Append(t, e, b), host, world) <==> HasStale(t, host, world) || Stale(b, host, world)
  {
    var r := Append(t, e, b);
    if HasStale(t, host, world) {
      var e', b' :| e' in t && b' in t[e'] && Stale(b', host, world);
      assert ListOf(r, e') == ListOf(t, e') + (if e' == e then [b] else []);
      assert b' in r[e'];
    }
    if Stale(b, host, world) {
      assert b in ListOf(r, e);
    }
    if HasStale(r, host, world) {
      var e', b' :| e' in r && b' in r[e'] && Stale(b', host, world);
      if b' != b || e' != e {
        assert b' in ListOf(t, e');
      }
    }
  }

  /** Connecting listeners that call `emit`, which resolves, adds no stale binding. */
  lemma {:induction false} ConnectKeepsStale(t: Table, host: object, entries: seq<(string, Spec)>, world: World)
    requires CanForward(host, world)
    requires forall i :: 0 <= i < |entries| ==> SpecMethod(entries[i].1) == Name("emit")
    ensures HasStale(ConnectSpec(t, Ref(host), entries, world).table, Ref(host), world) <==> HasStale(t, Ref(host), world)
    decreases |entries|
  {
    if entries != [] {
      var (e, spec) := entries[0];
      var b := Binding(Name("emit"), Some(SpecArgs(spec)), Ref(host), false);
      assert ValidateMethod(Name("emit"), Ref(host), world).Pass?;
      assert ConnectSpec(t, Ref(host), entries, world) == ConnectSpec(Append(t, e, b), Ref(host), entries[1..], world);
      StaleAppend(t, e, b, Ref(host), world);
      assert forall i :: 0 <= i < |entries[1..]| ==> entries[1..][i] == entries[i + 1];
      ConnectKeepsStale(Append(t, e, b), host, entries[1..], world);
    }
  }

  /** insertItem's connection of an item neither adds nor removes a stale binding. */
  lemma ConnectedKeepsStale(t: Table, agg: AggTable, host: object, ref: object, world: World)
    requires CanForward(host, world)
    ensures HasStale(Connected(t, agg, host, ref, world), Ref(host), world) <==> HasStale(t, Ref(host), world)
  {
    ConnectKeepsStale(t, host, Forwarders(agg, ref), world);
  }

  /** Once `disconnect( list )` has removed every binding of the list, none is stale. */
  lemma DisconnectedNotStale(t: Table, host: Context, world: World)
    ensures !HasStale(DisconnectAllSpec(t, host), host, world)
  {
    var r := DisconnectAllSpec(t, host);
    if HasStale(r, host, world) {
      var e, b :| e in r && b in r[e] && Stale(b, host, world);
      assert b in ListOf(r, e);
      WithoutCtxMembers(ListOf(t, e), host);
      assert false;
    }
  }

  /** removeItems( item ) for an item of a list without repeats: it goes, unless its `disconnect` throws. */
  lemma RemoveOne(items: seq<Item>, k: nat, stale: set<Item>)
    requires k < |items| && NoDuplicates(items)
    ensures RemoveFrom(items, [items[k]], stale) ==
      if items[k] in stale then Removed(items, [], true) else Removed(RemoveAt(items, k), [Remove(items[k], k)], false)
  {
    var j := IndexOf(items, items[k]);
    assert items[k] in items;
    assert [items[k]][1..] == [];
  }

  /**
   * Where the loop of addItems stands after `evs` were emitted, when turn
   * `i` goes on, removing an equal item whose `disconnect` throws, or
   * inserting a value that is not an object.
   */
  lemma AddingTurn(spec: SortedAdded, items: seq<Item>, ws: seq<Item>, i: nat, evs: seq<ListEvent>, cmp: Comparator, stale: set<Item>)
    requires i < |ws| && spec == SortedAfter(evs, SortedAddFrom(items, ws[i..], cmp, stale))
    ensures var x, k := ws[i], InsertionIndex(items, ws[i], cmp);
      if Occupied(items, x, cmp) && items[k] in stale then
        spec == SortedAdded(items, evs, Some(Disconnecting(items[k])))
      else if !IsObjectItem(x) then
        spec == SortedAdded(Vacated(items, x, cmp), evs + (if Occupied(items, x, cmp) then [Remove(items[k], k)] else []),
                            Some(Inserting(NotAnObject(TypeofItem(x)))))
      else
        spec == SortedAfter(evs + TurnEvents(items, x, cmp),
                            SortedAddFrom(SortedInsert(items, x, cmp), ws[i + 1..], cmp, stale - Evicted(items, x, cmp)))
  {
    assert ws[i..][0] == ws[i] && ws[i..][1..] == ws[i + 1..];
    var x, k := ws[i], InsertionIndex(items, ws[i], cmp);
    if !(Occupied(items, x, cmp) && items[k] in stale) && IsObjectItem(x) {
      SortedAddFromStep(items, ws[i..], cmp, stale);
      var rest := SortedAddFrom(SortedInsert(items, x, cmp), ws[i + 1..], cmp, stale - Evicted(items, x, cmp));
      Regroup(evs, TurnEvents(items, x, cmp), rest.events);
    }
  }

  /**
   * The loop of addItems before turn `i` over `ws`, on values: the items are
   * sorted, the callback is consistent on `pool` (the items given and those
   * of the list at the start), the items come from `pool`, and the rest of
   * the loop is `spec`.
   */
  ghost predicate Plan(spec: SortedAdded, ws: seq<Item>, i: nat, evs: seq<ListEvent>, items: seq<Item>, cmp: Comparator,
                       pool: seq<Item>, stale: set<Item>)
  {
    && i <= |ws| && Sorted(items, cmp)
    && Consistent(cmp, Elements(pool)) && Within(ws, Elements(pool)) && Within(items, Elements(pool))
    && spec == SortedAfter(evs, SortedAddFrom(items, ws[i..], cmp, stale))
  }

  /** The loop of addItems starts on its plan, and every way it ends leaves the items sorted. */
  lemma PlanStart(spec: SortedAdded, ws: seq<Item>, items: seq<Item>, cmp: Comparator, pool: seq<Item>, stale: set<Item>)
    requires pool == ws + items && Consistent(cmp, Elements(pool)) && Sorted(items, cmp)
    requires spec == SortedAddFrom(items, ws, cmp, stale)
    ensures Plan(spec, ws, 0, [], items, cmp, pool, stale) && Sorted(spec.items, cmp)
  {
    assert ws[0..] == ws;
    assert Within(ws, Elements(pool)) && Within(items, Elements(pool));
    SortedAddFromSorted(items, ws, cmp, stale, Elements(pool));
  }

  /**
   * One turn of the loop of addItems on values: it stops at a stale item to
   * remove or at a value that is not an object, with the list sorted either
   * way.
   */
  lemma PlanStep(spec: SortedAdded, ws: seq<Item>, i: nat, evs: seq<ListEvent>, items: seq<Item>, cmp: Comparator,
                 pool: seq<Item>, stale: set<Item>)
    requires Plan(spec, ws, i, evs, items, cmp, pool, stale) && i < |ws|
    ensures var x, k := ws[i], InsertionIndex(items, ws[i], cmp);
      && x in pool && x !in Vacated(items, x, cmp) && Sorted(Vacated(items, x, cmp), cmp)
      && (Occupied(items, x, cmp) && items[k] in stale ==>
            spec == SortedAdded(items, evs, Some(Disconnecting(items[k]))))
      && (!(Occupied(items, x, cmp) && items[k] in stale) && !IsObjectItem(x) ==>
            spec == SortedAdded(Vacated(items, x, cmp), evs + Removal(items, x, cmp), Some(Inserting(NotAnObject(TypeofItem(x))))))
  {
    var x, d := ws[i], Elements(pool);
    assert x in ws;
    SortedInsertSorted(items, x, cmp, d);
    AddingTurn(spec, items, ws, i, evs, cmp, stale);
  }

  /** A turn of the loop of addItems that inserts its item leaves the plan for the next item. */
  lemma PlanNext(spec: SortedAdded, ws: seq<Item>, i: nat, evs: seq<ListEvent>, items: seq<Item>, cmp: Comparator,
                 pool: seq<Item>, stale: set<Item>, items': seq<Item>, evs': seq<ListEvent>, stale': set<Item>)
    requires Plan(spec, ws, i, evs, items, cmp, pool, stale) && i < |ws|
    requires !(Occupied(items, ws[i], cmp) && items[InsertionIndex(items, ws[i], cmp)] in stale) && IsObjectItem(ws[i])
    requires items' == SortedInsert(items, ws[i], cmp) && evs' == evs + TurnEvents(items, ws[i], cmp)
    requires stale' == stale - Evicted(items, ws[i], cmp)
    ensures Plan(spec, ws, i + 1, evs', items', cmp, pool, stale')
  {
    var x, d := ws[i], Elements(pool);
    assert x in ws;
    TurnSorted(items, x, cmp, d);
    AddingTurn(spec, items, ws, i, evs, cmp, stale);
  }

  /** Concatenation regroups. */
  lemma ConcatAssoc<T>(a: seq<T>, b: seq<T>, c: seq<T>, d: seq<T>)
    ensures a + b + c + d == a + (b + (c + d))
  {
  }

  /** A callback consistent on some items is consistent on fewer. */
  lemma ConsistentSubset(cmp: Comparator, d: set<Item>, d': set<Item>)
    requires Consistent(cmp, d) && d' <= d
    ensures Consistent(cmp, d')
  {
  }

  /**
   * Dropping an item keeps the others, so the comparator stays consistent on
   * them and their emitters are among the old ones.
   */
  lemma KeepOne(items: seq<Item>, x: Item, cmp: Comparator)
    requires Consistent(cmp, Elements([x] + items))
    ensures Consistent(cmp, Elements([x] + Keep(items, [x])))
    ensures EmittersOf(Keep(items, [x])) <= EmittersOf(items)
  {
    var kept := Keep(items, [x]);
    forall y ensures y in kept <==> y in items && y != x {
      KeepMembers(items, [x], y);
    }
    assert Elements([x] + kept) <= Elements([x] + items);
    ConsistentSubset(cmp, Elements([x] + items), Elements([x] + kept));
    forall em | em in EmittersOf(kept) ensures em in EmittersOf(items) {
      EmittersOfMeaning(kept, em);
      EmittersOfMeaning(items, em);
    }
  }

  /**
   * addItems with one item looks at most at the staleness of the item it
   * would remove, which is an item of the list.
   */
  lemma SingleAddStale(items: seq<Item>, x: Item, cmp: Comparator, stale: set<Item>, stale': set<Item>)
    requires forall y :: y in items ==> (y in stale <==> y in stale')
    ensures SortedAddFrom(items, [x], cmp, stale) == SortedAddFrom(items, [x], cmp, stale')
  {
    assert [x][1..] == [];
    var k := InsertionIndex(items, x, cmp);
    if Occupied(items, x, cmp) {
      assert items[k] in items;
    }
  }

  /** How the error of addItems matches where its loop stopped. */
  predicate HaltMatches(h: Halt, e: ListError) {
    && (h.Disconnecting? ==> e.EmitterError?)
    && (h.Inserting? ==> e == h.error)
  }

  /** `SortedAddFrom` with the events emitted so far put in front. */
  function SortedAfter(evs: seq<ListEvent>, rest: SortedAdded): SortedAdded {
    rest.(events := evs + rest.events)
  }

  /** The `itemSortChange` binding the constructor connects: the list's own `onItemSortChange`. */
  function SelfBinding(list: object): Binding {
    Binding(Name("onItemSortChange"), Some([]), Ref(list), false)
  }

  /**
   * The constructor's `connect( this, { itemSortChange: 'onItemSortChange' } )`
   * succeeds, since the method is the list's own, and stores one binding.
   */
  lemma ConnectSelf(list: object, world: World)
    requires Lookup(world, Ref(list), "onItemSortChange").Some?
    ensures ConnectSpec(map[], Ref(list), [("itemSortChange", Plain(Name("onItemSortChange")))], world) ==
      Step(map["itemSortChange" := [SelfBinding(list)]], Pass)
  {
    var entries := [("itemSortChange", Plain(Name("onItemSortChange")))];
    var empty: Table := map[];
    assert entries[1..] == [];
    assert ListOf(empty, "itemSortChange") + [SelfBinding(list)] == [SelfBinding(list)];
    assert Append(empty, "itemSortChange", SelfBinding(list)) == map["itemSortChange" := [SelfBinding(list)]];
  }

  /**
   * The constructor's `aggregate( { sortChange: 'itemSortChange' } )` on
   * the empty table of a new list succeeds and stores that one entry.
   */
  lemma SortChangeAggregation()
    ensures AggregateSpec([], [("sortChange", Some("itemSortChange"))]) ==
      Aggregated([("sortChange", "itemSortChange")], Pass)
  {
    var entries := [("sortChange", Some("itemSortChange"))];
    assert entries[1..] == [];
    assert Keys([]) == [];
  }

  /** The event emitters of two lists together. */
  lemma EmittersOfConcat(a: seq<Item>, b: seq<Item>)
    ensures EmittersOf(a + b) == EmittersOf(a) + EmittersOf(b)
  {
    forall em ensures em in EmittersOf(a + b) <==> em in EmittersOf(a) + EmittersOf(b) {
      EmittersOfMeaning(a + b, em);
      EmittersOfMeaning(a, em);
      EmittersOfMeaning(b, em);
    }
  }

  /**
   * A sorted list of items: an EmitterList whose items stay in the order of
   * `sortingCallback`, re-sorting an item when it emits `sortChange`.
   */
  class SortedEmitterList {
    /** The EmitterList mixin: items, aggregation table and the list events emitted. */
    const list: EmitterList
    /** The EventEmitter mixin, on which the list listens to its own `itemSortChange`. */
    const emitter: EventEmitter
    /** The callback that orders the items. */
    var sortingCallback: Comparator

    /** The list keeps its own invariant and its items are in the callback's strict order. */
    ghost predicate Valid()
      reads this, list, list.Emitters()
    {
      list.Valid() && Sorted(list.items, sortingCallback)
    }

    /**
     * `new OO.SortedEmitterList( sortingCallback )`: an empty list that
     * aggregates the items' `sortChange` as `itemSortChange` and listens to
     * that with its own `onItemSortChange`. The tables are stored as the
     * `aggregate` and `connect` calls leave them on the new, empty list
     * (`SortChangeAggregation`, and `ConnectSelf` in any world where the
     * list has `onItemSortChange`).
     */
    constructor (cb: Comparator)
      ensures Valid() && list.Forwards() && fresh(list) && fresh(emitter)
      ensures sortingCallback == cb && list.items == [] && list.emitted == []
      ensures list.aggregateItemEvents == [("sortChange", "itemSortChange")]
      ensures Aggregated(list.aggregateItemEvents, Pass) == AggregateSpec([], [("sortChange", Some("itemSortChange"))])
      ensures emitter.Valid() && emitter.bindings == map["itemSortChange" := [SelfBinding(list)]]
    {
      var l := new EmitterList();
      var em := new EventEmitter();
      list := l;
      emitter := em;
      sortingCallback := cb;
      new;
      SortChangeAggregation();
      assert Keys([("sortChange", "itemSortChange")]) == ["sortChange"];
      l.aggregateItemEvents := [("sortChange", "itemSortChange")];
      em.bindings := map["itemSortChange" := [SelfBinding(l)]];
    }

    /** findInsertionIndex( item ): the binary search for the item's place under the callback. */
    method FindInsertionIndex(item: Item) returns (r: nat)
      ensures r == InsertionIndex(list.items, item, sortingCallback)
      ensures r <= |list.items|
    {
      BinarySearch.SearchResult(list.items, SearchFor(sortingCallback, item), true);
      var found, _ := BinarySearch.BinarySearch(list.items, SearchFor(sortingCallback, item), true);
      r := found.value;
    }

    /**
     * While addItems runs: every item of `pool` that is an event emitter
     * keeps its invariant, and `stale` holds exactly those whose
     * `disconnect( list )` would throw.
     */
    ghost predicate Tracked(pool: seq<Item>, stale: set<Item>, world: World)
      reads EmittersOf(pool)
    {
      forall x :: x in pool ==>
        && (x.Connectable? ==> x.em.Valid())
        && (x in stale <==> x.Connectable? && HasStale(x.em.bindings, Ref(list), world))
    }

    /**
     * The loop of addItems before turn `i` over `ws`: the list is valid and
     * holds `Plan`'s items, the events `evs` have been emitted, and `stale`
     * tracks the stale items of `pool`.
     */
    ghost predicate Adding(spec: SortedAdded, ws: seq<Item>, i: nat, evs: seq<ListEvent>, emitted0: seq<ListEvent>,
                           pool: seq<Item>, stale: set<Item>, world: World)
      reads this, list, list.Emitters(), EmittersOf(pool)
    {
      && list.Valid()
      && Plan(spec, ws, i, evs, list.items, sortingCallback, pool, stale)
      && list.emitted == emitted0 + evs
      && Tracked(pool, stale, world)
    }

    /**
     * `this.removeItems( this.items[ insertionIndex ] )` for the item at `k`:
     * it leaves the list with a `remove` event, unless its `disconnect`
     * throws, and then has no binding of the list left.
     */
    method Evict(k: nat, ghost items: seq<Item>, ghost pool: seq<Item>, ghost stale: set<Item>, world: World)
      returns (r: Outcome<ListError>)
      requires list.Valid() && list.items == items && k < |items|
      requires Within(items, Elements(pool)) && Tracked(pool, stale, world)
      modifies list, EmittersOf(pool)
      ensures list.Valid() && list.aggregateItemEvents == old(list.aggregateItemEvents)
      ensures r.Pass? <==> items[k] !in stale
      ensures r.Fail? ==> r.error.EmitterError? && list.items == items && list.emitted == old(list.emitted)
      ensures r.Pass? ==>
        && list.items == RemoveAt(items, k)
        && list.emitted == old(list.emitted) + [Remove(items[k], k)]
        && Tracked(pool, stale - {items[k]}, world)
    {
      var o := list.items[k];
      assert o in list.items;
      assert o in pool;
      assert Wrap(One(o)) == [o];
      assert EmittersOf([o]) == if o.Connectable? then {o.em} else {};
      if o.Connectable? {
        EmittersOfMeaning(pool, o.em);
      }
      ghost var before := if o.Connectable? then o.em.bindings else map[];
      assert o in list.StaleItems([o], world) <==> o in stale;
      RemoveOne(list.items, k, list.StaleItems([o], world));
      r := list.RemoveItems(One(o), world);
      if r.Pass? && o.Connectable? {
        assert o !in list.items by {
          RemoveAtMembers(items, k, o);
        }
        DisconnectAllWellFormed(before, Ref(list));
        DisconnectedNotStale(before, Ref(list), world);
      }
    }

    /**
     * `this.insertItem( item, insertionIndex )` followed by `emit( 'add' )`:
     * an object goes in at `k` and is connected to the aggregated events; a
     * value that is not an object throws.
     */
    method Place(x: Item, k: nat, ghost items: seq<Item>, ghost pool: seq<Item>, ghost stale: set<Item>, world: World)
      returns (r: Outcome<ListError>)
      requires list.Valid() && list.items == items && x !in items && k <= |items| && CanForward(list, world)
      requires x in pool && Tracked(pool, stale, world)
      modifies list, EmittersOf(pool)
      ensures list.Valid() && list.aggregateItemEvents == old(list.aggregateItemEvents)
      ensures r.Fail? <==> !IsObjectItem(x)
      ensures r.Fail? ==> r.error == NotAnObject(TypeofItem(x)) && list.items == items && list.emitted == old(list.emitted)
      ensures r.Pass? ==>
        && list.items == InsertAt(items, k, x)
        && list.emitted == old(list.emitted) + [Add(x, k)]
        && Tracked(pool, stale, world)
    {
      if x.Connectable? {
        EmittersOfMeaning(pool, x.em);
      }
      ghost var before := if x.Connectable? then x.em.bindings else map[];
      var placed := list.InsertItem(x, Some(k), world);
      if placed.Failure? {
        return Fail(placed.error);
      }
      list.emitted := list.emitted + [Add(x, placed.value)];
      if x.Connectable? {
        ConnectedKeepsStale(before, list.aggregateItemEvents, list, x.em, world);
      }
      r := Pass;
    }
  
    /**
     * One turn of the loop of addItems: find the insertion index, remove an
     * item there that compares equal, insert the item and emit `add`.
     */
    method AddTurn(x: Item, ghost ws: seq<Item>, ghost i: nat, ghost spec: SortedAdded, ghost evs: seq<ListEvent>,
                   ghost emitted0: seq<ListEvent>, ghost pool: seq<Item>, ghost stale: set<Item>, world: World)
      returns (r: Outcome<ListError>, ghost evs': seq<ListEvent>, ghost stale': set<Item>)
      requires Adding(spec, ws, i, evs, emitted0, pool, stale, world) && i < |ws| && ws[i] == x
      requires CanForward(list, world)
      modifies list, EmittersOf(pool)
      ensures list.aggregateItemEvents == old(list.aggregateItemEvents)
      ensures r.Pass? ==> Adding(spec, ws, i + 1, evs', emitted0, pool, stale', world)
      ensures r.Fail? ==>
        && list.Valid() && spec.halt.Some? && HaltMatches(spec.halt.value, r.error)
        && list.items == spec.items && list.emitted == emitted0 + spec.events
    {
      ghost var items := list.items;
      ghost var cb := sortingCallback;
      PlanStep(spec, ws, i, evs, items, cb, pool, stale);
      var k;
      k, r, stale' := Vacate(x, items, pool, stale, world);
      evs' := evs + TurnEvents(items, x, cb);
      if r.Fail? {
        return;
      }
      ghost var removal := Removal(items, x, cb);
      assert list.emitted == emitted0 + evs + removal;
      Regroup(emitted0, evs, removal);
      r := Place(x, k, list.items, pool, stale', world);
      if r.Pass? {
        assert sortingCallback == cb;
        PlanNext(spec, ws, i, evs, items, cb, pool, stale, list.items, evs', stale');
        ghost var add := [Add(x, k)];
        assert list.emitted == emitted0 + evs + removal + add;
        assert evs' == evs + (removal + add);
        ConcatAssoc(emitted0, evs, removal, add);
      }
    }

    /**
     * The first half of a turn of addItems: find the insertion index and
     * remove the item there when it compares equal.
     */
    method Vacate(x: Item, ghost items: seq<Item>, ghost pool: seq<Item>, ghost stale: set<Item>, world: World)
      returns (k: nat, r: Outcome<ListError>, ghost stale': set<Item>)
      requires list.Valid() && list.items == items && Within(items, Elements(pool)) && Tracked(pool, stale, world)
      modifies list, EmittersOf(pool)
      ensures list.Valid() && list.aggregateItemEvents == old(list.aggregateItemEvents)
      ensures k == InsertionIndex(items, x, sortingCallback)
      ensures r.Pass? <==> !(Occupied(items, x, sortingCallback) && items[k] in stale)
      ensures r.Fail? ==> r.error.EmitterError? && list.items == items && list.emitted == old(list.emitted)
      ensures r.Pass? ==>
        && list.items == Vacated(items, x, sortingCallback)
        && list.emitted == old(list.emitted) + Removal(items, x, sortingCallback)
        && stale' == stale - Evicted(items, x, sortingCallback)
        && Tracked(pool, stale', world)
    {
      k := FindInsertionIndex(x);
      stale' := stale;
      if k < |list.items| && sortingCallback(list.items[k], x) == 0 {
        ghost var o := list.items[k];
        r := Evict(k, items, pool, stale, world);
        stale' := stale - {o};
      } else {
        r := Pass;
      }
    }

    /** The loop of addItems over `ws`, stopping at the first turn that throws. */
    method AddLoop(ws: seq<Item>, ghost spec: SortedAdded, ghost pool: seq<Item>, ghost stale: set<Item>, world: World)
      returns (r: Outcome<ListError>)
      requires Valid() && CanForward(list, world)
      requires pool == ws + list.items && Consistent(sortingCallback, Elements(pool)) && Tracked(pool, stale, world)
      requires spec == SortedAddFrom(list.items, ws, sortingCallback, stale)
      modifies list, EmittersOf(pool)
      ensures Valid() && list.aggregateItemEvents == old(list.aggregateItemEvents)
      ensures list.items == spec.items && list.emitted == old(list.emitted) + spec.events
      ensures r.Pass? <==> spec.halt.None?
      ensures r.Fail? ==> spec.halt.Some? && HaltMatches(spec.halt.value, r.error)
    {
      ghost var emitted0 := list.emitted;
      ghost var evs: seq<ListEvent> := [];
      ghost var st := stale;
      ghost var cb := sortingCallback;
      PlanStart(spec, ws, list.items, cb, pool, stale);
      var i := 0;
      while i < |ws|
        invariant Adding(spec, ws, i, evs, emitted0, pool, st, world)
        invariant list.aggregateItemEvents == old(list.aggregateItemEvents)
      {
        r, evs, st := AddTurn(ws[i], ws, i, spec, evs, emitted0, pool, st, world);
        if r.Fail? {
          return;
        }
        i := i + 1;
      }
      assert ws[i..] == [];
      r := Pass;
    }

    /**
     * addItems( items ): each item in turn goes to its insertion index,
     * replacing an item there that compares equal. The list stays sorted on
     * every path; `SortedAddFrom` says what it holds and emits.
     */
    method AddItems(adds: ItemsArg, world: World) returns (r: Outcome<ListError>)
      requires Valid() && CanForward(list, world)
      requires Consistent(sortingCallback, Elements(Wrap(adds) + list.items))
      requires forall x :: x in Wrap(adds) && x.Connectable? ==> x.em.Valid()
      modifies list, EmittersOf(Wrap(adds)), list.Emitters()
      ensures Valid() && list.aggregateItemEvents == old(list.aggregateItemEvents)
      ensures var spec := SortedAddFrom(old(list.items), Wrap(adds), sortingCallback,
                                        old(list.StaleItems(Wrap(adds) + list.items, world)));
        && list.items == spec.items && list.emitted == old(list.emitted) + spec.events
        && (r.Pass? <==> spec.halt.None?)
        && (r.Fail? ==> spec.halt.Some? && HaltMatches(spec.halt.value, r.error))
    {
      var ws := Wrap(adds);
      ghost var pool := ws + list.items;
      ghost var stale := list.StaleItems(pool, world);
      ghost var spec := SortedAddFrom(list.items, ws, sortingCallback, stale);
      if ws == [] {
        return Pass;
      }
      EmittersOfConcat(ws, list.items);
      assert Tracked(pool, stale, world) by {
        forall x | x in pool && x.Connectable? ensures x.em.Valid() {
          if x in list.items {
            EmittersOfMeaning(list.items, x.em);
          }
        }
      }
      r := AddLoop(ws, spec, pool, stale, world);
    }
  
    /**
     * onItemSortChange( item ): remove the item and add it again, which puts
     * it back in its place when its sort key has changed. The rest of the
     * list is in order; the item itself may not be.
     */
    method OnItemSortChange(item: Item, world: World) returns (r: Outcome<ListError>)
      requires list.Valid() && CanForward(list, world)
      requires Sorted(Keep(list.items, [item]), sortingCallback)
      requires Consistent(sortingCallback, Elements([item] + list.items))
      requires item.Connectable? ==> item.em.Valid()
      modifies list, EmittersOf([item]), list.Emitters()
      ensures list.Valid() && list.aggregateItemEvents == old(list.aggregateItemEvents)
      ensures var rem := RemoveFrom(old(list.items), [item], old(list.StaleItems([item], world)));
        var add := SortedAddFrom(Keep(old(list.items), [item]), [item], sortingCallback, old(list.StaleItems(list.items, world)));
        if rem.stopped then
          r.Fail? && r.error.EmitterError? && list.items == old(list.items) && list.emitted == old(list.emitted)
        else
          && Valid() && list.items == add.items && list.emitted == old(list.emitted) + rem.events + add.events
          && (r.Pass? <==> add.halt.None?)
          && (r.Fail? ==> add.halt.Some? && HaltMatches(add.halt.value, r.error))
    {
      ghost var stale := list.StaleItems(list.items, world);
      ghost var kept := Keep(list.items, [item]);
      KeepOne(list.items, item, sortingCallback);
      r := TakeOut(item, world);
      if r.Fail? {
        return;
      }
      r := PutBack(item, world, kept, stale);
    }

    /**
     * The second half of onItemSortChange: addItems( item ) on the list
     * holding `kept`, which sees the stale items `stale`.
     */
    method PutBack(item: Item, world: World, ghost kept: seq<Item>, ghost stale: set<Item>) returns (r: Outcome<ListError>)
      requires Valid() && CanForward(list, world) && list.items == kept
      requires Consistent(sortingCallback, Elements([item] + kept))
      requires item.Connectable? ==> item.em.Valid()
      requires SortedAddFrom(kept, [item], sortingCallback, list.StaleItems([item] + kept, world))
               == SortedAddFrom(kept, [item], sortingCallback, stale)
      modifies list, EmittersOf([item]), list.Emitters()
      ensures var add := SortedAddFrom(kept, [item], sortingCallback, stale);
        && Valid() && list.aggregateItemEvents == old(list.aggregateItemEvents)
        && list.items == add.items && list.emitted == old(list.emitted) + add.events
        && (r.Pass? <==> add.halt.None?)
        && (r.Fail? ==> add.halt.Some? && HaltMatches(add.halt.value, r.error))
    {
      assert Wrap(One(item)) == [item];
      r := AddItems(One(item), world);
    }

    /**
     * The first half of onItemSortChange: removeItems( item ). When it does
     * not throw, the list holds the other items and adding the item again
     * sees the same stale items as before.
     */
    method TakeOut(item: Item, world: World) returns (r: Outcome<ListError>)
      requires list.Valid()
      requires item.Connectable? ==> item.em.Valid()
      modifies list, EmittersOf([item])
      ensures list.Valid() && list.aggregateItemEvents == old(list.aggregateItemEvents)
      ensures var rem := RemoveFrom(old(list.items), [item], old(list.StaleItems([item], world)));
        && (r.Fail? <==> rem.stopped)
        && list.emitted == old(list.emitted) + rem.events
        && (rem.stopped ==> r.Fail? && r.error.EmitterError? && list.items == old(list.items))
      ensures r.Pass? ==>
        && list.items == Keep(old(list.items), [item])
        && (item.Connectable? ==> item.em.Valid())
        && SortedAddFrom(list.items, [item], sortingCallback, list.StaleItems([item] + list.items, world))
           == SortedAddFrom(list.items, [item], sortingCallback, old(list.StaleItems(list.items, world)))
    {
      ghost var items := list.items;
      ghost var stale := list.StaleItems(items, world);
      ghost var before := if item.Connectable? then item.em.bindings else map[];
      assert Wrap(One(item)) == [item];
      if item in items {
        RemoveOne(items, IndexOf(items, item), list.StaleItems([item], world));
      }
      r := list.RemoveItems(One(item), world);
      if r.Fail? {
        return;
      }
      RemoveFromKeeps(items, [item], old(list.StaleItems([item], world)));
      if item.Connectable? {
        DisconnectAllWellFormed(before, Ref(list));
      }
      ghost var kept := list.items;
      ghost var mid := list.StaleItems([item] + kept, world);
      forall y | y in kept ensures y in mid <==> y in stale {
        KeepMembers(items, [item], y);
      }
      SingleAddStale(kept, item, sortingCallback, mid, stale);
    }

    /**
     * setSortingCallback( cb ): take the items, empty the list and add them
     * again under the new callback. With no stale item the list ends sorted
     * by `cb`; when no two items compare equal under it, it holds exactly
     * the items it held.
     */
    method SetSortingCallback(cb: Comparator, world: World) returns (r: Outcome<ListError>)
      requires Valid() && CanForward(list, world)
      requires Consistent(cb, Elements(list.items))
      modifies this, list, list.Emitters()
      ensures sortingCallback == cb && Valid() && list.aggregateItemEvents == old(list.aggregateItemEvents)
      ensures var f := FirstIn(old(list.items), old(list.StaleItems(list.items, world)));
        var add := SortedAddFrom([], old(list.items), cb, {});
        && (r.Pass? <==> f == |old(list.items)|)
        && (r.Fail? ==> r.error.EmitterError? && list.items == [] && list.emitted == old(list.emitted))
        && (r.Pass? ==> list.items == add.items && list.emitted == old(list.emitted) + [Clear] + add.events)
        && (r.Pass? && AllDistinct(old(list.items), cb) ==> multiset(list.items) == multiset(old(list.items)))
    {
      var items := list.items;
      sortingCallback := cb;
      r := Empty(world);
      if r.Fail? {
        return;
      }
      if AllDistinct(items, cb) {
        ResortDistinct(items, cb, Elements(items));
      }
      r := Refill(items, world);
    }

    /** The addItems of setSortingCallback: every item goes back, none of them stale. */
    method Refill(items: seq<Item>, world: World) returns (r: Outcome<ListError>)
      requires Valid() && list.items == [] && CanForward(list, world)
      requires Consistent(sortingCallback, Elements(items))
      requires forall x :: x in items ==> IsObjectItem(x)
      requires forall x :: x in items && x.Connectable? ==> x.em.Valid() && !HasStale(x.em.bindings, Ref(list), world)
      modifies list, EmittersOf(items)
      ensures Valid() && list.aggregateItemEvents == old(list.aggregateItemEvents)
      ensures var add := SortedAddFrom([], items, sortingCallback, {});
        r.Pass? && list.items == add.items && list.emitted == old(list.emitted) + add.events
    {
      assert items + [] == items;
      assert list.StaleItems(items + list.items, world) == {};
      SortedAddFromCompletes([], items, sortingCallback, {});
      r := AddItems(Many(items), world);
    }

    /**
     * The clearItems of setSortingCallback: when it succeeds, every item it
     * took out keeps its invariant and has no binding of the list left.
     */
    method Empty(world: World) returns (r: Outcome<ListError>)
      requires list.Valid()
      modifies list, list.Emitters()
      ensures list.Valid() && list.items == [] && list.aggregateItemEvents == old(list.aggregateItemEvents)
      ensures var f := FirstIn(old(list.items), old(list.StaleItems(list.items, world)));
        && (r.Pass? <==> f == |old(list.items)|)
        && (r.Fail? ==> r.error.EmitterError? && list.emitted == old(list.emitted))
        && (r.Pass? ==> list.emitted == old(list.emitted) + [Clear])
      ensures r.Pass? ==> forall x :: x in old(list.items) && x.Connectable? ==>
        x.em.Valid() && !HasStale(x.em.bindings, Ref(list), world)
    {
      ghost var items := list.items;
      ghost var before := map em | em in list.Emitters() :: em.bindings;
      forall x | x in items && x.Connectable? ensures x.em in before && WellFormed(before[x.em]) {
        EmittersOfMeaning(items, x.em);
      }
      r := list.ClearItems(world);
      if r.Pass? {
        forall x | x in items && x.Connectable?
          ensures x.em.Valid() && !HasStale(x.em.bindings, Ref(list), world)
        {
          var j :| 0 <= j < |items| && items[j] == x;
          DisconnectAllWellFormed(before[x.em], Ref(list));
          DisconnectedNotStale(before[x.em], Ref(list), world);
        }
      }
    }
  }
}
