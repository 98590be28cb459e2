/**
 * OO.EmitterList (src/EmitterList.js): an ordered list of items, most of
 * them event emitters, that forwards ("aggregates") chosen item events as
 * events of the list.
 *
 * The list is a mixin of an event emitter in JavaScript: one object holds
 * both the list's fields and its bindings. Here `EmitterList` has the list's
 * fields; the list object itself is the context (`Ref(this)`) of the
 * forwarding bindings it puts on its items. The list's own `add`, `move`,
 * `remove` and `clear` events are recorded, in order, in `emitted`;
 * calling their listeners is what `Events.EventEmitter.Emit` models.
 */
module ItemLists {
  import opened Wrappers
  import opened Events
  import opened ArraySets

  /**
   * An item as the list sees it: an object with `connect` and `disconnect`
   * (an event emitter), another object, null, or a primitive value with
   * its `typeof`.
   */
  datatype Item = Connectable(em: EventEmitter) | PlainItem(obj: object) | NullItem | Primitive(typeName: string)

  /** `item !== null && typeof item === 'object'`. */
  predicate IsObjectItem(x: Item) {
    x.Connectable? || x.PlainItem?
  }

  /** `typeof item`, which null reports as "object". */
  function TypeofItem(x: Item): string {
    match x
    case Primitive(t) => t
    case _ => "object"
  }

  /** The object an object item is. */
  function ItemRef(x: Item): object
    requires IsObjectItem(x)
  {
    if x.Connectable? then x.em else x.obj
  }

  /** An event the list emits, with its arguments. */
  datatype ListEvent =
    | Add(item: Item, index: nat)
    | Move(item: Item, index: nat, oldIndex: nat)
    | Remove(item: Item, index: nat)
    | Clear

  /** The errors the list's operations throw, or pass on from an item's `disconnect`. */
  datatype ListError =
    | NotAnObject(typeName: string)
    | NotInList
    | DuplicateAggregation(event: string)
    | EmitterError(error: MethodError)

  /** The `items` argument of addItems and removeItems: one item, or an array. */
  datatype ItemsArg = One(item: Item) | Many(items: seq<Item>)

  /** `if ( !Array.isArray( items ) ) { items = [ items ]; }` */
  function Wrap(a: ItemsArg): seq<Item> {
    match a
    case One(x) => [x]
    case Many(xs) => xs
  }

  /** normalizeArrayIndex: the index when it is inside the array, its length otherwise. */
  function NormalizeIndex(len: nat, index: Option<int>): (r: nat)
    ensures r <= len
    ensures index.Some? && 0 <= index.value < len ==> r == index.value
    ensures !(index.Some? && 0 <= index.value < len) ==> r == len
  {
    if index.None? || index.value < 0 || index.value >= len then len else index.value
  }

  /** `arr.indexOf( x )`: the first position of `x`, or -1. */
  function IndexOf<T(==)>(s: seq<T>, x: T): (r: int)
    ensures -1 <= r < |s|
    ensures r == -1 <==> x !in s
    ensures 0 <= r ==> s[r] == x && x !in s[..r]
  {
    if x in s then FirstIndex(s, x) else -1
  }

  /** `arr.splice( i, 0, x )`. */
  function InsertAt<T>(s: seq<T>, i: nat, x: T): (r: seq<T>)
    requires i <= |s|
    ensures |r| == |s| + 1 && r[i] == x
    ensures forall j :: 0 <= j < i ==> r[j] == s[j]
    ensures forall j :: i < j < |r| ==> r[j] == s[j - 1]
  {
    s[..i] + [x] + s[i..]
  }

  /** `arr.splice( i, 1 )`. */
  function RemoveAt<T>(s: seq<T>, i: nat): (r: seq<T>)
    requires i < |s|
    ensures |r| == |s| - 1
    ensures forall j :: 0 <= j < i ==> r[j] == s[j]
    ensures forall j :: i <= j < |r| ==> r[j] == s[j + 1]
  {
    s[..i] + s[i + 1..]
  }

  /** Inserting adds one occurrence of the value. */
  lemma InsertAtMultiset<T>(s: seq<T>, i: nat, x: T)
    requires i <= |s|
    ensures multiset(InsertAt(s, i, x)) == multiset(s) + multiset{x}
  {
    assert s == s[..i] + s[i..];
  }

  /** Removing takes away one occurrence of the value. */
  lemma RemoveAtMultiset<T>(s: seq<T>, i: nat)
    requires i < |s|
    ensures multiset(RemoveAt(s, i)) == multiset(s) - multiset{s[i]}
  {
    assert s == s[..i] + [s[i]] + s[i + 1..];
  }

  /** Inserting and then removing at the same position gives back the sequence. */
  lemma InsertRemove<T>(s: seq<T>, i: nat, x: T)
    requires i <= |s|
    ensures RemoveAt(InsertAt(s, i, x), i) == s
  {
  }

  /** Removing keeps the other values distinct, and drops the removed one when it was distinct. */
  lemma RemoveAtNoDuplicates<T>(s: seq<T>, i: nat)
    requires i < |s| && NoDuplicates(s)
    ensures NoDuplicates(RemoveAt(s, i)) && s[i] !in RemoveAt(s, i)
  {
    var r := RemoveAt(s, i);
    forall j | 0 <= j < |r| ensures r[j] != s[i] {
      if j >= i {
        assert r[j] == s[j + 1];
      }
    }
  }

  /** Inserting a new value keeps the values distinct. */
  lemma InsertAtNoDuplicates<T>(s: seq<T>, i: nat, x: T)
    requires i <= |s| && NoDuplicates(s) && x !in s
    ensures NoDuplicates(InsertAt(s, i, x))
  {
    var r := InsertAt(s, i, x);
    forall j, k | 0 <= j < k < |r| ensures r[j] != r[k] {
      if j < i && i < k {
        assert r[k] == s[k - 1];
      } else if j == i {
        assert r[k] == s[k - 1];
      } else if k == i {
        assert r[j] == s[j];
      }
    }
  }

  /** The position moveItem puts the item at: one less when it came from before the target. */
  function MoveTarget(from: nat, to: nat): nat {
    if from < to then to - 1 else to
  }

  /** moveItem on the array: take the item out at `from`, put it back at the adjusted target. */
  function Moved<T>(s: seq<T>, from: nat, to: nat): seq<T>
    requires from < |s| && to <= |s|
  {
    InsertAt(RemoveAt(s, from), MoveTarget(from, to), s[from])
  }

  /**
   * Moving keeps the length and the multiset of values, puts the item at
   * the adjusted target, keeps the other values in their order, and keeps
   * the values distinct.
   */
  lemma MovedMeaning<T>(s: seq<T>, from: nat, to: nat)
    requires from < |s| && to <= |s|
    ensures var r := Moved(s, from, to);
      && MoveTarget(from, to) < |s|
      && |r| == |s|
      && multiset(r) == multiset(s)
      && r[MoveTarget(from, to)] == s[from]
      && RemoveAt(r, MoveTarget(from, to)) == RemoveAt(s, from)
      && (NoDuplicates(s) ==> NoDuplicates(r))
  {
    var rest := RemoveAt(s, from);
    InsertRemove(rest, MoveTarget(from, to), s[from]);
    RemoveAtMultiset(s, from);
    InsertAtMultiset(rest, MoveTarget(from, to), s[from]);
    assert multiset(rest) + multiset{s[from]} == multiset(s);
    if NoDuplicates(s) {
      RemoveAtNoDuplicates(s, from);
      InsertAtNoDuplicates(rest, MoveTarget(from, to), s[from]);
    }
  }

  /** Membership is the same before and after a move. */
  lemma MovedMembers<T>(s: seq<T>, from: nat, to: nat, x: T)
    requires from < |s| && to <= |s|
    ensures x in Moved(s, from, to) <==> x in s
  {
    MovedMeaning(s, from, to);
    assert x in Moved(s, from, to) <==> x in multiset(Moved(s, from, to));
  }

  /** What addItems did: the items, the events emitted, how it ended, and where the next item goes. */
  datatype Added = Added(items: seq<Item>, events: seq<ListEvent>, outcome: Outcome<ListError>, next: nat)

  /** Where one item of addItems went: the items after it, the event it emitted, and the next index. */
  datatype Placed = Placed(items: seq<Item>, event: ListEvent, next: nat)

  /**
   * One turn of the loop of addItems: an item already in the list is moved
   * to the index (moveItem) and emits `move`, a new object is inserted there
   * (insertItem) and emits `add`; either way the next item goes right after
   * it. A new item that is not an object throws.
   */
  function PlaceItem(items: seq<Item>, x: Item, index: nat): (r: Result<Placed, ListError>)
    ensures r.Failure? <==> x !in items && !IsObjectItem(x)
    ensures r.Failure? ==> r.error == NotAnObject(TypeofItem(x))
  {
    var n := NormalizeIndex(|items|, Some(index));
    var oldIndex := IndexOf(items, x);
    if oldIndex >= 0 then
      var to := MoveTarget(oldIndex, n);
      Success(Placed(Moved(items, oldIndex, n), Move(x, to, oldIndex), to + 1))
    else if !IsObjectItem(x) then Failure(NotAnObject(TypeofItem(x)))
    else Success(Placed(InsertAt(items, n, x), Add(x, n), n + 1))
  }

  /** The loop of addItems from the index `index` on, up to the first item that throws. */
  function AddFrom(items: seq<Item>, adds: seq<Item>, index: nat): Added
    decreases |adds|
  {
    if adds == [] then Added(items, [], Pass, index)
    else match PlaceItem(items, adds[0], index)
      case Failure(e) => Added(items, [], Fail(e), index)
      case Success(p) =>
        var rest := AddFrom(p.items, adds[1..], p.next);
        rest.(events := [p.event] + rest.events)
  }

  /** addItems( items, index ): nothing for an empty array, else the loop from the normalized index. */
  function AddItemsSpec(items: seq<Item>, adds: ItemsArg, index: Option<int>): Added {
    if Wrap(adds) == [] then Added(items, [], Pass, 0)
    else AddFrom(items, Wrap(adds), NormalizeIndex(|items|, index))
  }

  /**
   * One turn of addItems keeps the items distinct and leaves the item just
   * before the next index.
   */
  lemma PlaceItemMeaning(items: seq<Item>, x: Item, index: nat, p: Placed)
    requires NoDuplicates(items)
    requires PlaceItem(items, x, index) == Success(p)
    ensures && NoDuplicates(p.items) && |p.items| == |items| + (if x in items then 0 else 1)
            && 0 < p.next <= |p.items| && p.items[p.next - 1] == x
  {
    PlaceItemShape(items, x, index, p);
    var n := NormalizeIndex(|items|, Some(index));
    var from := IndexOf(items, x);
    if from >= 0 {
      MovedMeaning(items, from, n);
    } else {
      InsertAtNoDuplicates(items, n, x);
    }
  }

  /** addItems keeps the items distinct. */
  lemma {:induction false} AddFromNoDuplicates(items: seq<Item>, adds: seq<Item>, index: nat)
    requires NoDuplicates(items)
    ensures NoDuplicates(AddFrom(items, adds, index).items)
    decreases |adds|
  {
    if adds != [] {
      var r := PlaceItem(items, adds[0], index);
      if r.Success? {
        PlaceItemMeaning(items, adds[0], index, r.value);
        AddFromNoDuplicates(r.value.items, adds[1..], r.value.next);
      }
    }
  }

  /** The `add` events of new items laid out from `start`. */
  function AddEvents(adds: seq<Item>, start: nat): (r: seq<ListEvent>)
    ensures |r| == |adds|
    ensures forall k :: 0 <= k < |adds| ==> r[k] == Add(adds[k], start + k)
    decreases |adds|
  {
    if adds == [] then [] else [Add(adds[0], start)] + AddEvents(adds[1..], start + 1)
  }

  /** After the first of new, distinct objects is inserted, the others are still new and distinct. */
  lemma FreshRest(items: seq<Item>, adds: seq<Item>, index: nat)
    requires index <= |items| && adds != []
    requires NoDuplicates(adds)
    requires forall x :: x in adds ==> x !in items && IsObjectItem(x)
    ensures NoDuplicates(adds[1..])
    ensures forall y :: y in adds[1..] ==> y !in InsertAt(items, index, adds[0]) && IsObjectItem(y)
  {
    var x := adds[0];
    var items' := InsertAt(items, index, x);
    assert items' == items[..index] + [x] + items[index..];
    assert x !in adds[1..] by {
      forall k | 0 <= k < |adds[1..]| ensures adds[1..][k] != x {
        assert adds[1..][k] == adds[k + 1];
      }
    }
    forall y | y in adds[1..] ensures y !in items' && IsObjectItem(y) {
      assert y in adds;
    }
    forall i, j | 0 <= i < j < |adds[1..]| ensures adds[1..][i] != adds[1..][j] {
      assert adds[1..][i] == adds[i + 1] && adds[1..][j] == adds[j + 1];
    }
  }

  /** Inserting at the index and then splicing a block right after it is splicing both. */
  lemma FreshSplice(items: seq<Item>, index: nat, adds: seq<Item>)
    requires index <= |items| && adds != []
    ensures var items' := InsertAt(items, index, adds[0]);
      items'[..index + 1] + adds[1..] + items'[index + 1..] == items[..index] + adds + items[index..]
  {
    var items' := InsertAt(items, index, adds[0]);
    assert items'[..index + 1] == items[..index] + [adds[0]];
    assert items'[index + 1..] == items[index..];
    assert [adds[0]] + adds[1..] == adds;
  }

  /**
   * New, distinct objects are inserted as one block at the index, in their
   * order, each emitting `add` with its own position.
   */
  lemma {:induction false} AddFromFresh(items: seq<Item>, adds: seq<Item>, index: nat)
    requires index <= |items|
    requires NoDuplicates(adds)
    requires forall x :: x in adds ==> x !in items && IsObjectItem(x)
    ensures AddFrom(items, adds, index) ==
      Added(items[..index] + adds + items[index..], AddEvents(adds, index), Pass, index + |adds|)
    decreases |adds|
  {
    if adds == [] {
      assert items[..index] + [] + items[index..] == items;
    } else {
      var x := adds[0];
      assert x in adds;
      var items' := InsertAt(items, index, x);
      assert PlaceItem(items, x, index) == Success(Placed(items', Add(x, index), index + 1));
      FreshRest(items, adds, index);
      AddFromFresh(items', adds[1..], index + 1);
      FreshSplice(items, index, adds);
    }
  }

  /** The values `block` sit right before position `end` of `s`. */
  predicate BlockBefore(s: seq<Item>, end: nat, block: seq<Item>) {
    |block| <= end <= |s| && forall k :: 0 <= k < |block| ==> s[end - |block| + k] == block[k]
  }

  /** A value not in the block does not occur inside it. */
  lemma BlockExcludes(s: seq<Item>, end: nat, block: seq<Item>, x: Item)
    requires BlockBefore(s, end, block) && x !in block
    ensures forall i :: end - |block| <= i < end ==> s[i] != x
  {
    forall i | end - |block| <= i < end ensures s[i] != x {
      assert s[i] == block[i - (end - |block|)];
    }
  }

  /** Moving an item from outside the block to right after it grows the block by the item. */
  lemma MovedBlock(items: seq<Item>, from: nat, index: nat, done: seq<Item>, x: Item, moved: seq<Item>, end: nat)
    requires BlockBefore(items, index, done) && from < |items|
    requires items[from] == x && x !in done
    requires moved == Moved(items, from, index) && end == MoveTarget(from, index) + 1
    ensures BlockBefore(moved, end, done + [x])
  {
    BlockExcludes(items, index, done, x);
    assert from < index - |done| || from >= index;
    var done' := done + [x];
    var rest := RemoveAt(items, from);
    var to := MoveTarget(from, index);
    var r := Moved(items, from, index);
    assert r == InsertAt(rest, to, x);
    forall k | 0 <= k < |done'| ensures r[to + 1 - |done'| + k] == done'[k] {
      if k == |done| {
        assert r[to] == x;
      } else if from < index - |done| {
        assert r[to + 1 - |done'| + k] == rest[index - |done| - 1 + k];
        assert rest[index - |done| - 1 + k] == items[index - |done| + k];
      } else {
        assert r[to + 1 - |done'| + k] == rest[index - |done| + k];
      }
    }
  }

  /** Inserting an item right after the block grows the block by the item. */
  lemma InsertedBlock(items: seq<Item>, index: nat, done: seq<Item>, x: Item, inserted: seq<Item>, end: nat)
    requires BlockBefore(items, index, done)
    requires inserted == InsertAt(items, index, x) && end == index + 1
    ensures BlockBefore(inserted, end, done + [x])
  {
    var r := InsertAt(items, index, x);
    forall k | 0 <= k < |done| + 1 ensures r[index + 1 - (|done| + 1) + k] == (done + [x])[k] {
      if k < |done| {
        assert r[index - |done| + k] == items[index - |done| + k];
      }
    }
  }

  /** One successful turn of addItems, spelled out: a move of a present item or an insert of a new one. */
  lemma PlaceItemShape(items: seq<Item>, x: Item, index: nat, p: Placed)
    requires PlaceItem(items, x, index) == Success(p)
    ensures var n := NormalizeIndex(|items|, Some(index));
      var from := IndexOf(items, x);
      if from >= 0 then
        && from < |items| && items[from] == x
        && p.items == Moved(items, from, n) && p.next == MoveTarget(from, n) + 1
      else p.items == InsertAt(items, n, x) && p.next == n + 1
  {
  }

  /**
   * One turn of addItems grows the block of items already placed right
   * before the index by the item, whether it is moved or inserted.
   */
  lemma PlaceItemBlock(items: seq<Item>, x: Item, index: nat, done: seq<Item>, p: Placed)
    requires BlockBefore(items, index, done) && x !in done
    requires PlaceItem(items, x, index) == Success(p)
    ensures BlockBefore(p.items, p.next, done + [x])
  {
    PlaceItemShape(items, x, index, p);
    assert NormalizeIndex(|items|, Some(index)) == index;
    var from := IndexOf(items, x);
    if from >= 0 {
      MovedBlock(items, from, index, done, x, p.items, p.next);
    } else {
      InsertedBlock(items, index, done, x, p.items, p.next);
    }
  }

  /**
   * The items of one addItems call end up side by side, in their order,
   * right before the returned next index.
   */
  lemma {:induction false} AddFromBlock(items: seq<Item>, adds: seq<Item>, index: nat, done: seq<Item>)
    requires BlockBefore(items, index, done)
    requires NoDuplicates(items) && NoDuplicates(done + adds)
    requires AddFrom(items, adds, index).outcome.Pass?
    ensures var r := AddFrom(items, adds, index);
      BlockBefore(r.items, r.next, done + adds)
    decreases |adds|
  {
    if adds == [] {
      assert done + adds == done;
    } else {
      var x := adds[0];
      var done' := done + [x];
      assert done' + adds[1..] == done + adds;
      assert x !in done by {
        assert (done + adds)[|done|] == x;
        forall k | 0 <= k < |done| ensures done[k] != x {
          assert (done + adds)[k] == done[k];
        }
      }
      var p := PlaceItem(items, x, index).value;
      PlaceItemBlock(items, x, index, done, p);
      PlaceItemMeaning(items, x, index, p);
      AddFromBlock(p.items, adds[1..], p.next, done');
    }
  }

  /**
   * When addItems does not throw, the items given end up side by side, in
   * their order (the last occurrence of a repeated one counting), ending
   * right before the next index.
   */
  lemma AddItemsContiguous(items: seq<Item>, adds: seq<Item>, index: Option<int>)
    requires NoDuplicates(items) && NoDuplicates(adds) && adds != []
    requires AddItemsSpec(items, Many(adds), index).outcome.Pass?
    ensures var r := AddItemsSpec(items, Many(adds), index);
      BlockBefore(r.items, r.next, adds)
  {
    assert [] + adds == adds;
    AddFromBlock(items, adds, NormalizeIndex(|items|, index), []);
  }

  /** Unit test: adding `[ a, b, c, a ]` to an empty list gives `[ b, c, a ]`. */
  lemma AddDuplicateExample(a: Item, b: Item, c: Item)
    requires IsObjectItem(a) && IsObjectItem(b) && IsObjectItem(c)
    requires a != b && b != c && a != c
    ensures AddItemsSpec([], Many([a, b, c, a]), None) ==
      Added([b, c, a], [Add(a, 0), Add(b, 1), Add(c, 2), Move(a, 2, 0)], Pass, 3)
  {
    assert [a, b, c, a][1..] == [b, c, a];
    assert [b, c, a][1..] == [c, a];
    assert [c, a][1..] == [a];
    assert [a][1..] == [];
    assert InsertAt([], 0, a) == [a];
    assert InsertAt([a], 1, b) == [a, b];
    assert InsertAt([a, b], 2, c) == [a, b, c];
    assert IndexOf([], a) == -1 && IndexOf([a], b) == -1 && IndexOf([a, b], c) == -1;
    assert PlaceItem([], a, 0) == Success(Placed([a], Add(a, 0), 1));
    assert PlaceItem([a], b, 1) == Success(Placed([a, b], Add(b, 1), 2));
    assert PlaceItem([a, b], c, 2) == Success(Placed([a, b, c], Add(c, 2), 3));
    assert IndexOf([a, b, c], a) == 0;
    assert RemoveAt([a, b, c], 0) == [b, c];
    assert Moved([a, b, c], 0, 3) == [b, c, a];
    assert PlaceItem([a, b, c], a, 3) == Success(Placed([b, c, a], Move(a, 2, 0), 3));
    assert AddFrom([b, c, a], [], 3) == Added([b, c, a], [], Pass, 3);
    assert AddFrom([a, b, c], [a], 3) == Added([b, c, a], [Move(a, 2, 0)], Pass, 3);
    assert AddFrom([a, b], [c, a], 2) == Added([b, c, a], [Add(c, 2), Move(a, 2, 0)], Pass, 3);
    assert AddFrom([a], [b, c, a], 1) == Added([b, c, a], [Add(b, 1), Add(c, 2), Move(a, 2, 0)], Pass, 3);
  }

  /** Unit test: adding the first of `[ a, b, c ]` again at index 10 moves it to the end. */
  lemma MoveToEndExample(a: Item, b: Item, c: Item)
    requires a != b && b != c && a != c
    ensures AddItemsSpec([a, b, c], One(a), Some(10)) == Added([b, c, a], [Move(a, 2, 0)], Pass, 3)
  {
    assert IndexOf([a, b, c], a) == 0;
    assert RemoveAt([a, b, c], 0) == [b, c];
    assert Moved([a, b, c], 0, 3) == [b, c, a];
    assert PlaceItem([a, b, c], a, 10) == Success(Placed([b, c, a], Move(a, 2, 0), 3));
    assert AddFrom([b, c, a], [], 3) == Added([b, c, a], [], Pass, 3);
  }

  /**
   * What removeItems did: the items left, the events emitted, and whether
   * a `disconnect` threw and stopped the loop.
   */
  datatype Removed = Removed(items: seq<Item>, events: seq<ListEvent>, stopped: bool)

  /**
   * The loop of removeItems: an item in the list is spliced out and emits
   * `remove` with the position it had; an item not in the list is skipped.
   * `stale` holds the emitters whose `disconnect( list )` throws: the loop
   * stops there, with that item still in the list.
   */
  function RemoveFrom(items: seq<Item>, rems: seq<Item>, stale: set<Item>): Removed
    decreases |rems|
  {
    if rems == [] then Removed(items, [], false)
    else
      var k := IndexOf(items, rems[0]);
      if k < 0 then RemoveFrom(items, rems[1..], stale)
      else if rems[0] in stale then Removed(items, [], true)
      else
        var rest := RemoveFrom(RemoveAt(items, k), rems[1..], stale);
        rest.(events := [Remove(rems[0], k)] + rest.events)
  }

  /** The items of `s` that are not in `drop`, in their order. */
  function Keep(s: seq<Item>, drop: seq<Item>): seq<Item>
    decreases |s|
  {
    if s == [] then []
    else (if s[0] in drop then [] else [s[0]]) + Keep(s[1..], drop)
  }

  /** Dropping a value that does not occur changes nothing. */
  lemma {:induction false} KeepAbsent(s: seq<Item>, x: Item, drop: seq<Item>)
    requires x !in s
    ensures Keep(s, [x] + drop) == Keep(s, drop)
    decreases |s|
  {
    if s != [] {
      KeepAbsent(s[1..], x, drop);
    }
  }

  /** Splicing out the only occurrence of `s[k]` is dropping it. */
  lemma {:induction false} KeepRemoveAt(s: seq<Item>, k: nat, drop: seq<Item>)
    requires k < |s| && NoDuplicates(s)
    ensures Keep(RemoveAt(s, k), drop) == Keep(s, [s[k]] + drop)
    decreases |s|
  {
    if k == 0 {
      assert RemoveAt(s, 0) == s[1..];
      RemoveAtNoDuplicates(s, 0);
      KeepAbsent(s[1..], s[0], drop);
    } else {
      assert RemoveAt(s, k)[1..] == RemoveAt(s[1..], k - 1);
      assert s[1..][k - 1] == s[k];
      KeepRemoveAt(s[1..], k - 1, drop);
      assert s[0] != s[k];
    }
  }

  /** When no disconnect throws, removeItems keeps exactly the items not named, in their order. */
  lemma {:induction false} RemoveFromKeeps(items: seq<Item>, rems: seq<Item>, stale: set<Item>)
    requires NoDuplicates(items) && !RemoveFrom(items, rems, stale).stopped
    ensures RemoveFrom(items, rems, stale).items == Keep(items, rems)
    decreases |rems|
  {
    if rems == [] {
      KeepNothing(items);
    } else {
      var x := rems[0];
      assert rems == [x] + rems[1..];
      var k := IndexOf(items, x);
      if k < 0 {
        RemoveFromKeeps(items, rems[1..], stale);
        KeepAbsent(items, x, rems[1..]);
      } else {
        RemoveAtNoDuplicates(items, k);
        RemoveFromKeeps(RemoveAt(items, k), rems[1..], stale);
        KeepRemoveAt(items, k, rems[1..]);
      }
    }
  }

  /** Splicing out a position of a list without repeats drops exactly the item there. */
  lemma RemoveAtMembers<T>(s: seq<T>, i: nat, x: T)
    requires i < |s| && NoDuplicates(s)
    ensures x in RemoveAt(s, i) <==> x in s && x != s[i]
  {
    RemoveAtNoDuplicates(s, i);
    assert s == s[..i] + [s[i]] + s[i + 1..];
    assert RemoveAt(s, i) == s[..i] + s[i + 1..];
  }

  /**
   * removeItems stops exactly when one of the items it is given is in the
   * list and its `disconnect` throws.
   */
  lemma {:induction false} RemoveFromStops(items: seq<Item>, rems: seq<Item>, stale: set<Item>)
    requires NoDuplicates(items)
    ensures RemoveFrom(items, rems, stale).stopped <==> exists x :: x in rems && x in items && x in stale
    decreases |rems|
  {
    if rems != [] {
      var x0 := rems[0];
      assert forall x :: x in rems <==> x == x0 || x in rems[1..];
      var k := IndexOf(items, x0);
      if k < 0 {
        RemoveFromStops(items, rems[1..], stale);
      } else if x0 !in stale {
        var items' := RemoveAt(items, k);
        RemoveAtNoDuplicates(items, k);
        RemoveFromStops(items', rems[1..], stale);
        forall x ensures x in items' <==> x in items && x != x0 {
          RemoveAtMembers(items, k, x);
        }
      }
    }
  }

  /** Dropping nothing keeps everything. */
  lemma {:induction false} KeepNothing(s: seq<Item>)
    ensures Keep(s, []) == s
    decreases |s|
  {
    if s != [] {
      KeepNothing(s[1..]);
    }
  }

  /** `Keep` keeps exactly the values not dropped. */
  lemma {:induction false} KeepMembers(s: seq<Item>, drop: seq<Item>, x: Item)
    ensures x in Keep(s, drop) <==> x in s && x !in drop
    decreases |s|
  {
    if s != [] {
      KeepMembers(s[1..], drop, x);
      assert x in s <==> x == s[0] || x in s[1..];
    }
  }

  /*
   * Event aggregation. `aggregateItemEvents` maps an item event to the
   * event the list emits for it; it is kept as a sequence of pairs in
   * insertion order, the order in which `for ... in` visits it.
   */

  /** The aggregated item events with their list events, in insertion order. */
  type AggTable = seq<(string, string)>

  /** The item events of an aggregation table, in order. */
  function Keys(agg: AggTable): (r: seq<string>)
    ensures |r| == |agg| && forall i :: 0 <= i < |agg| ==> r[i] == agg[i].0
  {
    seq(|agg|, i requires 0 <= i < |agg| => agg[i].0)
  }

  /** The invariant of the table: an object has each key once, and only truthy list events are stored. */
  predicate AggOk(agg: AggTable) {
    NoDuplicates(Keys(agg)) && forall i :: 0 <= i < |agg| ==> agg[i].1 != ""
  }

  /** A truthy group event: a non-empty string (null and "" are falsy). */
  predicate Truthy(g: Option<string>) {
    g.Some? && g.value != ""
  }

  /** `delete aggregateItemEvents[ ev ]`. */
  function Without(agg: AggTable, ev: string): (r: AggTable)
    ensures |r| <= |agg|
    decreases |agg|
  {
    if agg == [] then []
    else (if agg[0].0 == ev then [] else [agg[0]]) + Without(agg[1..], ev)
  }

  /** Deleting a key keeps exactly the other pairs. */
  lemma {:induction false} WithoutMembers(agg: AggTable, ev: string)
    ensures forall p :: p in Without(agg, ev) <==> p in agg && p.0 != ev
    decreases |agg|
  {
    if agg != [] {
      WithoutMembers(agg[1..], ev);
      assert forall p :: p in agg <==> p == agg[0] || p in agg[1..];
    }
  }

  /** A key is in the table exactly when some pair has it. */
  lemma KeysMembers(agg: AggTable, ev: string)
    ensures ev in Keys(agg) <==> exists g :: (ev, g) in agg
  {
    if ev in Keys(agg) {
      var i :| 0 <= i < |agg| && Keys(agg)[i] == ev;
      assert (ev, agg[i].1) in agg;
    }
  }

  /** A sequence has no duplicates exactly when its head is not repeated and its tail has none. */
  lemma NoDuplicatesCons<T>(s: seq<T>)
    requires s != []
    ensures NoDuplicates(s) <==> s[0] !in s[1..] && NoDuplicates(s[1..])
  {
    if s[0] !in s[1..] && NoDuplicates(s[1..]) {
      forall i, j | 0 <= i < j < |s| ensures s[i] != s[j] {
        if i == 0 {
          assert s[j] == s[1..][j - 1];
        } else {
          assert s[i] == s[1..][i - 1] && s[j] == s[1..][j - 1];
        }
      }
    }
    if NoDuplicates(s) {
      forall k | 0 <= k < |s[1..]| ensures s[1..][k] != s[0] {
        assert s[1..][k] == s[k + 1];
      }
    }
  }

  /** The keys left after deleting `ev` are the others. */
  lemma {:induction false} WithoutKeys(agg: AggTable, ev: string, k: string)
    ensures k in Keys(Without(agg, ev)) <==> k in Keys(agg) && k != ev
    decreases |agg|
  {
    if agg != [] {
      WithoutKeys(agg[1..], ev, k);
      assert Keys(agg) == [agg[0].0] + Keys(agg[1..]);
      var head: AggTable := if agg[0].0 == ev then [] else [agg[0]];
      assert Keys(Without(agg, ev)) == Keys(head) + Keys(Without(agg[1..], ev));
    }
  }

  /** Deleting a key keeps the keys distinct. */
  lemma {:induction false} WithoutDistinct(agg: AggTable, ev: string)
    requires NoDuplicates(Keys(agg))
    ensures NoDuplicates(Keys(Without(agg, ev)))
    decreases |agg|
  {
    if agg != [] {
      NoDuplicatesCons(Keys(agg));
      assert Keys(agg)[1..] == Keys(agg[1..]);
      WithoutDistinct(agg[1..], ev);
      var rest := Without(agg[1..], ev);
      if agg[0].0 != ev {
        var r := Without(agg, ev);
        WithoutKeys(agg[1..], ev, agg[0].0);
        assert r == [agg[0]] + rest;
        assert Keys(r) == [agg[0].0] + Keys(rest);
        NoDuplicatesCons(Keys(r));
        assert Keys(r)[1..] == Keys(rest);
      }
    }
  }

  /** Deleting a key keeps the invariant and leaves that key out. */
  lemma WithoutOk(agg: AggTable, ev: string)
    requires AggOk(agg)
    ensures AggOk(Without(agg, ev)) && ev !in Keys(Without(agg, ev))
  {
    WithoutKeys(agg, ev, ev);
    WithoutMembers(agg, ev);
    WithoutDistinct(agg, ev);
    var r := Without(agg, ev);
    forall i | 0 <= i < |r| ensures r[i].1 != "" {
      assert r[i] in agg;
    }
  }

  /** What aggregate did to the table, and how it ended. */
  datatype Aggregated = Aggregated(agg: AggTable, outcome: Outcome<ListError>)

  /**
   * One entry `ev: g` of aggregate: a truthy `g` for an event already
   * aggregated throws; otherwise an existing aggregation of `ev` is
   * deleted, and a truthy `g` is then stored last.
   */
  function AggregateStep(agg: AggTable, ev: string, g: Option<string>): Result<AggTable, ListError> {
    if ev in Keys(agg) && Truthy(g) then Failure(DuplicateAggregation(ev))
    else
      var kept := if ev in Keys(agg) then Without(agg, ev) else agg;
      if Truthy(g) then Success(kept + [(ev, g.value)]) else Success(kept)
  }

  /** aggregate( events ): the entries in turn, up to the first that throws. */
  function AggregateSpec(agg: AggTable, entries: seq<(string, Option<string>)>): Aggregated
    decreases |entries|
  {
    if entries == [] then Aggregated(agg, Pass)
    else match AggregateStep(agg, entries[0].0, entries[0].1)
      case Failure(e) => Aggregated(agg, Fail(e))
      case Success(agg') => AggregateSpec(agg', entries[1..])
  }

  /** One entry of aggregate keeps the invariant of the table. */
  lemma AggregateStepOk(agg: AggTable, ev: string, g: Option<string>)
    requires AggOk(agg) && AggregateStep(agg, ev, g).Success?
    ensures AggOk(AggregateStep(agg, ev, g).value)
  {
    var kept := if ev in Keys(agg) then Without(agg, ev) else agg;
    if ev in Keys(agg) {
      WithoutOk(agg, ev);
    }
    assert AggOk(kept) && ev !in Keys(kept);
    if Truthy(g) {
      var r := kept + [(ev, g.value)];
      assert Keys(r) == Keys(kept) + [ev];
      forall i, j | 0 <= i < j < |Keys(r)| ensures Keys(r)[i] != Keys(r)[j] {
        if j == |kept| {
          assert Keys(r)[i] == Keys(kept)[i];
        } else {
          assert Keys(r)[i] == Keys(kept)[i] && Keys(r)[j] == Keys(kept)[j];
        }
      }
    }
  }

  /** aggregate keeps the invariant of the table, including after a throw. */
  lemma {:induction false} AggregateOk(agg: AggTable, entries: seq<(string, Option<string>)>)
    requires AggOk(agg)
    ensures AggOk(AggregateSpec(agg, entries).agg)
    decreases |entries|
  {
    if entries != [] {
      var r := AggregateStep(agg, entries[0].0, entries[0].1);
      if r.Success? {
        AggregateStepOk(agg, entries[0].0, entries[0].1);
        AggregateOk(r.value, entries[1..]);
      }
    }
  }

  /**
   * Aggregate throws exactly at an entry with a truthy group event for an
   * item event already aggregated when that entry is reached.
   */
  lemma AggregateDuplicate(agg: AggTable, ev: string, g: string)
    requires (ev, g) in agg
    ensures AggregateSpec(agg, [(ev, Some("x"))]) == Aggregated(agg, Fail(DuplicateAggregation(ev)))
  {
    var k :| 0 <= k < |agg| && agg[k] == (ev, g);
    assert Keys(agg)[k] == ev;
    assert AggregateStep(agg, ev, Some("x")) == Failure(DuplicateAggregation(ev));
  }

  /** Aggregating a new event and then setting it to null gives back the table. */
  lemma AggregateRoundTrip(agg: AggTable, ev: string, g: string)
    requires ev !in Keys(agg) && g != ""
    ensures AggregateSpec(agg, [(ev, Some(g)), (ev, None)]) == Aggregated(agg, Pass)
  {
    var a1 := agg + [(ev, g)];
    assert AggregateStep(agg, ev, Some(g)) == Success(a1);
    assert Keys(a1)[|agg|] == ev;
    WithoutAppend(agg, ev, g);
    assert AggregateStep(a1, ev, None) == Success(agg);
    var second: seq<(string, Option<string>)> := [(ev, None)];
    assert [(ev, Some(g)), (ev, None)][1..] == second;
    assert second[1..] == [];
    assert AggregateSpec(a1, second) == AggregateSpec(agg, []);
  }

  /** Deleting the key just appended, absent before, gives back the table. */
  lemma {:induction false} WithoutAppend(agg: AggTable, ev: string, g: string)
    requires ev !in Keys(agg)
    ensures Without(agg + [(ev, g)], ev) == agg
    decreases |agg|
  {
    if agg == [] {
      assert Without([(ev, g)], ev) == [] + Without([], ev);
    } else {
      assert (agg + [(ev, g)])[1..] == agg[1..] + [(ev, g)];
      assert Keys(agg[1..]) == Keys(agg)[1..];
      WithoutAppend(agg[1..], ev, g);
      assert agg == [agg[0]] + agg[1..];
    }
  }

  /** `aggregateItemEvents[ ev ]` for an aggregated event. */
  function AggValue(agg: AggTable, ev: string): (g: string)
    requires ev in Keys(agg)
    ensures (ev, g) in agg
  {
    var k := FirstIndex(Keys(agg), ev);
    assert agg[k] == (ev, agg[k].1);
    agg[k].1
  }

  /** With distinct keys, the stored value of a key is the one in its pair. */
  lemma AggValueUnique(agg: AggTable, ev: string, g: string)
    requires NoDuplicates(Keys(agg)) && (ev, g) in agg
    ensures ev in Keys(agg) && AggValue(agg, ev) == g
  {
    var j :| 0 <= j < |agg| && agg[j] == (ev, g);
    assert Keys(agg)[j] == ev;
    var k := FirstIndex(Keys(agg), ev);
    assert Keys(agg)[k] == ev;
  }

  /**
   * The binding by which an item forwards one of its events: the list's
   * `emit`, called with the group event and the item, the list as context.
   */
  function ForwardBinding(g: string, host: object, ref: object): Binding {
    Binding(Name("emit"), Some([StrArg(g), RefArg(ref)]), Ref(host), false)
  }

  /** The bindings of `l` that match `m` and `c`, in their order: the complement of `RemoveMatching`. */
  function KeepMatching(l: seq<Binding>, m: Method, c: Context): (r: seq<Binding>)
    ensures |r| <= |l|
    decreases |l|
  {
    if l == [] then []
    else (if Matches(l[0], m, c) then [l[0]] else []) + KeepMatching(l[1..], m, c)
  }

  /** Keeping the matches of a concatenation keeps them of each part. */
  lemma {:induction false} KeepMatchingAppend(l1: seq<Binding>, l2: seq<Binding>, m: Method, c: Context)
    ensures KeepMatching(l1 + l2, m, c) == KeepMatching(l1, m, c) + KeepMatching(l2, m, c)
    decreases |l1|
  {
    if l1 != [] {
      var head := if Matches(l1[0], m, c) then [l1[0]] else [];
      assert (l1 + l2)[0] == l1[0] && (l1 + l2)[1..] == l1[1..] + l2;
      KeepMatchingAppend(l1[1..], l2, m, c);
      Regroup(head, KeepMatching(l1[1..], m, c), KeepMatching(l2, m, c));
      calc {
        KeepMatching(l1 + l2, m, c);
        head + KeepMatching(l1[1..] + l2, m, c);
        head + (KeepMatching(l1[1..], m, c) + KeepMatching(l2, m, c));
        (head + KeepMatching(l1[1..], m, c)) + KeepMatching(l2, m, c);
      }
    } else {
      assert l1 + l2 == l2;
    }
  }

  /** Nothing matches once the matches are removed, and removing twice is removing once. */
  lemma {:induction false} RemovedHasNoMatches(l: seq<Binding>, m: Method, c: Context)
    ensures KeepMatching(RemoveMatching(l, m, c), m, c) == []
    ensures RemoveMatching(RemoveMatching(l, m, c), m, c) == RemoveMatching(l, m, c)
    decreases |l|
  {
    if l != [] {
      var head: seq<Binding> := if Matches(l[0], m, c) then [] else [l[0]];
      RemovedHasNoMatches(l[1..], m, c);
      KeepMatchingAppend(head, RemoveMatching(l[1..], m, c), m, c);
      RemoveMatchingAppend(head, RemoveMatching(l[1..], m, c), m, c);
      assert KeepMatching(head, m, c) == [] by {
        if head != [] {
          assert head[1..] == [];
        }
      }
      assert RemoveMatching(head, m, c) == head by {
        if head != [] {
          assert head[1..] == [];
        }
      }
    }
  }

  /** The forwarding bindings an item should have on its event `e` when the list aggregates `agg`. */
  function Expected(agg: AggTable, e: string, host: object, ref: object): seq<Binding>
    decreases |agg|
  {
    if agg == [] then []
    else (if agg[0].0 == e then [ForwardBinding(agg[0].1, host, ref)] else []) + Expected(agg[1..], e, host, ref)
  }

  /** Storing a pair last adds its forwarding binding last. */
  lemma {:induction false} ExpectedAppend(agg: AggTable, ev: string, g: string, e: string, host: object, ref: object)
    ensures Expected(agg + [(ev, g)], e, host, ref) ==
      Expected(agg, e, host, ref) + (if e == ev then [ForwardBinding(g, host, ref)] else [])
    decreases |agg|
  {
    ExpectedConcat(agg, [(ev, g)], e, host, ref);
    assert [(ev, g)][1..] == [];
  }

  /** Deleting a key drops its forwarding bindings and keeps the others. */
  lemma {:induction false} ExpectedWithout(agg: AggTable, ev: string, e: string, host: object, ref: object)
    ensures Expected(Without(agg, ev), e, host, ref) == if e == ev then [] else Expected(agg, e, host, ref)
    decreases |agg|
  {
    if agg != [] {
      ExpectedWithout(agg[1..], ev, e, host, ref);
      var head: AggTable := if agg[0].0 == ev then [] else [agg[0]];
      assert Without(agg, ev) == head + Without(agg[1..], ev);
      ExpectedConcat(head, Without(agg[1..], ev), e, host, ref);
    }
  }

  /** The forwarding bindings of a concatenated table are those of each part. */
  lemma {:induction false} ExpectedConcat(a1: AggTable, a2: AggTable, e: string, host: object, ref: object)
    ensures Expected(a1 + a2, e, host, ref) == Expected(a1, e, host, ref) + Expected(a2, e, host, ref)
    decreases |a1|
  {
    if a1 != [] {
      var head := if a1[0].0 == e then [ForwardBinding(a1[0].1, host, ref)] else [];
      assert (a1 + a2)[0] == a1[0] && (a1 + a2)[1..] == a1[1..] + a2;
      ExpectedConcat(a1[1..], a2, e, host, ref);
      calc {
        Expected(a1 + a2, e, host, ref);
        head + Expected(a1[1..] + a2, e, host, ref);
        head + (Expected(a1[1..], e, host, ref) + Expected(a2, e, host, ref));
        (head + Expected(a1[1..], e, host, ref)) + Expected(a2, e, host, ref);
      }
    } else {
      assert a1 + a2 == a2;
    }
  }

  /**
   * With distinct keys an aggregated event is forwarded by exactly one
   * binding, to its group event, and any other event by none.
   */
  lemma {:induction false} ExpectedOne(agg: AggTable, e: string, host: object, ref: object)
    requires NoDuplicates(Keys(agg))
    ensures e in Keys(agg) ==> Expected(agg, e, host, ref) == [ForwardBinding(AggValue(agg, e), host, ref)]
    ensures e !in Keys(agg) ==> Expected(agg, e, host, ref) == []
    decreases |agg|
  {
    if agg != [] {
      NoDuplicatesCons(Keys(agg));
      assert Keys(agg)[1..] == Keys(agg[1..]);
      assert Keys(agg) == [agg[0].0] + Keys(agg[1..]);
      ExpectedOne(agg[1..], e, host, ref);
      if e in Keys(agg[1..]) {
        AggValueUnique(agg[1..], e, AggValue(agg[1..], e));
        assert (e, AggValue(agg[1..], e)) in agg;
        AggValueUnique(agg, e, AggValue(agg[1..], e));
      } else if e == agg[0].0 {
        assert (e, agg[0].1) in agg;
        AggValueUnique(agg, e, agg[0].1);
      }
    }
  }

  /**
   * The forwarding invariant of one item: on every event, the bindings that
   * call the list's `emit` with the list as context are exactly those the
   * aggregation table asks for.
   */
  ghost predicate Forwarding(t: Table, agg: AggTable, host: object, ref: object) {
    forall e :: KeepMatching(ListOf(t, e), Name("emit"), Ref(host)) == Expected(agg, e, host, ref)
  }

  /**
   * What one entry of aggregate does to an item's bindings: disconnect the
   * old forwarding of the event, if it was aggregated, then connect the new
   * one, if the group event is truthy.
   */
  function ForwardStep(t: Table, agg: AggTable, ev: string, g: Option<string>, host: object, ref: object): Table {
    var t1 := if ev in Keys(agg) then OffSpec(t, ev, Name("emit"), Ref(host)) else t;
    if Truthy(g) then Append(t1, ev, ForwardBinding(g.value, host, ref)) else t1
  }

  /** What aggregate does to an item's bindings: the entries in turn, up to the first that throws. */
  function ForwardingSpec(t: Table, agg: AggTable, entries: seq<(string, Option<string>)>, host: object, ref: object): Table
    decreases |entries|
  {
    if entries == [] then t
    else match AggregateStep(agg, entries[0].0, entries[0].1)
      case Failure(_) => t
      case Success(agg') => ForwardingSpec(ForwardStep(t, agg, entries[0].0, entries[0].1, host, ref), agg', entries[1..], host, ref)
  }

  /** One entry of aggregate keeps an item's forwarding in line with the table. */
  lemma ForwardStepKeeps(t: Table, agg: AggTable, ev: string, g: Option<string>, host: object, ref: object)
    requires Forwarding(t, agg, host, ref) && AggregateStep(agg, ev, g).Success?
    ensures Forwarding(ForwardStep(t, agg, ev, g, host, ref), AggregateStep(agg, ev, g).value, host, ref)
  {
    var emit, c := Name("emit"), Ref(host);
    var kept := if ev in Keys(agg) then Without(agg, ev) else agg;
    var t1 := if ev in Keys(agg) then OffSpec(t, ev, emit, c) else t;
    var t2 := ForwardStep(t, agg, ev, g, host, ref);
    var agg2 := AggregateStep(agg, ev, g).value;
    forall e ensures KeepMatching(ListOf(t1, e), emit, c) == Expected(kept, e, host, ref) {
      if ev in Keys(agg) {
        OffSpecLists(t, ev, emit, c);
        ExpectedWithout(agg, ev, e, host, ref);
        if e == ev {
          RemovedHasNoMatches(ListOf(t, ev), emit, c);
        }
      }
    }
    forall e ensures KeepMatching(ListOf(t2, e), emit, c) == Expected(agg2, e, host, ref) {
      if Truthy(g) {
        ExpectedAppend(kept, ev, g.value, e, host, ref);
        if e == ev {
          var b := ForwardBinding(g.value, host, ref);
          KeepMatchingAppend(ListOf(t1, ev), [b], emit, c);
          assert KeepMatching([b], emit, c) == [b] by {
            assert [b][1..] == [];
          }
        }
      }
    }
  }

  /** Aggregate keeps an item's forwarding in line with the table, also when it throws midway. */
  lemma {:induction false} ForwardingKeeps(t: Table, agg: AggTable, entries: seq<(string, Option<string>)>, host: object, ref: object)
    requires Forwarding(t, agg, host, ref)
    ensures Forwarding(ForwardingSpec(t, agg, entries, host, ref), AggregateSpec(agg, entries).agg, host, ref)
    decreases |entries|
  {
    if entries != [] {
      var (ev, g) := entries[0];
      var r := AggregateStep(agg, ev, g);
      if r.Success? {
        ForwardStepKeeps(t, agg, ev, g, host, ref);
        ForwardingKeeps(ForwardStep(t, agg, ev, g, host, ref), r.value, entries[1..], host, ref);
      }
    }
  }

  /** One entry of aggregate touches no binding but the forwarding ones, and keeps the table well-formed. */
  lemma ForwardStepOthers(t: Table, agg: AggTable, ev: string, g: Option<string>, host: object, ref: object)
    ensures var t2 := ForwardStep(t, agg, ev, g, host, ref);
      forall e :: RemoveMatching(ListOf(t2, e), Name("emit"), Ref(host)) == RemoveMatching(ListOf(t, e), Name("emit"), Ref(host))
    ensures WellFormed(t) ==> WellFormed(ForwardStep(t, agg, ev, g, host, ref))
  {
    var emit, c := Name("emit"), Ref(host);
    var t1 := if ev in Keys(agg) then OffSpec(t, ev, emit, c) else t;
    var t2 := ForwardStep(t, agg, ev, g, host, ref);
    if ev in Keys(agg) {
      OffSpecLists(t, ev, emit, c);
      RemovedHasNoMatches(ListOf(t, ev), emit, c);
    }
    if Truthy(g) {
      var b := ForwardBinding(g.value, host, ref);
      RemoveMatchingAppend(ListOf(t1, ev), [b], emit, c);
      assert RemoveMatching([b], emit, c) == [] by {
        assert [b][1..] == [];
      }
      assert BindingOk(b);
    }
  }

  /** Aggregate touches no binding of an item but the forwarding ones, and keeps its table well-formed. */
  lemma {:induction false} ForwardingOthers(t: Table, agg: AggTable, entries: seq<(string, Option<string>)>, host: object, ref: object)
    ensures var t2 := ForwardingSpec(t, agg, entries, host, ref);
      forall e :: RemoveMatching(ListOf(t2, e), Name("emit"), Ref(host)) == RemoveMatching(ListOf(t, e), Name("emit"), Ref(host))
    ensures WellFormed(t) ==> WellFormed(ForwardingSpec(t, agg, entries, host, ref))
    decreases |entries|
  {
    if entries != [] {
      var (ev, g) := entries[0];
      var r := AggregateStep(agg, ev, g);
      if r.Success? {
        ForwardStepOthers(t, agg, ev, g, host, ref);
        ForwardingOthers(ForwardStep(t, agg, ev, g, host, ref), r.value, entries[1..], host, ref);
      }
    }
  }

  /** The entries insertItem connects a new item with: `{ ev: [ 'emit', group, item ] }` for each aggregated event. */
  function Forwarders(agg: AggTable, ref: object): (r: seq<(string, Spec)>)
    ensures |r| == |agg|
    ensures forall i :: 0 <= i < |agg| ==> r[i] == (agg[i].0, Listed(Name("emit"), [StrArg(agg[i].1), RefArg(ref)]))
  {
    seq(|agg|, i requires 0 <= i < |agg| => (agg[i].0, Listed(Name("emit"), [StrArg(agg[i].1), RefArg(ref)])))
  }

  /** The list's `emit` can be called: the list mixes in an event emitter. */
  predicate CanForward(host: object, world: World) {
    Lookup(world, Ref(host), "emit").Some?
  }

  /** Connecting with the forwarders of a table stores the first one, then connects with the others. */
  lemma ConnectFirstForwarder(t: Table, agg: AggTable, host: object, ref: object, world: World)
    requires CanForward(host, world) && agg != []
    ensures var t' := Append(t, agg[0].0, ForwardBinding(agg[0].1, host, ref));
      ConnectSpec(t, Ref(host), Forwarders(agg, ref), world) == ConnectSpec(t', Ref(host), Forwarders(agg[1..], ref), world)
  {
    var fw := Forwarders(agg, ref);
    assert fw[0] == (agg[0].0, Listed(Name("emit"), [StrArg(agg[0].1), RefArg(ref)]));
    assert fw[1..] == Forwarders(agg[1..], ref);
  }

  /** Storing the first forwarder adds it to the forwarding bindings of its own event only. */
  lemma FirstForwarderKept(t: Table, t': Table, agg: AggTable, host: object, ref: object, e: string)
    requires agg != [] && t' == Append(t, agg[0].0, ForwardBinding(agg[0].1, host, ref))
    ensures KeepMatching(ListOf(t', e), Name("emit"), Ref(host)) + Expected(agg[1..], e, host, ref) ==
            KeepMatching(ListOf(t, e), Name("emit"), Ref(host)) + Expected(agg, e, host, ref)
  {
    var emit, c := Name("emit"), Ref(host);
    var b := ForwardBinding(agg[0].1, host, ref);
    var l := ListOf(t, e);
    var rest := Expected(agg[1..], e, host, ref);
    if e == agg[0].0 {
      assert ListOf(t', e) == l + [b];
      KeepMatchingSnoc(l, b, emit, c);
      assert Expected(agg, e, host, ref) == [b] + rest;
      Regroup(KeepMatching(l, emit, c), [b], rest);
    } else {
      assert ListOf(t', e) == l;
      assert Expected(agg, e, host, ref) == [] + rest;
      assert [] + rest == rest;
    }
  }

  /** Keeping the matches of a list with one more matching binding keeps that binding last. */
  lemma KeepMatchingSnoc(l: seq<Binding>, b: Binding, m: Method, c: Context)
    requires Matches(b, m, c)
    ensures KeepMatching(l + [b], m, c) == KeepMatching(l, m, c) + [b]
  {
    KeepMatchingAppend(l, [b], m, c);
    assert [b][1..] == [];
    assert KeepMatching([b], m, c) == [b];
  }

  /** Storing the first forwarder leaves the bindings that do not forward as they were. */
  lemma FirstForwarderOthers(t: Table, t': Table, agg: AggTable, host: object, ref: object, e: string)
    requires agg != [] && t' == Append(t, agg[0].0, ForwardBinding(agg[0].1, host, ref))
    ensures RemoveMatching(ListOf(t', e), Name("emit"), Ref(host)) == RemoveMatching(ListOf(t, e), Name("emit"), Ref(host))
  {
    var emit, c := Name("emit"), Ref(host);
    var b := ForwardBinding(agg[0].1, host, ref);
    if e == agg[0].0 {
      assert RemoveMatching([b], emit, c) == [] by {
        assert [b][1..] == [];
      }
      RemoveMatchingAppend(ListOf(t, e), [b], emit, c);
      assert ListOf(t, e) + [] == ListOf(t, e);
    }
  }

  /** Storing the first forwarder adds it to the forwarding bindings of its event and to nothing else. */
  lemma FirstForwarderStored(t: Table, t': Table, agg: AggTable, host: object, ref: object)
    requires agg != [] && t' == Append(t, agg[0].0, ForwardBinding(agg[0].1, host, ref))
    ensures forall e :: KeepMatching(ListOf(t', e), Name("emit"), Ref(host)) + Expected(agg[1..], e, host, ref) ==
                        KeepMatching(ListOf(t, e), Name("emit"), Ref(host)) + Expected(agg, e, host, ref)
    ensures forall e :: RemoveMatching(ListOf(t', e), Name("emit"), Ref(host)) == RemoveMatching(ListOf(t, e), Name("emit"), Ref(host))
  {
    forall e
      ensures KeepMatching(ListOf(t', e), Name("emit"), Ref(host)) + Expected(agg[1..], e, host, ref) ==
              KeepMatching(ListOf(t, e), Name("emit"), Ref(host)) + Expected(agg, e, host, ref)
    {
      FirstForwarderKept(t, t', agg, host, ref, e);
    }
    forall e
      ensures RemoveMatching(ListOf(t', e), Name("emit"), Ref(host)) == RemoveMatching(ListOf(t, e), Name("emit"), Ref(host))
    {
      FirstForwarderOthers(t, t', agg, host, ref, e);
    }
  }

  /**
   * Connecting an item with the forwarders of the table succeeds, adds to
   * each event exactly the forwarding bindings the table asks for, and
   * adds nothing else.
   */
  lemma {:induction false} ConnectForwarders(t: Table, agg: AggTable, host: object, ref: object, world: World)
    requires CanForward(host, world)
    ensures var s := ConnectSpec(t, Ref(host), Forwarders(agg, ref), world);
      && s.outcome.Pass?
      && (forall e :: KeepMatching(ListOf(s.table, e), Name("emit"), Ref(host)) ==
            KeepMatching(ListOf(t, e), Name("emit"), Ref(host)) + Expected(agg, e, host, ref))
      && (forall e :: RemoveMatching(ListOf(s.table, e), Name("emit"), Ref(host)) ==
            RemoveMatching(ListOf(t, e), Name("emit"), Ref(host)))
    decreases |agg|
  {
    if agg == [] {
      forall e ensures KeepMatching(ListOf(t, e), Name("emit"), Ref(host)) + [] == KeepMatching(ListOf(t, e), Name("emit"), Ref(host)) {
      }
    } else {
      var t' := Append(t, agg[0].0, ForwardBinding(agg[0].1, host, ref));
      ConnectFirstForwarder(t, agg, host, ref, world);
      ConnectForwarders(t', agg[1..], host, ref, world);
      FirstForwarderStored(t, t', agg, host, ref);
    }
  }

  /**
   * An item that had no forwarding bindings of the list forwards exactly
   * the aggregated events once insertItem has connected it.
   */
  lemma InsertedForwarding(t: Table, agg: AggTable, host: object, ref: object, world: World)
    requires CanForward(host, world)
    requires forall e :: KeepMatching(ListOf(t, e), Name("emit"), Ref(host)) == []
    ensures Forwarding(ConnectSpec(t, Ref(host), Forwarders(agg, ref), world).table, agg, host, ref)
  {
    ConnectForwarders(t, agg, host, ref, world);
    forall e ensures [] + Expected(agg, e, host, ref) == Expected(agg, e, host, ref) {
    }
  }

  /** Disconnecting one forwarder is `off` of the list's `emit` on that event. */
  lemma DisconnectForwarder(t: Table, ev: string, args: seq<Arg>, host: object, world: World)
    requires CanForward(host, world)
    ensures DisconnectSpec(t, Ref(host), [(ev, Listed(Name("emit"), args))], world) ==
      Step(OffSpec(t, ev, Name("emit"), Ref(host)), Pass)
  {
    var entries := [(ev, Listed(Name("emit"), args))];
    assert entries[1..] == [];
  }

  /** Connecting one forwarder appends its binding. */
  lemma ConnectForwarder(t: Table, ev: string, g: string, host: object, ref: object, world: World)
    requires CanForward(host, world)
    ensures ConnectSpec(t, Ref(host), [(ev, Listed(Name("emit"), [StrArg(g), RefArg(ref)]))], world) ==
      Step(Append(t, ev, ForwardBinding(g, host, ref)), Pass)
  {
    var entries := [(ev, Listed(Name("emit"), [StrArg(g), RefArg(ref)]))];
    assert entries[1..] == [];
  }

  /** The event emitters among the items. */
  function EmittersOf(s: seq<Item>): set<EventEmitter> {
    set x | x in s && x.Connectable? :: x.em
  }

  /** An event emitter is among the emitters of a list exactly when its item is in it. */
  lemma EmittersOfMeaning(s: seq<Item>, em: EventEmitter)
    ensures em in EmittersOf(s) <==> Connectable(em) in s
  {
    if Connectable(em) in s {
      assert Connectable(em).em == em;
    }
  }

  /** An item's bindings once insertItem has connected it to the aggregated events. */
  function Connected(t: Table, agg: AggTable, host: object, ref: object, world: World): Table {
    ConnectSpec(t, Ref(host), Forwarders(agg, ref), world).table
  }

  /** The item has no binding that calls the list's `emit` with the list as context. */
  ghost predicate NoForwards(t: Table, host: object) {
    forall e :: KeepMatching(ListOf(t, e), Name("emit"), Ref(host)) == []
  }

  /** `AddFrom` with the events emitted so far put in front. */
  function After(evs: seq<ListEvent>, rest: Added): Added {
    rest.(events := evs + rest.events)
  }

  /** `RemoveFrom` with the events emitted so far put in front. */
  function AfterRemoved(evs: seq<ListEvent>, rest: Removed): Removed {
    rest.(events := evs + rest.events)
  }

  /**
   * Where the loop of removeItems stands after `evs` were emitted, when turn
   * `i` skips an absent item, stops at a stale one, or removes the item.
   */
  lemma RemovingTurn(spec: Removed, items: seq<Item>, ws: seq<Item>, i: nat, evs: seq<ListEvent>, stale: set<Item>)
    requires i < |ws| && spec == AfterRemoved(evs, RemoveFrom(items, ws[i..], stale))
    ensures var x, k := ws[i], IndexOf(items, ws[i]);
      if k < 0 then spec == AfterRemoved(evs, RemoveFrom(items, ws[i + 1..], stale))
      else if x in stale then spec == Removed(items, evs, true)
      else spec == AfterRemoved(evs + [Remove(x, k)], RemoveFrom(RemoveAt(items, k), ws[i + 1..], stale))
  {
    assert ws[i..][0] == ws[i] && ws[i..][1..] == ws[i + 1..];
    var x, k := ws[i], IndexOf(items, ws[i]);
    if k >= 0 && x in stale {
      assert evs + [] == evs;
    } else if k >= 0 {
      var rest := RemoveFrom(RemoveAt(items, k), ws[i + 1..], stale);
      Regroup(evs, [Remove(x, k)], rest.events);
    }
  }

  /** Inserting a new item keeps the items distinct and adds it, and its emitter, to the rest. */
  lemma InsertKeeps(s: seq<Item>, i: nat, x: Item)
    requires i <= |s| && NoDuplicates(s) && x !in s
    ensures NoDuplicates(InsertAt(s, i, x))
    ensures forall y :: y in InsertAt(s, i, x) <==> y in s || y == x
    ensures EmittersOf(InsertAt(s, i, x)) == EmittersOf(s) + EmittersOf([x])
  {
    InsertAtNoDuplicates(s, i, x);
    assert InsertAt(s, i, x) == s[..i] + [x] + s[i..];
    assert s == s[..i] + s[i..];
  }

  /** The position of the first item of `s` in `stop`, or `|s|` when there is none. */
  function FirstIn(s: seq<Item>, stop: set<Item>): (r: nat)
    ensures r <= |s|
    ensures forall j :: 0 <= j < r ==> s[j] !in stop
    ensures r < |s| ==> s[r] in stop
    decreases |s|
  {
    if s == [] || s[0] in stop then 0 else 1 + FirstIn(s[1..], stop)
  }

  /** Splicing out an item keeps the items distinct and drops it, and its emitter, from the rest. */
  lemma RemoveKeeps(s: seq<Item>, k: nat)
    requires k < |s| && NoDuplicates(s)
    ensures NoDuplicates(RemoveAt(s, k))
    ensures forall y :: y in RemoveAt(s, k) <==> y in s && y != s[k]
    ensures EmittersOf(RemoveAt(s, k)) == EmittersOf(s) - EmittersOf([s[k]])
  {
    forall y ensures y in RemoveAt(s, k) <==> y in s && y != s[k] {
      RemoveAtMembers(s, k, y);
    }
    assert EmittersOf([s[k]]) == if s[k].Connectable? then {s[k].em} else {};
  }

  /** The bindings of every context other than `host` are as in `t0`. */
  ghost predicate OthersKept(t: Table, t0: Table, host: Context) {
    forall e :: WithoutCtx(ListOf(t, e), host) == WithoutCtx(ListOf(t0, e), host)
  }

  /**
   * `item.disconnect( list )`, the call removeItems and clearItems make:
   * every binding of the list goes, or the call throws at a binding whose
   * method the list no longer has, the bindings of other contexts kept.
   */
  method DisconnectList(em: EventEmitter, list: object, world: World) returns (o: Outcome<MethodError>)
    requires em.Valid()
    modifies em
    ensures em.Valid()
    ensures o.Fail? <==> HasStale(old(em.bindings), Ref(list), world)
    ensures o.Pass? ==> em.bindings == DisconnectAllSpec(old(em.bindings), Ref(list))
    ensures o.Fail? ==> OthersKept(em.bindings, old(em.bindings), Ref(list))
  {
    o := em.Disconnect(Ref(list), None, world);
  }

  /** Moving an item keeps the items distinct, and the same items and emitters. */
  lemma MovedKeeps(s: seq<Item>, from: nat, to: nat)
    requires from < |s| && to <= |s| && NoDuplicates(s)
    ensures NoDuplicates(Moved(s, from, to))
    ensures forall y :: y in Moved(s, from, to) <==> y in s
    ensures EmittersOf(Moved(s, from, to)) == EmittersOf(s)
  {
    MovedMeaning(s, from, to);
    forall y ensures y in Moved(s, from, to) <==> y in s {
      MovedMembers(s, from, to, y);
    }
  }

  /** One turn of the loop of addItems moves the events emitted so far by one. */
  lemma AddFromStep(items: seq<Item>, adds: seq<Item>, index: nat, evs: seq<ListEvent>, p: Placed)
    requires adds != [] && PlaceItem(items, adds[0], index) == Success(p)
    ensures After(evs, AddFrom(items, adds, index)) == After(evs + [p.event], AddFrom(p.items, adds[1..], p.next))
  {
  }

  /** A turn of addItems that fails ends the loop with what was done so far. */
  lemma AddFromFail(items: seq<Item>, adds: seq<Item>, index: nat, evs: seq<ListEvent>)
    requires adds != [] && PlaceItem(items, adds[0], index).Failure?
    ensures After(evs, AddFrom(items, adds, index)) == Added(items, evs, Fail(PlaceItem(items, adds[0], index).error), index)
  {
  }

  class EmitterList {
    /** The items, in order. */
    var items: seq<Item>
    /** aggregateItemEvents: item event to list event, in insertion order. */
    var aggregateItemEvents: AggTable
    /** The `add`, `move`, `remove` and `clear` events the list has emitted, in order. */
    var emitted: seq<ListEvent>

    /** The event emitters among the items. */
    ghost function Emitters(): set<EventEmitter>
      reads this
    {
      EmittersOf(items)
    }

    /**
     * The invariant of the list: every item is an object and occurs once,
     * the aggregation table has each key once and truthy values, and the
     * items' emitters keep their own invariant.
     */
    ghost predicate Valid()
      reads this, Emitters()
    {
      && (forall x :: x in items ==> IsObjectItem(x))
      && NoDuplicates(items)
      && AggOk(aggregateItemEvents)
      && (forall em :: em in Emitters() ==> em.Valid())
    }

    /** Every event emitter among the items forwards exactly the aggregated events. */
    ghost predicate Forwards()
      reads this, Emitters()
    {
      forall em :: em in Emitters() ==> Forwarding(em.bindings, aggregateItemEvents, this, em)
    }

    /** `new OO.EmitterList()`: no items, nothing aggregated. */
    constructor ()
      ensures Valid() && Forwards()
      ensures items == [] && aggregateItemEvents == [] && emitted == []
    {
      items := [];
      aggregateItemEvents := [];
      emitted := [];
    }

    /** getItemIndex: the position of the item, -1 when it is not in the list. */
    function GetItemIndex(item: Item): (r: int)
      reads this
      ensures -1 <= r < |items|
      ensures r == -1 <==> item !in items
      ensures 0 <= r ==> items[r] == item
    {
      IndexOf(items, item)
    }

    /** getItems: a copy of the items, in which each item sits at the position getItemIndex reports. */
    function GetItems(): (r: seq<Item>)
      reads this, Emitters()
      requires Valid()
      ensures |r| == GetItemCount()
      ensures forall i :: 0 <= i < |r| ==> GetItemIndex(r[i]) == i
    {
      var copy := items[0..];
      forall i | 0 <= i < |copy| ensures GetItemIndex(copy[i]) == i {
        var k := IndexOf(items, copy[i]);
        assert items[k] == items[i];
      }
      copy
    }

    /** getItemCount: the number of items, zero exactly when the list is empty. */
    function GetItemCount(): (r: nat)
      reads this
      ensures r == 0 <==> IsEmpty()
    {
      |items|
    }

    /** isEmpty: there are no items. */
    function IsEmpty(): (r: bool)
      reads this
      ensures r <==> forall x :: x !in items
    {
      if |items| == 0 then true else assert items[0] in items; false
    }

    /**
     * insertItem( item, index ): throws for an item that is not an object;
     * otherwise connects an event emitter to the aggregated events and
     * inserts the item at the normalized index, which it returns.
     */
    method InsertItem(item: Item, index: Option<int>, world: World) returns (r: Result<nat, ListError>)
      requires Valid() && item !in items && CanForward(this, world)
      requires item.Connectable? ==> item.em.Valid()
      modifies this, if item.Connectable? then {item.em} else {}
      ensures Valid()
      ensures aggregateItemEvents == old(aggregateItemEvents) && emitted == old(emitted)
      ensures !IsObjectItem(item) ==> r == Failure(NotAnObject(TypeofItem(item))) && items == old(items)
      ensures IsObjectItem(item) ==>
        && r == Success(NormalizeIndex(|old(items)|, index))
        && items == InsertAt(old(items), r.value, item)
        && forall x :: x in items <==> x in old(items) || x == item
      ensures item.Connectable? ==>
        item.em.bindings == Connected(old(item.em.bindings), aggregateItemEvents, this, item.em, world)
      ensures old(Forwards()) && (item.Connectable? ==> NoForwards(old(item.em.bindings), this)) ==> Forwards()
    {
      if !IsObjectItem(item) {
        return Failure(NotAnObject(TypeofItem(item)));
      }
      if item.Connectable? {
        ConnectAggregated(item.em, world);
      }
      var n := NormalizeIndex(|items|, index);
      InsertKeeps(items, n, item);
      items := InsertAt(items, n, item);
      return Success(n);
    }

    /** The connection of insertItem: the item's emitter gets a forwarder for each aggregated event. */
    method ConnectAggregated(em: EventEmitter, world: World)
      requires em.Valid() && CanForward(this, world)
      modifies em
      ensures em.Valid()
      ensures em.bindings == Connected(old(em.bindings), aggregateItemEvents, this, em, world)
      ensures NoForwards(old(em.bindings), this) ==> Forwarding(em.bindings, aggregateItemEvents, this, em)
    {
      var events: seq<(string, Spec)> := [];
      var i := 0;
      while i < |aggregateItemEvents|
        invariant 0 <= i <= |aggregateItemEvents|
        invariant events == Forwarders(aggregateItemEvents[..i], em)
      {
        var (ev, g) := aggregateItemEvents[i];
        events := events + [(ev, Listed(Name("emit"), [StrArg(g), RefArg(em)]))];
        i := i + 1;
      }
      assert aggregateItemEvents[..i] == aggregateItemEvents;
      ConnectForwarders(em.bindings, aggregateItemEvents, this, em, world);
      var o := em.Connect(Ref(this), events, world);
      if NoForwards(old(em.bindings), this) {
        InsertedForwarding(old(em.bindings), aggregateItemEvents, this, em, world);
      }
    }

    /**
     * moveItem( item, newIndex ): throws for an item not in the list;
     * otherwise takes it out and puts it back at the normalized index, one
     * less when it came from before it, and returns that position.
     */
    method MoveItem(item: Item, newIndex: Option<int>) returns (r: Result<nat, ListError>)
      requires Valid()
      modifies this
      ensures Valid() && Emitters() == old(Emitters())
      ensures aggregateItemEvents == old(aggregateItemEvents) && emitted == old(emitted)
      ensures item !in old(items) ==> r == Failure(NotInList) && items == old(items)
      ensures item in old(items) ==>
        var from := IndexOf(old(items), item);
        var to := NormalizeIndex(|old(items)|, newIndex);
        r == Success(MoveTarget(from, to)) && items == Moved(old(items), from, to)
      ensures forall x :: x in items <==> x in old(items)
      ensures old(Forwards()) ==> Forwards()
    {
      var existingIndex := IndexOf(items, item);
      if existingIndex == -1 {
        return Failure(NotInList);
      }
      var n := NormalizeIndex(|items|, newIndex);
      MovedKeeps(items, existingIndex, n);
      ghost var moved := Moved(items, existingIndex, n);
      var rest := RemoveAt(items, existingIndex);
      if existingIndex < n {
        n := n - 1;
      }
      items := InsertAt(rest, n, item);
      assert items == moved;
      return Success(n);
    }

    /**
     * One turn of the loop of addItems: moveItem and `move` for an item in
     * the list, insertItem and `add` for a new one; it returns the index for
     * the next item.
     */
    method PlaceOne(x: Item, index: nat, world: World) returns (r: Result<nat, ListError>)
      requires Valid() && CanForward(this, world)
      requires x.Connectable? ==> x.em.Valid()
      modifies this, EmittersOf([x])
      ensures Valid() && aggregateItemEvents == old(aggregateItemEvents)
      ensures var p := PlaceItem(old(items), x, index);
        && (r.Failure? <==> p.Failure?)
        && (p.Failure? ==> r.error == p.error && items == old(items) && emitted == old(emitted))
        && (p.Success? ==> items == p.value.items && emitted == old(emitted) + [p.value.event] && r.value == p.value.next)
      ensures forall y :: y in items <==> y in old(items) || (r.Success? && y == x)
      ensures x.Connectable? && x !in old(items) ==>
        x.em.bindings == if r.Success? then Connected(old(x.em.bindings), aggregateItemEvents, this, x.em, world)
                         else old(x.em.bindings)
      ensures x.Connectable? && x in old(items) ==> x.em.bindings == old(x.em.bindings)
    {
      var oldIndex := IndexOf(items, x);
      if oldIndex != -1 {
        var moved := MoveItem(x, Some(index));
        emitted := emitted + [Move(x, moved.value, oldIndex)];
        r := Success(moved.value + 1);
      } else {
        var inserted := InsertItem(x, Some(index), world);
        if inserted.Failure? {
          return Failure(inserted.error);
        }
        emitted := emitted + [Add(x, inserted.value)];
        r := Success(inserted.value + 1);
      }
    }

    /**
     * While addItems runs: each event emitter among `ws` and `start` keeps its
     * invariant, and has been connected exactly when it was new and has been
     * inserted; `before` holds the bindings it had when addItems began.
     */
    ghost predicate AddState(ws: seq<Item>, start: seq<Item>, before: map<EventEmitter, Table>, world: World)
      reads this, EmittersOf(ws), EmittersOf(start)
    {
      forall x :: x in ws + start && x.Connectable? ==>
        && x.em in before
        && x.em.Valid()
        && x.em.bindings == if x !in start && x in items then Connected(before[x.em], aggregateItemEvents, this, x.em, world)
                            else before[x.em]
    }

    /**
     * The state of addItems before its turn `i`: `evs` emitted so far, and
     * what remains of the loop from `idx` yields `spec`, the whole call.
     */
    ghost predicate Adding(spec: Added, ws: seq<Item>, i: nat, idx: nat, evs: seq<ListEvent>, emitted0: seq<ListEvent>,
                           start: seq<Item>, before: map<EventEmitter, Table>, world: World)
      reads this, Emitters(), EmittersOf(ws), EmittersOf(start)
    {
      && i <= |ws| && idx <= |items| && Valid()
      && spec == After(evs, AddFrom(items, ws[i..], idx))
      && emitted == emitted0 + evs
      && (forall y :: y in start ==> y in items)
      && AddState(ws, start, before, world)
    }

    /** One turn of addItems: the loop state moves on to the next turn, or the loop ends with the failure. */
    method AddTurn(x: Item, index: nat, ghost ws: seq<Item>, ghost i: nat, ghost spec: Added, ghost evs: seq<ListEvent>,
                   ghost emitted0: seq<ListEvent>, ghost start: seq<Item>, ghost before: map<EventEmitter, Table>, world: World)
      returns (r: Result<nat, ListError>, ghost evs': seq<ListEvent>)
      requires CanForward(this, world) && i < |ws| && x == ws[i]
      requires Adding(spec, ws, i, index, evs, emitted0, start, before, world)
      modifies this, EmittersOf([x])
      ensures aggregateItemEvents == old(aggregateItemEvents)
      ensures r.Success? ==> Adding(spec, ws, i + 1, r.value, evs', emitted0, start, before, world)
      ensures r.Failure? ==>
        && Valid() && AddState(ws, start, before, world) && (forall y :: y in start ==> y in items)
        && spec == Added(items, evs, Fail(r.error), index)
        && emitted == emitted0 + evs
    {
      assert ws[i..][1..] == ws[i + 1..];
      ghost var items0 := items;
      assert EmittersOf([x]) == if x.Connectable? then {x.em} else {};
      r := PlaceOne(x, index, world);
      forall y: Item | y in ws + start && y.Connectable?
        ensures && y.em in before && y.em.Valid()
                && y.em.bindings == if y !in start && y in items then Connected(before[y.em], aggregateItemEvents, this, y.em, world)
                                    else before[y.em]
      {
        if y != x {
          assert y.em !in EmittersOf([x]);
        }
      }
      if r.Failure? {
        AddFromFail(items0, ws[i..], index, evs);
        evs' := evs;
      } else {
        ghost var p := PlaceItem(items0, x, index).value;
        PlaceItemMeaning(items0, x, index, p);
        AddFromStep(items0, ws[i..], index, evs, p);
        evs' := evs + [p.event];
      }
    }

    /** The loop of addItems, from the normalized index. */
    method AddLoop(ws: seq<Item>, index: nat, ghost spec: Added, ghost start: seq<Item>, ghost before: map<EventEmitter, Table>,
                   world: World) returns (r: Outcome<ListError>)
      requires CanForward(this, world)
      requires Adding(spec, ws, 0, index, [], emitted, start, before, world)
      modifies this, EmittersOf(ws)
      ensures Valid() && aggregateItemEvents == old(aggregateItemEvents)
      ensures items == spec.items && r == spec.outcome && emitted == old(emitted) + spec.events
      ensures AddState(ws, start, before, world)
    {
      var idx := index;
      ghost var evs: seq<ListEvent> := [];
      var i := 0;
      while i < |ws|
        invariant i <= |ws| && aggregateItemEvents == old(aggregateItemEvents)
        invariant Adding(spec, ws, i, idx, evs, old(emitted), start, before, world)
      {
        var x := ws[i];
        assert EmittersOf([x]) <= EmittersOf(ws) by {
          assert EmittersOf([x]) == if x.Connectable? then {x.em} else {};
        }
        var placed;
        placed, evs := AddTurn(x, idx, ws, i, spec, evs, old(emitted), start, before, world);
        if placed.Failure? {
          return Fail(placed.error);
        }
        idx := placed.value;
        i := i + 1;
      }
      AddDone(spec, ws, idx, evs, old(emitted), start, before, world);
      r := Pass;
    }

    /** When the loop of addItems has taken every item, the call's specification is met. */
    lemma AddDone(spec: Added, ws: seq<Item>, idx: nat, evs: seq<ListEvent>, emitted0: seq<ListEvent>,
                  start: seq<Item>, before: map<EventEmitter, Table>, world: World)
      requires Adding(spec, ws, |ws|, idx, evs, emitted0, start, before, world)
      ensures Valid() && items == spec.items && spec.outcome == Pass && emitted == emitted0 + spec.events
      ensures AddState(ws, start, before, world)
    {
      assert ws[|ws|..] == [];
    }

    /**
     * addItems( items, index ): each item in turn goes to the index, an
     * item already in the list by moveItem (emitting `move`), a new one by
     * insertItem (emitting `add`), and the next one right after it. A new
     * item that is not an object throws, the items before it staying added.
     */
    method AddItems(adds: ItemsArg, index: Option<int>, world: World) returns (r: Outcome<ListError>)
      requires Valid() && CanForward(this, world)
      requires forall x :: x in Wrap(adds) && x.Connectable? ==> x.em.Valid()
      modifies this, EmittersOf(Wrap(adds))
      ensures Valid() && aggregateItemEvents == old(aggregateItemEvents)
      ensures var spec := AddItemsSpec(old(items), adds, index);
        items == spec.items && r == spec.outcome && emitted == old(emitted) + spec.events
      ensures forall x :: x in old(items) && x.Connectable? ==> x.em.bindings == old(x.em.bindings)
      ensures forall x :: x in Wrap(adds) && x.Connectable? && x !in old(items) ==>
        x.em.bindings == if x in items then Connected(old(x.em.bindings), aggregateItemEvents, this, x.em, world)
                         else old(x.em.bindings)
    {
      var ws := Wrap(adds);
      if ws == [] {
        return Pass;
      }
      var idx: nat := NormalizeIndex(|items|, index);
      ghost var start := items;
      ghost var before := map em | em in EmittersOf(ws) + EmittersOf(start) :: em.bindings;
      forall x: Item | x in ws + start && x.Connectable? ensures x.em in before && before[x.em] == x.em.bindings {
        EmittersOfMeaning(ws, x.em);
        EmittersOfMeaning(start, x.em);
      }
      AddStart(ws, idx, before, world);
      r := AddLoop(ws, idx, AddFrom(items, ws, idx), start, before, world);
      AddEnd(ws, start, before, world);
    }

    /** The state of addItems before its first turn. */
    lemma AddStart(ws: seq<Item>, index: nat, before: map<EventEmitter, Table>, world: World)
      requires Valid() && index <= |items|
      requires forall x :: x in ws && x.Connectable? ==> x.em.Valid()
      requires forall x: Item :: x in ws + items && x.Connectable? ==> x.em in before && before[x.em] == x.em.bindings
      ensures Adding(AddFrom(items, ws, index), ws, 0, index, [], emitted, items, before, world)
    {
      assert ws[0..] == ws;
      assert emitted + [] == emitted;
      var spec := AddFrom(items, ws, index);
      assert After([], spec) == spec by {
        assert [] + spec.events == spec.events;
      }
      forall x | x in ws + items && x.Connectable? ensures x.em.Valid() {
        if x !in ws {
          assert x in items && x.em in Emitters();
        }
      }
    }

    /** What addItems leaves on the event emitters of the items it was given and of those the list had. */
    lemma AddEnd(ws: seq<Item>, start: seq<Item>, before: map<EventEmitter, Table>, world: World)
      requires AddState(ws, start, before, world)
      ensures forall x :: x in start && x.Connectable? ==> x.em.bindings == before[x.em]
      ensures forall x :: x in ws && x.Connectable? && x !in start ==>
        x.em.bindings == if x in items then Connected(before[x.em], aggregateItemEvents, this, x.em, world) else before[x.em]
    {
      forall x | x in start && x.Connectable? ensures x.em.bindings == before[x.em] {
        assert x in ws + start;
      }
      forall x | x in ws && x.Connectable? && x !in start
        ensures x.em.bindings == if x in items then Connected(before[x.em], aggregateItemEvents, this, x.em, world) else before[x.em]
      {
        assert x in ws + start;
      }
    }

    /** The items among `s` whose event emitter has a binding of the list that `disconnect( list )` throws on. */
    ghost function StaleItems(s: seq<Item>, world: World): (r: set<Item>)
      reads EmittersOf(s)
      ensures forall x :: x in r ==> x in s && x.Connectable? && HasStale(x.em.bindings, Ref(this), world)
      ensures forall x :: x in s && x.Connectable? && HasStale(x.em.bindings, Ref(this), world) ==> x in r
    {
      set x | x in s && x.Connectable? && HasStale(x.em.bindings, Ref(this), world)
    }

    /**
     * While removeItems runs: each event emitter among `ws` and `start`
     * (those of the list keeping their invariant) has been disconnected from the list exactly
     * when its item has left it; `before` holds the bindings it had when
     * removeItems began. When `failed` names an item, its `disconnect`
     * threw half-way: its bindings of other contexts are as before.
     */
    ghost predicate RemoveState(ws: seq<Item>, start: seq<Item>, before: map<EventEmitter, Table>, failed: Option<Item>, world: World)
      reads this, EmittersOf(ws), EmittersOf(start)
    {
      forall x :: x in ws + start && x.Connectable? ==>
        && x.em in before
        && (x in start ==> x.em.Valid())
        && if failed == Some(x) then OthersKept(x.em.bindings, before[x.em], Ref(this))
           else x.em.bindings == if x in start && x !in items then DisconnectAllSpec(before[x.em], Ref(this)) else before[x.em]
    }

    /**
     * The state of removeItems before its turn `i`: `evs` emitted so far,
     * and what remains of the loop yields `spec`, the whole call.
     */
    ghost predicate Removing(spec: Removed, ws: seq<Item>, i: nat, evs: seq<ListEvent>, emitted0: seq<ListEvent>,
                             start: seq<Item>, before: map<EventEmitter, Table>, stale: set<Item>, fwd: bool, world: World)
      reads this, Emitters(), EmittersOf(ws), EmittersOf(start)
    {
      && i <= |ws| && Valid() && (fwd ==> Forwards())
      && spec == AfterRemoved(evs, RemoveFrom(items, ws[i..], stale))
      && emitted == emitted0 + evs
      && (forall y :: y in items ==> y in start)
      && (forall x :: x in stale ==> x in ws && x.Connectable? && x.em in before && HasStale(before[x.em], Ref(this), world))
      && (forall x :: x in ws && x.Connectable? && x.em in before && HasStale(before[x.em], Ref(this), world) ==> x in stale)
      && RemoveState(ws, start, before, None, world)
    }

    /** One turn of removeItems: the loop state moves on to the next turn, or the loop ends where a disconnect throws. */
    method RemoveTurn(x: Item, ghost ws: seq<Item>, ghost i: nat, ghost spec: Removed, ghost evs: seq<ListEvent>,
                      ghost emitted0: seq<ListEvent>, ghost start: seq<Item>, ghost before: map<EventEmitter, Table>,
                      ghost stale: set<Item>, ghost fwd: bool, world: World)
      returns (r: Outcome<ListError>, ghost evs': seq<ListEvent>)
      requires i < |ws| && x == ws[i]
      requires Removing(spec, ws, i, evs, emitted0, start, before, stale, fwd, world)
      modifies this, EmittersOf([x])
      ensures aggregateItemEvents == old(aggregateItemEvents)
      ensures r.Pass? ==> Removing(spec, ws, i + 1, evs', emitted0, start, before, stale, fwd, world)
      ensures r.Fail? ==>
        && r.error.EmitterError? && Valid() && (forall y :: y in items ==> y in start)
        && spec == Removed(items, evs, true) && emitted == emitted0 + evs
        && x in stale && x in items && RemoveState(ws, start, before, Some(x), world)
    {
      RemovingTurn(spec, items, ws, i, evs, stale);
      assert EmittersOf([x]) == if x.Connectable? then {x.em} else {};
      var k := IndexOf(items, x);
      if k < 0 {
        return Pass, evs;
      }
      if x.Connectable? {
        var o := DisconnectList(x.em, this, world);
        if o.Fail? {
          forall y: Item | y in ws + start && y.Connectable? && y != x
            ensures y.em in before && (y in start ==> y.em.Valid())
                    && y.em.bindings == if y in start && y !in items then DisconnectAllSpec(before[y.em], Ref(this)) else before[y.em]
          {
            assert y.em !in EmittersOf([x]);
          }
          return Fail(EmitterError(o.error)), evs;
        }
      }
      RemoveKeeps(items, k);
      Regroup(emitted0, evs, [Remove(x, k)]);
      ghost var ems := Emitters();
      items := RemoveAt(items, k);
      assert Emitters() <= ems;
      emitted := emitted + [Remove(x, k)];
      evs' := evs + [Remove(x, k)];
      r := Pass;
      forall y: Item | y in ws + start && y.Connectable?
        ensures y.em in before && (y in start ==> y.em.Valid())
                && y.em.bindings == if y in start && y !in items then DisconnectAllSpec(before[y.em], Ref(this)) else before[y.em]
      {
        if y != x {
          assert y.em !in EmittersOf([x]);
        }
      }
      if fwd {
        forall em | em in Emitters() ensures Forwarding(em.bindings, aggregateItemEvents, this, em) {
          assert em in ems && em !in EmittersOf([x]);
        }
      }
    }

    /** The loop of removeItems. */
    method RemoveLoop(ws: seq<Item>, ghost spec: Removed, ghost start: seq<Item>, ghost before: map<EventEmitter, Table>,
                      ghost stale: set<Item>, ghost fwd: bool, world: World) returns (r: Outcome<ListError>, ghost failed: Option<Item>)
      requires Removing(spec, ws, 0, [], emitted, start, before, stale, fwd, world)
      modifies this, EmittersOf(ws)
      ensures Valid() && aggregateItemEvents == old(aggregateItemEvents) && (forall y :: y in items ==> y in start)
      ensures items == spec.items && emitted == old(emitted) + spec.events && (r.Fail? <==> spec.stopped)
      ensures r.Fail? ==> r.error.EmitterError? && failed.Some? && failed.value in stale && failed.value in items
      ensures r.Pass? ==> failed.None? && (fwd ==> Forwards())
      ensures RemoveState(ws, start, before, failed, world)
    {
      ghost var evs: seq<ListEvent> := [];
      failed := None;
      var i := 0;
      while i < |ws|
        invariant i <= |ws| && aggregateItemEvents == old(aggregateItemEvents)
        invariant Removing(spec, ws, i, evs, old(emitted), start, before, stale, fwd, world)
      {
        var x := ws[i];
        assert EmittersOf([x]) <= EmittersOf(ws) by {
          assert EmittersOf([x]) == if x.Connectable? then {x.em} else {};
        }
        r, evs := RemoveTurn(x, ws, i, spec, evs, old(emitted), start, before, stale, fwd, world);
        if r.Fail? {
          failed := Some(x);
          return;
        }
        i := i + 1;
      }
      r := Pass;
    }

    /**
     * removeItems( items ): each item given that is in the list is
     * disconnected from everything of the list (when it is an event emitter),
     * spliced out, and emits `remove` with the index it had; one whose
     * `disconnect` throws stops the loop, itself staying in the list.
     */
    method RemoveItems(rems: ItemsArg, world: World) returns (r: Outcome<ListError>)
      requires Valid()
      modifies this, EmittersOf(Wrap(rems))
      ensures Valid() && aggregateItemEvents == old(aggregateItemEvents)
      ensures var spec := RemoveFrom(old(items), Wrap(rems), old(StaleItems(Wrap(rems), world)));
        items == spec.items && emitted == old(emitted) + spec.events && (r.Fail? <==> spec.stopped)
      ensures r.Fail? ==> r.error.EmitterError?
      ensures forall x :: x in old(items) && x.Connectable? && x !in items ==>
        x.em.bindings == DisconnectAllSpec(old(x.em.bindings), Ref(this))
      ensures forall x :: x in old(items) && x in items && x.Connectable? ==>
        || x.em.bindings == old(x.em.bindings)
        || (r.Fail? && x in old(StaleItems(Wrap(rems), world)) && OthersKept(x.em.bindings, old(x.em.bindings), Ref(this)))
      ensures forall x :: x in Wrap(rems) && x.Connectable? && x !in old(items) ==> x.em.bindings == old(x.em.bindings)
      ensures old(Forwards()) && r.Pass? ==> Forwards()
    {
      var ws := Wrap(rems);
      if ws == [] {
        KeepNothing(items);
        return Pass;
      }
      ghost var start := items;
      ghost var stale := StaleItems(ws, world);
      ghost var before := map em | em in EmittersOf(ws) + EmittersOf(start) :: em.bindings;
      forall x: Item | x in ws + start && x.Connectable? ensures x.em in before && before[x.em] == x.em.bindings {
        EmittersOfMeaning(ws, x.em);
        EmittersOfMeaning(start, x.em);
      }
      RemoveStart(ws, stale, before, world);
      ghost var failed;
      r, failed := RemoveLoop(ws, RemoveFrom(items, ws, stale), start, before, stale, Forwards(), world);
      RemoveEnd(ws, start, before, failed, world);
    }

    /** The state of removeItems before its first turn. */
    lemma RemoveStart(ws: seq<Item>, stale: set<Item>, before: map<EventEmitter, Table>, world: World)
      requires Valid() && ws != [] && stale == StaleItems(ws, world)
      requires forall x: Item :: x in ws + items && x.Connectable? ==> x.em in before && before[x.em] == x.em.bindings
      ensures Removing(RemoveFrom(items, ws, stale), ws, 0, [], emitted, items, before, stale, Forwards(), world)
    {
      assert ws[0..] == ws;
      assert emitted + [] == emitted;
      assert RemoveState(ws, items, before, None, world);
    }

    /** What removeItems leaves on the event emitters of the items it was given and of those the list had. */
    lemma RemoveEnd(ws: seq<Item>, start: seq<Item>, before: map<EventEmitter, Table>, failed: Option<Item>, world: World)
      requires RemoveState(ws, start, before, failed, world)
      ensures forall x :: x in start && x.Connectable? && x !in items && failed != Some(x) ==>
        x.em.bindings == DisconnectAllSpec(before[x.em], Ref(this))
      ensures forall x :: x in ws && x.Connectable? && x !in start && failed != Some(x) ==> x.em.bindings == before[x.em]
    {
      forall x | x in start && x.Connectable? && x !in items && failed != Some(x)
        ensures x.em.bindings == DisconnectAllSpec(before[x.em], Ref(this))
      {
        assert x in ws + start;
      }
      forall x | x in ws && x.Connectable? && x !in start && failed != Some(x) ensures x.em.bindings == before[x.em] {
        assert x in ws + start;
      }
    }

    /**
     * While clearItems disconnects the items it took out: the first `i`
     * have been disconnected from everything of the list, the others are as
     * they were (`before`), and all keep their invariant.
     */
    ghost predicate ClearState(cleared: seq<Item>, i: nat, before: map<EventEmitter, Table>)
      reads EmittersOf(cleared)
    {
      forall j :: 0 <= j < |cleared| && cleared[j].Connectable? ==>
        && cleared[j].em in before
        && cleared[j].em.Valid()
        && cleared[j].em.bindings == if j < i then DisconnectAllSpec(before[cleared[j].em], Ref(this)) else before[cleared[j].em]
    }

    /**
     * The loop of clearItems over the items it took out; `f` is where a
     * `disconnect` threw, or the number of items.
     */
    method DisconnectCleared(cleared: seq<Item>, ghost before: map<EventEmitter, Table>, ghost stale: set<Item>, world: World)
      returns (r: Outcome<ListError>, ghost f: nat)
      requires NoDuplicates(cleared) && ClearState(cleared, 0, before)
      requires forall j :: 0 <= j < |cleared| ==>
        (cleared[j] in stale <==> cleared[j].Connectable? && HasStale(before[cleared[j].em], Ref(this), world))
      modifies EmittersOf(cleared)
      ensures f == FirstIn(cleared, stale) && (r.Pass? <==> f == |cleared|) && (r.Fail? ==> r.error.EmitterError?)
      ensures forall j :: 0 <= j < |cleared| && cleared[j].Connectable? ==>
        && cleared[j].em in before && cleared[j].em.Valid()
        && if j < f then cleared[j].em.bindings == DisconnectAllSpec(before[cleared[j].em], Ref(this))
           else if j == f then OthersKept(cleared[j].em.bindings, before[cleared[j].em], Ref(this))
           else cleared[j].em.bindings == before[cleared[j].em]
    {
      var i := 0;
      while i < |cleared|
        invariant 0 <= i <= |cleared|
        invariant forall j :: 0 <= j < i ==> cleared[j] !in stale
        invariant ClearState(cleared, i, before)
      {
        var x := cleared[i];
        if x.Connectable? {
          assert x.em in EmittersOf(cleared);
          var o := DisconnectList(x.em, this, world);
          forall j | 0 <= j < |cleared| && cleared[j].Connectable? && j != i
            ensures cleared[j].em != x.em
          {
            assert cleared[j] != cleared[i];
          }
          if o.Fail? {
            f := i;
            return Fail(EmitterError(o.error)), f;
          }
        }
        i := i + 1;
      }
      f := i;
      r := Pass;
    }

    /**
     * clearItems(): all items are taken out at once, then each event emitter
     * among them is disconnected from everything of the list, and `clear` is
     * emitted. A `disconnect` that throws stops the loop: the items before
     * it are disconnected, the later ones are untouched, and nothing is
     * emitted.
     */
    method ClearItems(world: World) returns (r: Outcome<ListError>)
      requires Valid()
      modifies this, Emitters()
      ensures Valid() && Forwards() && items == [] && aggregateItemEvents == old(aggregateItemEvents)
      ensures var f := FirstIn(old(items), old(StaleItems(items, world)));
        && (r.Pass? <==> f == |old(items)|)
        && (r.Fail? ==> r.error.EmitterError?)
        && emitted == (if r.Pass? then old(emitted) + [Clear] else old(emitted))
        && forall j :: 0 <= j < |old(items)| && old(items)[j].Connectable? ==>
             var em := old(items)[j].em;
             if j < f then em.bindings == DisconnectAllSpec(old(em.bindings), Ref(this))
             else if j == f then OthersKept(em.bindings, old(em.bindings), Ref(this))
             else em.bindings == old(em.bindings)
    {
      var cleared := items;
      ghost var stale := StaleItems(cleared, world);
      ghost var before := map em | em in EmittersOf(cleared) :: em.bindings;
      forall j | 0 <= j < |cleared| && cleared[j].Connectable?
        ensures cleared[j].em in before && before[cleared[j].em] == cleared[j].em.bindings
      {
        EmittersOfMeaning(cleared, cleared[j].em);
      }
      items := [];
      assert Emitters() == {};
      ghost var f;
      r, f := DisconnectCleared(cleared, before, stale, world);
      if r.Pass? {
        emitted := emitted + [Clear];
      }
    }

    /**
     * The event emitters among the items, by position, with the bindings
     * they had in `before`; those before position `i` have been disconnected
     * from the list's `emit` on `ev` (`off` is `true`) or connected to it
     * with the list event `g` (`off` is `false`).
     */
    ghost predicate Forwarded(i: nat, before: map<EventEmitter, Table>, ev: string, g: string, off: bool)
      reads this, Emitters()
    {
      forall j :: 0 <= j < |items| && items[j].Connectable? ==>
        && items[j].em in before
        && items[j].em.Valid()
        && items[j].em.bindings ==
             if j >= i then before[items[j].em]
             else if off then OffSpec(before[items[j].em], ev, Name("emit"), Ref(this))
             else Append(before[items[j].em], ev, ForwardBinding(g, this, items[j].em))
    }

    /**
     * The body of one loop of aggregate for an event emitter `em` among the
     * items: `em.disconnect( list, { ev: [ 'emit', g, em ] } )` (`off`) or
     * `em.connect( list, { ev: [ 'emit', g, em ] } )`; the list's `emit`
     * exists, so neither throws.
     */
    method ForwardItem(em: EventEmitter, ev: string, g: string, off: bool, world: World)
      requires em.Valid() && CanForward(this, world)
      modifies em
      ensures em.Valid()
      ensures em.bindings == if off then OffSpec(old(em.bindings), ev, Name("emit"), Ref(this))
                             else Append(old(em.bindings), ev, ForwardBinding(g, this, em))
    {
      var args := [StrArg(g), RefArg(em)];
      if off {
        DisconnectForwarder(em.bindings, ev, args, this, world);
        var _ := em.Disconnect(Ref(this), Some([(ev, Listed(Name("emit"), args))]), world);
      } else {
        ConnectForwarder(em.bindings, ev, g, this, em, world);
        var _ := em.Connect(Ref(this), [(ev, Listed(Name("emit"), args))], world);
      }
    }

    /** Turn `i` of a loop of aggregate over the items. */
    method ForwardTurn(i: nat, ghost before: map<EventEmitter, Table>, ev: string, g: string, off: bool, world: World)
      requires i < |items| && Valid() && CanForward(this, world) && Forwarded(i, before, ev, g, off)
      modifies EmittersOf([items[i]])
      ensures Valid() && Forwarded(i + 1, before, ev, g, off)
    {
      var x := items[i];
      assert EmittersOf([x]) == if x.Connectable? then {x.em} else {};
      if x.Connectable? {
        EmittersOfMeaning(items, x.em);
        ForwardItem(x.em, ev, g, off, world);
        forall j | 0 <= j < |items| && items[j].Connectable?
          ensures && items[j].em in before && items[j].em.Valid()
                  && items[j].em.bindings ==
                       if j >= i + 1 then before[items[j].em]
                       else if off then OffSpec(before[items[j].em], ev, Name("emit"), Ref(this))
                       else Append(before[items[j].em], ev, ForwardBinding(g, this, items[j].em))
        {
          if j != i {
            assert items[j] != items[i];
          }
        }
      }
    }

    /**
     * One loop of aggregate over the items: each event emitter among them
     * is disconnected from the list's `emit` on `ev` (`off`, with the list
     * event `g` it was aggregated under), or connected to it with `g`.
     */
    method Forward(ev: string, g: string, off: bool, world: World)
      requires Valid() && CanForward(this, world)
      modifies Emitters()
      ensures Valid()
      ensures forall j :: 0 <= j < |items| && items[j].Connectable? ==>
        items[j].em.bindings ==
          if off then OffSpec(old(items[j].em.bindings), ev, Name("emit"), Ref(this))
          else Append(old(items[j].em.bindings), ev, ForwardBinding(g, this, items[j].em))
    {
      ghost var before := map em | em in Emitters() :: em.bindings;
      forall j | 0 <= j < |items| && items[j].Connectable?
        ensures items[j].em in before && before[items[j].em] == items[j].em.bindings
      {
        EmittersOfMeaning(items, items[j].em);
      }
      var i := 0;
      while i < |items|
        invariant 0 <= i <= |items|
        invariant Valid() && Forwarded(i, before, ev, g, off)
        invariant forall j :: 0 <= j < |items| && items[j].Connectable? ==> before[items[j].em] == old(items[j].em.bindings)
      {
        assert EmittersOf([items[i]]) <= Emitters() by {
          assert EmittersOf([items[i]]) == if items[i].Connectable? then {items[i].em} else {};
        }
        ForwardTurn(i, before, ev, g, off, world);
        i := i + 1;
      }
    }

    /**
     * The body of aggregate for one entry `ev: g`: a truthy `g` for an
     * event already aggregated throws; otherwise an existing aggregation of
     * `ev` is disconnected from every item and deleted, and a truthy `g` is
     * stored and connected to every item.
     */
    method AggregateEntry(ev: string, g: Option<string>, world: World) returns (r: Outcome<ListError>)
      requires Valid() && CanForward(this, world)
      modifies this, Emitters()
      ensures Valid() && items == old(items) && emitted == old(emitted)
      ensures var step := AggregateStep(old(aggregateItemEvents), ev, g);
        && (r.Fail? <==> step.Failure?)
        && (step.Failure? ==> r.error == step.error && aggregateItemEvents == old(aggregateItemEvents))
        && (step.Success? ==> aggregateItemEvents == step.value)
        && forall j :: 0 <= j < |items| && items[j].Connectable? ==>
             items[j].em.bindings ==
               if step.Failure? then old(items[j].em.bindings)
               else ForwardStep(old(items[j].em.bindings), old(aggregateItemEvents), ev, g, this, items[j].em)
    {
      if ev in Keys(aggregateItemEvents) {
        if Truthy(g) {
          return Fail(DuplicateAggregation(ev));
        }
        Forward(ev, AggValue(aggregateItemEvents, ev), true, world);
        WithoutOk(aggregateItemEvents, ev);
        aggregateItemEvents := Without(aggregateItemEvents, ev);
      }
      if Truthy(g) {
        AggregateStepOk(old(aggregateItemEvents), ev, g);
        aggregateItemEvents := aggregateItemEvents + [(ev, g.value)];
        Forward(ev, g.value, false, world);
      }
      r := Pass;
    }

    /** The loop of aggregate over the entries. */
    method AggregateAll(entries: seq<(string, Option<string>)>, world: World) returns (r: Outcome<ListError>)
      requires Valid() && CanForward(this, world)
      modifies this, Emitters()
      ensures Valid() && items == old(items) && emitted == old(emitted)
      ensures Aggregated(aggregateItemEvents, r) == AggregateSpec(old(aggregateItemEvents), entries)
      ensures forall j :: 0 <= j < |items| && items[j].Connectable? ==>
        items[j].em.bindings == ForwardingSpec(old(items[j].em.bindings), old(aggregateItemEvents), entries, this, items[j].em)
    {
      var k := 0;
      assert entries[0..] == entries;
      while k < |entries|
        invariant 0 <= k <= |entries|
        invariant Valid() && items == old(items) && emitted == old(emitted)
        invariant AggregateSpec(old(aggregateItemEvents), entries) == AggregateSpec(aggregateItemEvents, entries[k..])
        invariant forall j :: 0 <= j < |items| && items[j].Connectable? ==>
          ForwardingSpec(old(items[j].em.bindings), old(aggregateItemEvents), entries, this, items[j].em) ==
          ForwardingSpec(items[j].em.bindings, aggregateItemEvents, entries[k..], this, items[j].em)
      {
        var (ev, g) := entries[k];
        assert entries[k..][1..] == entries[k + 1..];
        r := AggregateEntry(ev, g, world);
        if r.Fail? {
          return;
        }
        k := k + 1;
      }
      r := Pass;
    }

    /**
     * aggregate( events ): the entries in turn, as `for ... in` visits
     * them, up to the first that throws. The table ends as the reference
     * definition says, each item's bindings as it says for that item, and
     * the items keep forwarding exactly the aggregated events.
     */
    method Aggregate(entries: seq<(string, Option<string>)>, world: World) returns (r: Outcome<ListError>)
      requires Valid() && CanForward(this, world)
      modifies this, Emitters()
      ensures Valid() && items == old(items) && emitted == old(emitted)
      ensures Aggregated(aggregateItemEvents, r) == AggregateSpec(old(aggregateItemEvents), entries)
      ensures forall j :: 0 <= j < |items| && items[j].Connectable? ==>
        items[j].em.bindings == ForwardingSpec(old(items[j].em.bindings), old(aggregateItemEvents), entries, this, items[j].em)
      ensures old(Forwards()) ==> Forwards()
    {
      r := AggregateAll(entries, world);
      if old(Forwards()) {
        forall em | em in Emitters() ensures Forwarding(em.bindings, aggregateItemEvents, this, em) {
          var x: Item :| x in items && x.Connectable? && x.em == em;
          var j := FirstIndex(items, x);
          ForwardingKeeps(old(em.bindings), old(aggregateItemEvents), entries, this, em);
        }
      }
    }
  }
}
