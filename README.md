# OOjs core, modelled in Dafny

This project models the core of OOjs, the object-oriented JavaScript library:

- the event emitter (`OO.EventEmitter`): a table from event name to an ordered list of bindings, with `on`, `once`, `off`, `emit`, `emitThrow`, `connect` and `disconnect`;
- the item list (`OO.EmitterList`): an ordered list of distinct objects that re-emits its items' events (`aggregate`), with `addItems`, `insertItem`, `moveItem`, `removeItems` and `clearItems`;
- the sorted item list (`OO.SortedEmitterList`): a list kept in the order of a sorting callback;
- the utilities of `core.js`: `binarySearch`, `getProp`/`setProp`/`deleteProp`, `compare`, `unique`, `simpleArrayUnion`, `simpleArrayIntersection` and `simpleArrayDifference`;
- the registry (`OO.Registry`) and the factory (`OO.Factory`) built on it.

The JavaScript objects whose fields these operations change in place are classes:

- `Events.EventEmitter` (the `bindings` table);
- `ItemLists.EmitterList` (`items`, `aggregateItemEvents`);
- `SortedItemLists.SortedEmitterList`;
- `Registries.Registry` (`registry`);
- `Factories.Factory`.

Their loops are `while` loops with invariants, each method proved against a reference definition on values. Pure code (`compare`, the key derivation of the factory, `unique`) is functions and lemmas.

## Modelling choices

- **Values.** JavaScript values are the `JsValues.Value` tree:
  - undefined, null, booleans, integer numbers and strings;
  - objects of a kind (plain, array, function, other) with own properties.
- **Listeners.** A listener is a function identity (`Fn`), a method name (`Name`) or anything else (`NotCallable`).
  - A `World` maps each object to its function-valued properties, so method names resolve at call time.
  - Listener bodies are opaque. A `throws` oracle says which calls throw.
  - `emit` returns the calls it made and the errors it deferred, in order.
- **Lifecycle events.** The lifecycle events of the list and the registry are recorded, in order, in an `emitted` field. They are not dispatched to listeners.
  - This covers `add`, `move`, `remove` and `clear` for the list, and `register`/`unregister` for the registry.
- **Argument maps.** The JavaScript maps passed to `connect`, `disconnect` and `aggregate` are sequences of entries in `for ... in` order.
  - The aggregation table is such a sequence as well, so the order in which `insertItem` connects forwarders is kept.
- **Item's own emitter.** An item's `disconnect( list )` throws when one of its bindings of the list names a method the list no longer has. That is the only way the list's loops can be stopped by an item.
- **Where the code and its documentation disagree, the model follows the code:**
  - `emit` calls listeners in registration order; its comment says the order is unspecified.
  - `addItems` of the sorted list keeps going after an item that compares equal and replaces it; its documentation only speaks of inserting.
  - `deleteProp` removes every emptied plain object on the path, walking back to the root. It stops at the first object that is not emptied.

## Model

| member | source | states |
|---|---|---|
| Events.ValidateMethod | src/EventEmitter.js:36-51 | a listener passes exactly when it is a function or a method name that resolves to a function on an object context; a name without context, a name of a non-function and anything else fail with their own error |
| Events.Append | src/EventEmitter.js:59-69 | the event's list gets the binding at its end, every other event's list is unchanged, and the table stays well-formed |
| Events.EventEmitter.constructor | src/EventEmitter.js:8-18 | a new emitter has an empty bindings table |
| Events.EventEmitter.On | src/EventEmitter.js:86-97 | the method is validated in the context as given; on success exactly one binding is appended, with the bound arguments, the context (null when omitted) and `once` false; on failure nothing changes |
| Events.EventEmitter.Once | src/EventEmitter.js:106-117 | only a function passes; it is appended with `once` true, no bound arguments and a null context |
| Events.EventEmitter.Off | src/EventEmitter.js:129-162 | `off( event )` deletes the entry; otherwise validation comes first, even when the event has no bindings, and then the bindings matching method and context (null when omitted) are removed, as `OffSpec` says |
| Events.Unbind | src/EventEmitter.js:149-155 | the backward splicing loop leaves exactly the list without the matching bindings, the others in their order |
| Events.RemoveMatchingMembers | src/EventEmitter.js:151-155 | a binding survives `off` exactly when it does not match both method and context |
| Events.RemoveMatchingMultiplicity | src/EventEmitter.js:151-155 | every non-matching binding survives as many times as it occurred; matching ones do not survive |
| Events.RemoveMatchingAppend | src/EventEmitter.js:151-155 | the removal works piecewise over a concatenation, so the survivors keep their order |
| Events.RemoveMatchingNothing | src/EventEmitter.js:151-155 | when nothing matches, the list is unchanged |
| Events.RemovePositions | src/EventEmitter.js:149-155 | removing at a matching position keeps every later position free of that context, as the backward loop needs |
| Events.UnbindStep | src/EventEmitter.js:150-154 | one step of the backward loop: the survivors from a position are those from the next one, with the binding there kept unless it matches |
| Events.OffSpecLists | src/EventEmitter.js:138-161 | `off` changes only its event's list, removes the matching bindings from it, and deletes the entry rather than keep an empty list |
| Events.OnOffRoundTrip | src/EventEmitter.js:86-162 | `on` followed by the matching `off` gives back the table, when no binding matched before |
| Events.TableExt | src/EventEmitter.js:17 | two well-formed tables with the same lists are equal, so "no empty list kept" makes the table determined by its lists |
| Events.EventEmitter.Emit | src/EventEmitter.js:180-217 | false and no change for an event without an entry; otherwise true, the calls and deferred errors are those of `Dispatch` over the snapshot, and the table is that of `AfterOnce` |
| Events.EventEmitter.EmitThrow | src/EventEmitter.js:236-284 | as `emit`, but the first error raised is thrown after all listeners ran and the later ones are deferred |
| Events.DispatchIsolation | src/EventEmitter.js:201-213 | the calls made do not depend on which listeners throw: a throw never stops the later listeners |
| Events.DispatchCallsAll | src/EventEmitter.js:188-205 | when every listener resolves, each binding of the snapshot is called once, in order, with its context and its bound arguments before the emitted ones |
| Events.DispatchNoErrors | src/EventEmitter.js:188-213 | no error is deferred exactly when every listener resolves and none of the calls throws |
| Events.AfterOnceFrame | src/EventEmitter.js:197-200 | the `off` calls of `once` bindings touch no other event and keep the table well-formed |
| Events.AfterOnceList | src/EventEmitter.js:197-200 | after emitting, no binding is added, no binding of a `once` function with null context remains, and bindings with an object context all stay |
| Events.OnceExample | src/EventEmitter.js:106-117 | a `once` listener is called by the first emit and its entry is gone before the second |
| Events.IsolationExample | src/EventEmitter.js:201-213 | a throwing listener is followed by the next one, which receives its bound arguments first; the error is deferred |
| Events.ValidateExamples | src/EventEmitter.js:36-51 | a method name with no context, a name of a non-function and a number are rejected; a name of a function passes |
| Events.EventEmitter.Connect | src/EventEmitter.js:296-311 | the table and outcome are those of `ConnectSpec`: one binding per entry through `on` with the host as context, `[ m, ...args ]` bound as `m` with `args`; the first invalid method throws, the earlier entries kept |
| Events.ConnectOutcome | src/EventEmitter.js:296-311 | `connect` throws exactly when some entry's method is invalid in the host |
| Events.ConnectAddsHostBindings | src/EventEmitter.js:296-311 | `connect` only adds bindings, all with the host as context; the bindings of other contexts are untouched and the table stays well-formed |
| Events.EventEmitter.Disconnect | src/EventEmitter.js:327-354 | with entries: the table and outcome of `DisconnectSpec`; without: every binding of the host goes, and the call throws exactly when a binding of the host names a method the host no longer has; after a throw, the other contexts' bindings are kept, the event being visited holds a stale binding, and every other event is either unchanged or rid of exactly the host's bindings |
| Events.EventEmitter.DisconnectEntries | src/EventEmitter.js:329-337 | the loop over the entries: `off( event, method, host )` for each, only the first element of an array used |
| Events.EventEmitter.DisconnectAll | src/EventEmitter.js:338-350 | the loop over the events: the result is `DisconnectAllSpec`, or a throw at a stale binding, after which every event other than the one being visited is either not reached (unchanged) or rid of exactly the host's bindings, and other contexts are untouched |
| Events.EventEmitter.DisconnectEvent | src/EventEmitter.js:341-349 | the backward loop over one event's list leaves no binding of the host, or throws only at a stale binding |
| Events.DisconnectOutcome | src/EventEmitter.js:329-337 | `disconnect` with entries throws exactly when some entry's method is invalid in the host |
| Events.DisconnectRemovesHostBindings | src/EventEmitter.js:329-337 | `disconnect` with entries only removes bindings of the host and keeps the table well-formed |
| Events.DisconnectRemovesListed | src/EventEmitter.js:329-337 | after a successful `disconnect` with entries, no binding of an entry's method with the host remains on its event |
| Events.DisconnectAllSpec | src/EventEmitter.js:338-350 | every list loses exactly the bindings whose context is the host |
| Events.DisconnectAllWellFormed | src/EventEmitter.js:338-350 | removing a host's bindings keeps no empty list |
| Events.ConnectThenDisconnectAll | src/EventEmitter.js:296-354 | `disconnect( host )` after `connect( host, ... )` gives back the table, when the host had no bindings before |
| Events.OffKeepsProgress | src/EventEmitter.js:343-348 | one `off` of the loop of `disconnect( host )` keeps the other contexts' bindings and the host-free tail of the list |
| Events.VisitKeepsProgress | src/EventEmitter.js:340-350 | finishing one event of the loop keeps what the loop promises for the events still to come |
| Events.FailedVisit | src/EventEmitter.js:343-348 | a throw in the loop comes from a stale binding of the host, with the other contexts untouched |
| Events.FailedVisitShape | src/EventEmitter.js:340-350 | where a throw leaves the loop: each event other than the one being visited is unchanged or has lost exactly the host's bindings |
| Events.AllVisited | src/EventEmitter.js:340-350 | at the end of the loop the table is `DisconnectAllSpec` and no binding was stale |
| Events.WithoutCtxMembers | src/EventEmitter.js:338-350 | removing a context keeps exactly the bindings of other contexts |
| Events.WithoutCtxAfterRemove | src/EventEmitter.js:336-347 | an `off` with the host as context does not change the host-free view of a list |
| Events.WithoutCtxAppend | src/EventEmitter.js:338-350 | removing a context works piecewise over a concatenation |
| Events.WithoutCtxNothing | src/EventEmitter.js:338-350 | a list with no binding of the context is unchanged |
| ItemLists.NormalizeIndex | src/EmitterList.js:64-68 | the index when it lies in `[0, length)`, the length otherwise (undefined, negative or too large); never above the length |
| ItemLists.IndexOf | src/EmitterList.js:85-87 | the first position of the item, -1 exactly when it is absent |
| ItemLists.EmitterList.constructor | src/EmitterList.js:13-16 | no items, nothing aggregated, nothing emitted |
| ItemLists.EmitterList.GetItems | src/EmitterList.js:75-77 | a copy of the items as long as the count, in which each item sits at the position getItemIndex reports |
| ItemLists.EmitterList.GetItemIndex | src/EmitterList.js:85-87 | -1 exactly for an item not in the list, otherwise its position |
| ItemLists.EmitterList.GetItemCount | src/EmitterList.js:94-96 | zero exactly when the list is empty |
| ItemLists.EmitterList.IsEmpty | src/EmitterList.js:103-105 | true exactly when no item is in the list |
| ItemLists.InsertAtMultiset | src/EmitterList.js:276 | inserting adds exactly one occurrence of the item |
| ItemLists.InsertAt | src/EmitterList.js:276 | `splice( index, 0, item )`: the item at the index, the items before it in place, the items after it one further |
| ItemLists.RemoveAt | src/EmitterList.js:305 | `splice( index, 1 )`: one item shorter, the items before in place, those after one back |
| ItemLists.RemoveAtMultiset | src/EmitterList.js:305 | splicing out removes exactly one occurrence of the item |
| ItemLists.InsertRemove | src/EmitterList.js:222-230 | inserting at a position and splicing out there gives back the list |
| ItemLists.RemoveAtNoDuplicates | src/EmitterList.js:305 | splicing out keeps the other items distinct and drops the item |
| ItemLists.InsertAtNoDuplicates | src/EmitterList.js:276 | inserting a new item keeps the items distinct |
| ItemLists.MovedMeaning | src/EmitterList.js:212-233 | a move keeps the length, the multiset and the distinctness of the items, puts the item at the target, one less when it came from before it, and keeps the others in order |
| ItemLists.MovedMembers | src/EmitterList.js:212-233 | the same items are in the list before and after a move |
| ItemLists.EmitterList.MoveItem | src/EmitterList.js:212-233 | an item not in the list throws and changes nothing; otherwise the list is `Moved`, the returned index is the adjusted target, and the forwarding of every item is kept |
| ItemLists.EmitterList.InsertItem | src/EmitterList.js:258-278 | a non-object throws with its `typeof`; otherwise the item goes in at the normalized index, which is returned, and an event emitter gets one forwarder per aggregated event |
| ItemLists.EmitterList.ConnectAggregated | src/EmitterList.js:265-271 | the loop builds one `[ 'emit', group, item ]` entry per aggregated event and `connect` stores exactly those forwarders |
| ItemLists.InsertedForwarding | src/EmitterList.js:265-271 | an item that had no forwarders forwards exactly the aggregated events once inserted |
| ItemLists.ConnectForwarders | src/EmitterList.js:265-271 | connecting the forwarders succeeds (the list has `emit`) and adds to each event exactly the forwarders the table asks for, nothing else |
| ItemLists.PlaceItem | src/EmitterList.js:184-194 | one turn of addItems fails exactly for a new item that is not an object, with its `typeof` |
| ItemLists.PlaceItemMeaning | src/EmitterList.js:184-194 | one turn keeps the items distinct, grows the list by one only for a new item, and leaves the item right before the next index |
| ItemLists.PlaceItemShape | src/EmitterList.js:184-194 | a turn is a move plus `move( item, index, oldIndex )` for a present item, or an insert plus `add( item, index )` for a new one |
| ItemLists.AddFromNoDuplicates | src/EmitterList.js:183-195 | addItems keeps every object in the list at most once |
| ItemLists.AddFromFresh | src/EmitterList.js:183-195 | new, distinct objects are inserted as one block at the index, in their order, each emitting `add` with its own position |
| ItemLists.AddFromBlock | src/EmitterList.js:183-195 | the items of one call end up side by side, in their order, right before the returned next index |
| ItemLists.AddItemsContiguous | src/EmitterList.js:173-198 | when addItems does not throw, the items given are laid out contiguously from the normalized index |
| ItemLists.AddEvents | src/EmitterList.js:191-192 | a block inserted from a start position reports `add` for each item with its own position |
| ItemLists.AddFromStep | src/EmitterList.js:183-195 | a turn that succeeds leaves the rest of the loop on the new items, from the next index |
| ItemLists.AddFromFail | src/EmitterList.js:183-195 | a turn that fails ends the loop with its error and what was done so far |
| ItemLists.AddDuplicateExample | src/EmitterList.js:184-188 | adding `[ a, b, c, a ]` to an empty list gives `[ b, c, a ]` with `add`, `add`, `add`, `move` |
| ItemLists.MoveToEndExample | src/EmitterList.js:184-188 | adding a present item at index 10 moves it to the end and emits one `move` |
| ItemLists.EmitterList.PlaceOne | src/EmitterList.js:184-194 | one turn on the list: items and events as `PlaceItem` says, the next index returned, a new emitter connected only when inserted |
| ItemLists.EmitterList.AddTurn | src/EmitterList.js:184-194 | one turn keeps the loop state, or ends it at a non-object with what was done so far |
| ItemLists.EmitterList.AddLoop | src/EmitterList.js:183-195 | the loop yields exactly the items, events and outcome of `AddFrom` |
| ItemLists.EmitterList.AddItems | src/EmitterList.js:173-198 | a single item is wrapped and an empty array changes nothing; the items, events and outcome are those of `AddItemsSpec`; old items' bindings are untouched and a new emitter is connected exactly when it went in |
| ItemLists.EmitterList.AddStart | src/EmitterList.js:182 | the loop of addItems starts from its specification, with every item's bindings as at entry |
| ItemLists.EmitterList.AddEnd | src/EmitterList.js:183-195 | after the loop, old items' bindings are as at entry, and new ones are connected exactly when they are in the list |
| ItemLists.EmitterList.AddDone | src/EmitterList.js:183-197 | when the loop has taken every item, the items, events and outcome are those the call promises, and every emitter is as `AddState` says |
| ItemLists.RemoveFromKeeps | src/EmitterList.js:297-308 | when no disconnect throws, removeItems keeps exactly the items not named, in their order |
| ItemLists.RemoveFromStops | src/EmitterList.js:297-308 | removeItems stops exactly at an item it is given that is in the list and whose `disconnect` throws |
| ItemLists.KeepMembers | src/EmitterList.js:297-308 | the items kept are exactly those in the list and not named |
| ItemLists.KeepRemoveAt | src/EmitterList.js:305 | splicing out an item of a list without repeats is dropping it |
| ItemLists.RemovingTurn | src/EmitterList.js:298-307 | where the loop stands after a turn that skips an absent item, stops at a stale one, or removes the item with its `remove` event |
| ItemLists.EmitterList.RemoveTurn | src/EmitterList.js:298-307 | one turn: an absent item is skipped; a present one is disconnected, spliced out and reported with its index; a throwing disconnect ends the loop with the item still in |
| ItemLists.EmitterList.RemoveLoop | src/EmitterList.js:297-308 | the loop yields exactly the items and events of `RemoveFrom`, stopping exactly when it says |
| ItemLists.EmitterList.RemoveItems | src/EmitterList.js:287-311 | items and events as `RemoveFrom` says; removed emitters lose every binding of the list; others are untouched, except a throwing one, whose other contexts are kept; forwarding kept on success |
| ItemLists.EmitterList.RemoveStart | src/EmitterList.js:297 | the loop of removeItems starts from its specification |
| ItemLists.EmitterList.RemoveEnd | src/EmitterList.js:297-308 | after the loop, removed emitters are disconnected from the list and items not in the list are untouched |
| ItemLists.DisconnectList | src/EmitterList.js:303 | `item.disconnect( list )`: every binding of the list goes, or the call throws, exactly when a binding of the list is stale, keeping the bindings of other contexts |
| ItemLists.EmitterList.StaleItems | src/EmitterList.js:303 | exactly the given items whose emitter has a binding of the list that `disconnect( list )` throws on |
| ItemLists.FirstIn | src/EmitterList.js:323-328 | the position of the first cleared item whose disconnect throws, or the count |
| ItemLists.EmitterList.DisconnectCleared | src/EmitterList.js:323-328 | the loop disconnects the cleared items in order up to the first that throws, leaving the later ones untouched |
| ItemLists.EmitterList.ClearItems | src/EmitterList.js:319-333 | the list is empty; each emitter taken out before the first throwing one is disconnected from the list; one `clear` and no `remove` is emitted when nothing throws |
| ItemLists.Without | src/EmitterList.js:141 | deleting a key keeps the table no longer than before |
| ItemLists.WithoutMembers | src/EmitterList.js:141 | deleting a key keeps exactly the other pairs |
| ItemLists.WithoutKeys | src/EmitterList.js:141 | the keys left after deleting one are the others |
| ItemLists.WithoutOk | src/EmitterList.js:141 | deleting a key keeps the table's keys distinct and its values truthy, and leaves that key out |
| ItemLists.AggregateStepOk | src/EmitterList.js:123-157 | one entry of aggregate keeps the keys distinct and the values truthy |
| ItemLists.AggregateOk | src/EmitterList.js:120-159 | aggregate keeps the table's invariant, also when it throws midway |
| ItemLists.AggregateDuplicate | src/EmitterList.js:126-130 | a truthy group event for an event already aggregated throws, and changes nothing |
| ItemLists.AggregateRoundTrip | src/EmitterList.js:120-159 | aggregating a new event and then setting it to null gives back the table |
| ItemLists.RemovedHasNoMatches | src/EmitterList.js:132-139 | after disconnecting a forwarder none is left, and disconnecting it again changes nothing |
| ItemLists.ExpectedOne | src/EmitterList.js:145-156 | with distinct keys, an aggregated event is forwarded by exactly one binding, to its group event, and any other by none |
| ItemLists.ForwardStepKeeps | src/EmitterList.js:126-157 | one entry of aggregate keeps an item's forwarders in line with the table |
| ItemLists.ForwardingKeeps | src/EmitterList.js:120-159 | aggregate keeps an item's forwarders in line with the table, also when it throws midway |
| ItemLists.ForwardStepOthers | src/EmitterList.js:126-157 | one entry of aggregate touches no binding but the forwarders and keeps the item's table well-formed |
| ItemLists.ForwardingOthers | src/EmitterList.js:120-159 | aggregate touches no binding of an item but the forwarders |
| ItemLists.EmitterList.ForwardItem | src/EmitterList.js:134-138 | one item's `disconnect( list, { ev: [ 'emit', g, item ] } )` or `connect`: the forwarder removed or appended, never a throw |
| ItemLists.EmitterList.ForwardTurn | src/EmitterList.js:132-139 | turn `i` of a loop over the items keeps the loop state one item further |
| ItemLists.EmitterList.Forward | src/EmitterList.js:132-139 | each emitter among the items loses, or gains, the forwarder of the event; other items are untouched |
| ItemLists.EmitterList.AggregateEntry | src/EmitterList.js:123-157 | one entry: throw on a duplicate; otherwise the old forwarders are disconnected and the key deleted, then a truthy group event is stored and connected on every item |
| ItemLists.EmitterList.AggregateAll | src/EmitterList.js:122-158 | the loop over the entries ends with the table and outcome of `AggregateSpec` and each item's bindings as `ForwardingSpec` says |
| ItemLists.EmitterList.Aggregate | src/EmitterList.js:120-159 | the table and outcome of `AggregateSpec`, each item's bindings as `ForwardingSpec` says, and the items keep forwarding exactly the aggregated events |
| SortedItemLists.ComparatorEquality | src/SortedEmitterList.js:1-7 | a consistent callback calls every item equal to itself, and equality is symmetric |
| SortedItemLists.ComparatorStrict | src/SortedEmitterList.js:1-7 | sorting strictly first, then first or equal, is sorting strictly first |
| SortedItemLists.SortedNoDuplicates | src/SortedEmitterList.js:1-7 | a strictly sorted list has no repeated item |
| SortedItemLists.InsertionIndex | src/SortedEmitterList.js:134-147 | binarySearch with `forInsertion` always gives an index in `[0, count]` |
| SortedItemLists.SortedMonotone | src/SortedEmitterList.js:134-147 | on a sorted list the search function with a fixed item is monotone, as binarySearch needs |
| SortedItemLists.InsertionPoint | src/SortedEmitterList.js:134-147 | on a sorted list, items before the index sort before the item, items after it sort after it, and an equal item can only be the one at the index |
| SortedItemLists.SortedEmitterList.FindInsertionIndex | src/SortedEmitterList.js:134-147 | the binary search for the item's place, an index in `[0, count]` |
| SortedItemLists.EqualIsOccupant | src/SortedEmitterList.js:105-117 | in a sorted list, an item equal to the new one can only be the item at the insertion index |
| SortedItemLists.VacatedMeaning | src/SortedEmitterList.js:105-117 | once an equal occupant is removed, the list is sorted, holds only items not equal to the new one, and the new item fits at the index |
| SortedItemLists.SortedInsertAt | src/SortedEmitterList.js:120 | inserting an item that sorts after everything before the index and before everything from it keeps the order |
| SortedItemLists.SortedRemoveAt | src/SortedEmitterList.js:116 | removing an item keeps the order |
| SortedItemLists.SortedInsertSorted | src/SortedEmitterList.js:101-121 | one turn keeps a sorted list sorted |
| SortedItemLists.SortedInsertContents | src/SortedEmitterList.js:105-121 | one turn replaces an item exactly when one compares equal, so the count then stays the same; the result holds the new item and the items not equal to it |
| SortedItemLists.TurnSorted | src/SortedEmitterList.js:101-121 | removing the equal occupant and then inserting each keep the list sorted and within the callback's domain |
| SortedItemLists.Evicted | src/SortedEmitterList.js:105-117 | the item removed before the insert is the equal one at the insertion index, if any |
| SortedItemLists.SortedAddFromStep | src/SortedEmitterList.js:99-122 | a turn that goes on leaves the rest of the loop on the list with the item placed |
| SortedItemLists.SortedAddFromSorted | src/SortedEmitterList.js:90-125 | addItems keeps a sorted list sorted on every path, and holds only items given or already there |
| SortedItemLists.SortedAddFromMembers | src/SortedEmitterList.js:90-125 | a run to the end leaves the old items no added item equals plus the added items no later added item equals: an equal item replaces, the last one winning |
| SortedItemLists.SortedAddFromCompletes | src/SortedEmitterList.js:90-125 | addItems runs to the end when every item is an object and no removal throws |
| SortedItemLists.SortedAddFromGoesOn | src/SortedEmitterList.js:99-122 | when the loop runs to the end, its first item is an object, its equal occupant's removal does not throw, and the rest of the loop runs to the end too |
| SortedItemLists.AddOne | src/SortedEmitterList.js:90-125 | with one item the item ends at the index of its `add`, after a `remove` of an equal occupant; the count stays the same then and grows by one otherwise |
| SortedItemLists.ResortDistinct | src/SortedEmitterList.js:72-81 | re-adding items no two of which compare equal to an empty list keeps all of them, each once, in the callback's order |
| SortedItemLists.SameMembers | src/SortedEmitterList.js:72-81 | two lists without repeats and with the same items are permutations of each other |
| SortedItemLists.ConnectSelf | src/SortedEmitterList.js:32-34 | connecting `itemSortChange` to the list's own `onItemSortChange` succeeds and stores one binding |
| SortedItemLists.SortChangeAggregation | src/SortedEmitterList.js:28-30 | `aggregate( { sortChange: 'itemSortChange' } )` on a new list succeeds and stores exactly that entry |
| SortedItemLists.ConnectKeepsStale | src/EmitterList.js:265-271 | connecting forwarders, which call the list's `emit`, adds no stale binding |
| SortedItemLists.DisconnectedNotStale | src/EmitterList.js:303 | once `disconnect( list )` has removed every binding of the list, none is stale |
| SortedItemLists.RemoveOne | src/SortedEmitterList.js:116 | removeItems of one item of the list takes it out, unless its disconnect throws |
| SortedItemLists.SortedEmitterList.constructor | src/SortedEmitterList.js:20-35 | an empty list with the callback; its aggregation table is the one `aggregate( { sortChange: 'itemSortChange' } )` leaves, and its own emitter binds `itemSortChange` to `onItemSortChange` |
| SortedItemLists.SortedEmitterList.Evict | src/SortedEmitterList.js:116 | the item at the index leaves with a `remove` event, unless its disconnect throws, and then has no binding of the list |
| SortedItemLists.SortedEmitterList.Place | src/SortedEmitterList.js:120-121 | an object goes in at the index, connected, with an `add` event; a non-object throws and changes nothing |
| SortedItemLists.SortedEmitterList.Vacate | src/SortedEmitterList.js:101-117 | finds the insertion index and removes the item there when it compares equal |
| SortedItemLists.SortedEmitterList.AddTurn | src/SortedEmitterList.js:99-122 | one turn keeps the loop state, or ends the loop with the error of its removal or insert |
| SortedItemLists.SortedEmitterList.AddLoop | src/SortedEmitterList.js:99-122 | the loop yields exactly the items and events of `SortedAddFrom`, and throws exactly where it halts |
| SortedItemLists.SortedEmitterList.AddItems | src/SortedEmitterList.js:90-125 | a single item is wrapped and an empty array changes nothing; items and events as `SortedAddFrom` says; the list stays sorted on every path |
| SortedItemLists.SortedEmitterList.TakeOut | src/SortedEmitterList.js:59 | removeItems( item ): on success the list holds the other items, in order |
| SortedItemLists.SortedEmitterList.PutBack | src/SortedEmitterList.js:61 | addItems( item ) on the remaining items, as `SortedAddFrom` says |
| SortedItemLists.SortedEmitterList.OnItemSortChange | src/SortedEmitterList.js:57-62 | the item is removed and added again, ending at its sorted place in a sorted list |
| SortedItemLists.SortedEmitterList.Empty | src/SortedEmitterList.js:78 | clearItems: on success every item taken out keeps its invariant and has no binding of the list |
| SortedItemLists.SortedEmitterList.Refill | src/SortedEmitterList.js:80 | addItems of the old items into the empty list, none stale, as `SortedAddFrom` says |
| SortedItemLists.SortedEmitterList.SetSortingCallback | src/SortedEmitterList.js:72-81 | the callback is installed, the list cleared with one `clear`, and the items re-added under the new order; when no two compare equal, the list holds exactly the old items |
| BinarySearch.BinarySearch | src/core.js:353-370 | the result and the probed indexes are those of the reference search over `[0, length)` |
| BinarySearch.Midpoint | src/core.js:357-359 | the probed midpoint lies inside the non-empty window |
| BinarySearch.SearchResult | src/core.js:353-370 | without `forInsertion`, null or the index of an element the search function calls equal; with it, always an index in `[0, length]` |
| BinarySearch.SearchInWindow | src/core.js:356-369 | every answer lies in the current window |
| BinarySearch.SearchStep | src/core.js:358-368 | one probe: a match returns the midpoint, and otherwise the search goes on in the left or right half with the midpoint added to the probes |
| BinarySearch.SearchPartitions | src/core.js:361-369 | under a monotone search function, a search with no match stops where everything before sorts first and everything after sorts last |
| BinarySearch.MonotoneSearch | src/core.js:353-370 | under a monotone search function a match is found whenever one exists; otherwise the insertion point partitions the array |
| BinarySearch.ProbeCount | src/core.js:356-367 | the window halves with every probe: at most log2(n) + 1 probes, all inside the window |
| BinarySearch.Log2Monotone | src/core.js:356-367 | halving the window lowers log2 by one |
| BinarySearch.ToInt32 | src/core.js:359 | the signed 32-bit value JavaScript's `>>` works on: in range and congruent mod 2^32 |
| BinarySearch.ShiftMidpointAgrees | src/core.js:357-359 | while left + right stays below 2^31, `( left + right ) >> 1` is the floor of the half |
| BinarySearch.ShiftMidpointOverflows | src/core.js:359 | for an array of 2^31 elements the first probe of `>> 1` is the negative index -2^30 |
| BinarySearch.SearchExamples | src/core.js:353-370 | on the sorted test array, searching 12 probes index 6 once, -42 probes 6, 3, 1, 0, and 2000 is not found |
| BinarySearch.InsertionExamples | src/core.js:369 | insertion points 0, 2 and 12 at the start, middle and end |
| ObjectPaths.GetProp | src/core.js:192-202 | the loop returns `PathValue`: the object itself for no keys, undefined once a value before the last key is null or undefined |
| ObjectPaths.GetPropNoKeys | src/core.js:192-202 | with no keys the argument itself is returned |
| ObjectPaths.PathValueAppend | src/core.js:194-200 | reading along a longer path is reading the rest below the prefix's value |
| ObjectPaths.GetPropStopsAtNothing | src/core.js:195-198 | once a value on the path is null or undefined, the rest of the path reads undefined |
| ObjectPaths.UndefinedPath | src/core.js:195-198 | every path below undefined, and every non-empty path below null, reads undefined |
| ObjectPaths.SetProp | src/core.js:220-236 | the walk down, the write and the way back up yield exactly `SetPropSpec` |
| ObjectPaths.SetDescend | src/core.js:226-234 | the loop down the path creates `{}` for undefined intermediates and stops at a null or primitive one |
| ObjectPaths.SetAscend | src/core.js:235 | the last key is written and every object is put back into its parent |
| ObjectPaths.SetAtSucceeds | src/core.js:226-234 | the walk succeeds exactly on a path whose intermediates are undefined or objects |
| ObjectPaths.EmptyObjectSettableAll | src/core.js:227-229 | below `{}` every non-empty path can be set |
| ObjectPaths.SetAtReads | src/core.js:235 | after a successful walk the path reads the value |
| ObjectPaths.SetAtFrame | src/core.js:226-235 | every path that leaves the written one reads as before |
| ObjectPaths.SetPropMeaning | src/core.js:220-236 | unchanged unless the root is an object, a key is given and the path can be set; then the root keeps its kind, the path reads the value and every path leaving it reads as before |
| ObjectPaths.DeleteProp | src/core.js:247-274 | the walk down, the delete and the clean-up on the way back yield exactly `DeletePropSpec` |
| ObjectPaths.DeleteDescend | src/core.js:251-263 | the loop down pushes each object on the path and stops at an undefined or non-object intermediate |
| ObjectPaths.DeleteAscend | src/core.js:264-273 | the last key is deleted, then each emptied plain object is removed from its parent |
| ObjectPaths.DeleteAtMeaning | src/core.js:247-274 | the walk succeeds exactly when every intermediate is an object; the root keeps its kind and the path is gone |
| ObjectPaths.DeleteAtLeavesNoEmptyPlain | src/core.js:265-273 | no plain object left without properties remains strictly between the root and the last key |
| ObjectPaths.DeleteAtSiblings | src/core.js:247-274 | the root's properties other than the first key are untouched |
| ObjectPaths.DeletePropMeaning | src/core.js:247-274 | unchanged unless the root is an object, a key is given and every intermediate is an object; then the root stays, the path reads undefined, the root's other properties keep their values, and no emptied plain intermediate is left |
| ObjectPaths.EmptyPaths | src/core.js:227-229 | below `{}` every non-empty path reads undefined |
| ObjectPaths.GetPropExamples | src/core.js:192-202 | reads of the test object, including reads through null and through a number |
| ObjectPaths.SetPropCreatesExample | src/core.js:227-229 | a write below `bar` creates the missing intermediate |
| ObjectPaths.SetPropBlockedExamples | src/core.js:222-232 | a number or null on the path is not descended into, and a non-object root is left as is |
| ObjectPaths.DeleteBazExample | src/core.js:264-273 | deleting a key below the root keeps the non-empty parent |
| ObjectPaths.DeleteTwoCleanupsExample | src/core.js:265-273 | deleting `bar.quux.whee` empties `quux` and then `bar`, both removed, `foo` kept |
| ObjectPaths.DeletePropBlockedExample | src/core.js:255-260 | a number on the path stops the walk |
| ObjectPaths.DeleteEmptiedExample | src/core.js:265-273 | an empty plain object on the path is removed even when the last key was absent |
| DeepCompare.OrEmpty | src/core.js:394-395 | a falsy value becomes `{}`, a truthy one stays |
| DeepCompare.CompareReflexive | src/core.js:389-392 | every value equals itself |
| DeepCompare.CompareByContentReflexive | src/core.js:401-422 | a value equals itself even without the `a === b` shortcut |
| DeepCompare.CompareIgnoresIdentity | src/core.js:390-392 | the shortcut does not change any answer |
| DeepCompare.FalsyFirstIsEmpty | src/core.js:394 | a falsy first argument acts as `{}` |
| DeepCompare.FalsySecondIsEmpty | src/core.js:395 | a falsy second argument acts as `{}` |
| DeepCompare.NullAndUndefinedAreEmpty | src/core.js:394-395 | null and undefined act as `{}` on either side |
| DeepCompare.SymmetricIsBothWays | src/core.js:421-422 | the symmetric form is the asymmetric form in both directions |
| DeepCompare.SymmetricCommutes | src/core.js:421-422 | the symmetric form does not depend on the order of its arguments |
| DeepCompare.UndefinedKeyIgnoredFirst | src/core.js:402-405 | a key of `a` holding undefined is the same as a missing key |
| DeepCompare.UndefinedKeyIgnoredSecond | src/core.js:401-422 | a key of `b` holding undefined is the same as a missing key |
| DeepCompare.UndefinedKeyIgnored | src/core.js:401-422 | for the symmetric form, a key holding undefined is the same as a missing key |
| DeepCompare.ExtensionMatches | src/core.js:401-420 | the asymmetric form holds when `b` has every own property of `a` with the same value |
| DeepCompare.AsymmetricFailure | src/core.js:408-419 | the asymmetric form fails only at a defined property of `a` that differs in type, in primitive value or in the nested comparison |
| DeepCompare.EmptyExamples | src/core.js:394-422 | `[]` equals `{}`, and `{}` equals null both ways |
| DeepCompare.NonEmptyAgainstNullExample | src/core.js:394-422 | `{ a: 1 }` does not equal null |
| DeepCompare.DifferentBooleansExample | src/core.js:412-416 | `[ true ]` does not equal `[ false ]` |
| DeepCompare.ExplicitUndefinedExample | src/core.js:402-405 | `[ 1, 2, undefined ]` equals `[ 1, 2 ]` |
| DeepCompare.MissingKeyExample | src/core.js:402-405 | `{ a: 5 }` equals `{ a: 5, b: undefined }` |
| ArraySets.Unique | src/core.js:542-544 | no value twice, and exactly the values of the input |
| ArraySets.DedupFirstOccurrenceOrder | src/core.js:542-544 | the distinct values come in the order of their first occurrence |
| ArraySets.DedupOfDistinct | src/core.js:542-544 | a duplicate-free array is its own `unique` |
| ArraySets.UniqueIdempotent | src/core.js:542-544 | `unique` applied twice is `unique` applied once |
| ArraySets.DedupSnoc | src/core.js:542-544 | one more value either leaves the result alone or is appended |
| ArraySets.DedupElements | src/core.js:542-544 | `unique` keeps exactly the values of its input |
| ArraySets.DedupNoDuplicates | src/core.js:542-544 | `unique` leaves no value twice |
| ArraySets.SimpleArrayUnion | src/core.js:555-566 | the Set seeded from `a` and fed every element of the other arrays gives `unique` of all arrays concatenated |
| ArraySets.AddEach | src/core.js:560-562 | adding each element of one array to the Set gives the Set of the values seen so far, in first-occurrence order |
| ArraySets.SetAddStep | src/core.js:561 | `set.add` of one value to the Set of a prefix gives the Set of the longer prefix |
| ArraySets.SimpleArrayCombine | src/core.js:580-592 | the loop keeps exactly the elements of `a` whose membership in `b` equals `includeB` |
| ArraySets.SimpleArrayIntersection | src/core.js:603-605 | the elements of `a`, duplicates and order kept, that are in `b` |
| ArraySets.SimpleArrayDifference | src/core.js:616-618 | the elements of `a`, duplicates and order kept, that are not in `b` |
| ArraySets.CombineMultiplicity | src/core.js:580-592 | a value occurs as often as in `a` when its membership in `b` matches, and not at all otherwise |
| ArraySets.CombineAppend | src/core.js:584-589 | combining works piecewise over a concatenation of `a`, so `a`'s order is kept |
| ArraySets.IntersectionDifferencePartition | src/core.js:603-618 | intersection and difference together hold every element of `a` exactly as often as `a` does |
| ArraySets.UniqueExamples | src/core.js:542-544 | duplicates dropped and first occurrences kept, as in the unit tests |
| ArraySets.CombineExamples | src/core.js:580-618 | intersection and difference of the unit tests' arrays |
| Registries.VisitAllSnoc | src/Registry.js:55-58 | walking one more element of an array name after a prefix that did not throw |
| Registries.VisitAllStops | src/Registry.js:55-61 | once an element throws, the later elements are never reached |
| Registries.Thrown | src/Registry.js:59-61 | the call throws exactly when the walk met a value that is neither a string nor an array |
| Registries.AssignedLookup | src/Registry.js:51-58 | after `register` every name reached has the data, overriding what it had; the other names keep theirs, and the names are the old ones plus those reached |
| Registries.AssignedAppend | src/Registry.js:55-58 | registering two runs of names one after the other registers their concatenation |
| Registries.RegisterEventsAppend | src/Registry.js:54-58 | the events of two runs of names are the events of their concatenation |
| Registries.RegisterEventsMeaning | src/Registry.js:54 | each name reached is reported with the data, in order |
| Registries.UnassignedAppend | src/Registry.js:78-81 | unregistering two runs of names one after the other unregisters their concatenation |
| Registries.UnassignedRegistry | src/Registry.js:71-81 | exactly the names reached that have data are deleted; every other entry stays |
| Registries.RemovableCons | src/Registry.js:73-77 | the first name is reported exactly when it has data |
| Registries.UnassignedReportsRemovable | src/Registry.js:73-77 | every `unregister` event reports a deleted name with the data it had |
| Registries.UnassignedReportsAll | src/Registry.js:73-77 | every deleted name is reported |
| Registries.UnassignedReportsOnce | src/Registry.js:73-77 | no name is reported twice |
| Registries.RegisterStep | src/Registry.js:56-58 | one turn of the loop of `register` extends the walk and the registry by the element's |
| Registries.UnregisterStep | src/Registry.js:79-81 | one turn of the loop of `unregister` extends the walk and the removals by the element's |
| Registries.RegisterUnregister | src/Registry.js:51-85 | registering names and then unregistering them leaves none of them, with one report each |
| Registries.UnregisterUnknown | src/Registry.js:72-77 | unregistering a name without data changes nothing and reports nothing |
| Registries.RegistryExamples | src/Registry.js:51-62 | the walk of `[ 'a', [ 'b' ], 5, 'c' ]` reaches `a` and `b`, then throws at the number |
| Registries.Registry.constructor | src/Registry.js:13-19 | a new registry: no name has data, not even `hasOwnProperty` or `prototype` |
| Registries.Registry.Register | src/Registry.js:51-62 | every string reached gets the data and is reported; the first value that is neither string nor array throws, the names before it having taken effect |
| Registries.Registry.RegisterEach | src/Registry.js:55-58 | the loop over an array name registers the names of its walk and stops at the first throw |
| Registries.Registry.Unregister | src/Registry.js:71-85 | every string reached that has data is deleted and reported with that data; the others are skipped; a bad value throws after the names before it |
| Registries.Registry.UnregisterEach | src/Registry.js:78-81 | the loop over an array name unregisters the names of its walk and stops at the first throw |
| Factories.CheckKey | src/Factory.js:44-46 | passes exactly a non-empty string, and fails otherwise with the key error |
| Factories.RegisterKey | src/Factory.js:37-46 | a non-function throws with its `typeof`; the key is the argument when given, else the declared key; it must be a non-empty string |
| Factories.UnregisterKey | src/Factory.js:58-64 | a function stands for its declared key; the key must be a non-empty string |
| Factories.KeyBeforeStaticName | src/Factory.js:41-43 | a non-empty `key` wins over `static.name`, for register and unregister alike |
| Factories.StaticNameFallback | src/Factory.js:41-43 | without a truthy `key`, the key is `static.name` |
| Factories.NoDeclaredKey | src/Factory.js:41-46 | a constructor with neither a key nor a static name cannot be registered or unregistered by itself |
| Factories.DeclaredKeyBothWays | src/Factory.js:41-43 | a constructor registered by its declared key is unregistered, by itself, under the same key |
| Factories.FactoryKeyExamples | src/Factory.js:37-68 | keys by `key`, by `static.name`, by `key` over `static.name`, an explicit key, and the rejected cases |
| Factories.Factory.constructor | src/Factory.js:5-8 | a new factory has an empty registry |
| Factories.Factory.Register | src/Factory.js:37-50 | on a failed check nothing changes; otherwise the key maps to the constructor and one `register` event is emitted |
| Factories.Factory.Unregister | src/Factory.js:58-68 | on a failed check nothing changes; otherwise the entry is deleted and reported when it had data, and an unknown key changes nothing |
| Factories.Factory.Create | src/Factory.js:105-115 | throws exactly when the key has no truthy entry; otherwise the registered constructor and the arguments after the key, in order |

## Left out

- Prototype machinery (`initClass`, `inheritClass`, `mixinClass`, `isSubclass`), `cloneObject`, `copy`, `getHash`, `getObjectValues` and `isPlainObject` on host objects: they depend on JavaScript's object model rather than on this library's logic. `JsValues.IsPlainObject` is a stand-in for the values this model has.
- The DOM branch of `compare` (`isEqualNode`): there are no DOM nodes in the value model.
- Floating-point numbers: numbers are integers, so NaN, -0 and fractional indexes do not arise.
- Object identity in `compare` and `===`: two values with the same contents are the same value. `DeepCompare.CompareIgnoresIdentity` shows the shortcut changes no answer.
- The `setTimeout` rethrow of `emit` and `emitThrow`: a deferred error is appended to the returned list.
- Listener bodies: they are opaque. A listener that calls back into the emitter, the list or the registry is not modelled, and neither are the effects of handlers on their arguments.
- Dispatch of the list's and the registry's own events: they are appended to `emitted` instead.
- The list's own `emit` is assumed to resolve (`CanForward`): the list mixes in an event emitter.
- Inherited properties: `Get` sees own properties only, so a `static.name` that a constructor inherits through `inheritClass` is not seen by the factory's key derivation.
- `Reflect.construct` and its fallback in `create`: `Factories.Factory.Create` returns the constructor and arguments it would call.
- Factories.Factory.Create: the key is a string; JavaScript would also convert other values to property names.
- `src/oo.js` and `src/util.js`: the library's export and `isPlainObject`, which are not part of this model.
- SortedItemLists.SortedEmitterList.AddItems: the callback must be a consistent three-way comparison on the items involved. The JavaScript code accepts any function, and its behaviour under an inconsistent one is not described.
- SortedItemLists.SortedEmitterList.OnItemSortChange: the other items must be sorted. The moved item itself may be out of place, which is the point of the call.
- SortedItemLists.SortedEmitterList.SetSortingCallback: the new callback must be a consistent three-way comparison on the items, as for `addItems`.
- SortedItemLists.SortedEmitterList.PutBack: the callback must be a consistent three-way comparison on the items, as for `addItems`.
- SortedItemLists.SortedEmitterList.Refill: the callback must be a consistent three-way comparison on the items, as for `addItems`.
- Events.EventEmitter.DisconnectAll: the events are visited in no fixed order, whereas `for ( event in this.bindings )` visits them in the table's key order (insertion order, integer-like names first). After a throw, the model says every other event is either unchanged or rid of the host's bindings, but not that the cleaned ones are exactly those before the stale one in that order.
- Events.EventEmitter.Disconnect: without entries, as for `Events.EventEmitter.DisconnectAll`. The same gap reaches `item.disconnect( list )` inside `ItemLists.EmitterList.RemoveItems` and `ItemLists.EmitterList.ClearItems` when that call throws.
- ObjectPaths.GetProp: the own properties of primitives and an array's `length` are not modelled. `JsValues.Get` reads undefined for every property of a string, number or boolean and for `length` of an array, where JavaScript gives a string's characters and length (`getProp( { s: 'abc' }, 's', 'length' )` is 3) and an array's length. The same holds wherever `Get` is used, such as the second argument of `compare` and the key derivation of the factory.
- ObjectPaths.SetProp: objects are trees of values, so update in place and aliasing are not captured. When two paths reach one JavaScript object, `setProp` through one changes what the other reads; the model changes one copy. Cyclic objects cannot be expressed. `ObjectPaths.SetAtFrame` and `ObjectPaths.SetPropMeaning` hold for trees.
- ObjectPaths.DeleteProp: the same as for `ObjectPaths.SetProp`: a deletion seen through another path to a shared object, and cyclic objects, are not captured. `ObjectPaths.DeleteAtSiblings` and `ObjectPaths.DeletePropMeaning` hold for trees.
- BinarySearch.BinarySearch: probes the floor midpoint, not `( left + right ) >> 1`. The two agree while `left + right` is below 2^31 (`BinarySearch.ShiftMidpointAgrees`); above that the source differs, as recorded under Findings.
- Registries.Registry.Register: the name `__proto__` is stored as an ordinary key. In JavaScript `this.registry[ '__proto__' ] = data` sets the prototype of the registry object (or does nothing), so `lookup( '__proto__' )` stays undefined.
- Registries.Registry.Unregister: likewise, a `__proto__` the model stored is deleted and reported. In JavaScript it never became an own key, so `lookup` gives undefined and nothing is reported.
- Events.EventEmitter.EmitThrow: the table is modelled after every `once` removal, as if no listener changed it; re-entrant changes are not captured.

## Findings

| source | as written | input that shows it | evidently intended | confidence | as-written member | corrected member |
|---|---|---|---|---|---|---|
| src/core.js:359 | the midpoint is `( left + right ) >> 1`, a signed 32-bit shift | an array of 2^31 elements (a legal JavaScript length): the first probe is index -2^30 | `Math.floor( ( left + right ) / 2 )`, as the comment beside it says | low: arrays that long are rare; not executed | BinarySearch.ShiftMidpointOverflows | BinarySearch.Midpoint |
