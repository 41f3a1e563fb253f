# lat-mixins core in Dafny

This project models three behaviour mixins of lat-mixins and proves their contracts.

- **LinkedList** (`linked_list.dfy`). A doubly linked list kept in one array. Each node stores a payload and two raw array positions, `_next` and `_previous`. Nodes are only appended. So the node at position `i` links to `i + 1` and `i - 1`, and `getIndex` recovers `i` as the mean of the two links. The class `List` holds `_nodes` as a sequence of `Node` records. A node handle is the node's position. The getters and setters of a node become members of `List` that take that handle.
- **Set** (`set.dfy`). A list extended with one mutable cursor, `_currentNode`. The cursor is used as an iterator. The class `CursorSet` wraps a `List`, kept as a constant field, and stores the cursor as the position of its node. The first cursor access that finds no cursor sets it to the head. `empty` does not reset the cursor. A ghost flag, `stale`, records that the cursor now points at a discarded node.
- **Eventing** (`eventing.dfy`). A publish/subscribe table from event type to an ordered list of `(handler, thisArg)` subscriptions. Each list holds a given pair at most once. The class `Publisher` holds `_handlers` as a `map<string, seq<Entry>>`. The effect of `subscribe` and `unsubscribe` is stated through the functions `SubscribeAll` and `UnsubscribeAll`, and the lemmas beside them prove what those functions do.

`wrappers.dfy` defines `Option` and `Result`. `None` stands for JavaScript's `undefined`, and `Failure` stands for an exception.

Modelling choices:

- A payload argument is an `Option<T>`. `Some(x)` stands for a truthy value. `None` stands for any falsy or missing value.
- A stored payload is `Item(x)` or `EmptyObject`. `EmptyObject` is the `{}` that the getter stores when the node held nothing. `add(falsy)` therefore stores `{}`, because `add` calls the getter form of `data`.
- `getIndex` uses integer division. Under the list invariant the two links always add up to `2i`, so the division is exact.
- Cursor reads on an empty list with no cursor throw in the source, because they call a method of `undefined`. Here they return `Failure(NoCursor)`.
- Handlers and `thisArg` values are opaque `Ref` identities compared by equality. A missing `thisArg` is `None`.
- An out-of-range `select` raises no error. The cursor keeps its place, after the lazy default, and `select` returns the cursor node instead of the set.
- `empty` leaves `_currentNode` as it was. A cursor set before `empty` refers to a discarded node.
- `publish` returns the normalised event and the list of subscriptions it is dispatched to, in order.

## Model

| member | source | states |
|---|---|---|
| LinkedList.List.Add | dist/LinkedList.js:11-21 | appends exactly one node, at the old size; the node holds the argument (or `{}` when it is falsy), links to `h + 1` and `h - 1`; earlier nodes are unchanged; the append-only invariant is kept |
| LinkedList.List.Head | dist/LinkedList.js:24-26 | the first node, absent exactly when the list is empty; the head has no predecessor |
| LinkedList.List.Tail | dist/LinkedList.js:29-31 | the last node, absent exactly when the list is empty; the tail has no successor |
| LinkedList.List.Size | dist/LinkedList.js:39-41 | the number of nodes: exactly the positions `getAt` resolves are below it; zero exactly when there is no head, otherwise one past the tail's position |
| LinkedList.PayloadsOfAppend | dist/LinkedList.js:11-21 | appending nodes appends their payloads, which is how `add` extends the list's contents |
| LinkedList.List.GetAt | dist/LinkedList.js:34-36 | the node at `index` when `0 <= index < size`, nothing for a negative index or one at or past the size |
| LinkedList.List.Empty | dist/LinkedList.js:44-46 | no nodes remain; head and tail are absent |
| LinkedList.List.ForEachNode | dist/LinkedList.js:48-52 | following `next` from the head visits every node exactly once, in position order 0..size-1, and terminates |
| LinkedList.List.Data | dist/LinkedList.js:60-67 | a truthy argument is stored and nothing is returned; a falsy one returns the stored payload, storing `{}` only when none was stored; the invariant is kept |
| LinkedList.List.SetPrevious | dist/LinkedList.js:70-73 | the setter form of `previous` overwrites only that node's previous link |
| LinkedList.List.Previous | dist/LinkedList.js:70-76 | resolving the stored previous link gives the node at `h - 1`, absent exactly at the head |
| LinkedList.List.SetNext | dist/LinkedList.js:79-82 | the setter form of `next` overwrites only that node's next link |
| LinkedList.List.Next | dist/LinkedList.js:79-85 | resolving the stored next link gives the node at `h + 1`, absent exactly at the tail |
| LinkedList.List.HasPrevious | dist/LinkedList.js:88-90 | true exactly when the node is not the head |
| LinkedList.List.HasNext | dist/LinkedList.js:93-95 | true exactly when the node is not the tail |
| LinkedList.List.GetIndex | dist/LinkedList.js:98-100 | the mean of the two stored links is the node's own position |
| Set.CursorSet.Add | dist/LinkedList.js:11-21 | the inherited `add`: appends as the list does and leaves the cursor alone |
| Set.CursorSet.Empty | dist/LinkedList.js:44-46 | the inherited `empty`: discards the nodes but keeps the cursor, which becomes stale exactly when it was set; needs no invariant and leaves the set valid |
| Set.CursorSet.AddAll | dist/Set.js:15-19 | appends the items in order; the payloads become the old payloads followed by the items' payloads; earlier nodes and the cursor are unchanged |
| Set.CursorSet.ForEach | dist/Set.js:92-97 | one callback per node, in position order, each with the node's payload and an index equal to its position |
| Set.CursorSet.GetAll | dist/Set.js:23-29 | the payloads in list order, whatever the cursor; with the contract of `AddAll`, a new set filled by `addAll(items)` gives back the items' payloads in order |
| Set.CursorSet.CurrentNode | dist/Set.js:121-130 | an unset cursor is first set to the head; given a node, the cursor moves there and `This` is returned; otherwise the cursor node is returned |
| Set.CursorSet.Select | dist/Set.js:34-36 | an in-range index moves the cursor to that node and returns `This`; an out-of-range index only applies the lazy default and returns the cursor node |
| Set.CursorSet.Current | dist/Set.js:41-43 | the payload of the cursor node after the lazy default; fails exactly when the list is empty |
| Set.CursorSet.CurrentIndex | dist/Set.js:47-49 | the position of the cursor node (so `select(i)` then `currentIndex()` gives `i`); fails exactly when the list is empty |
| Set.CursorSet.ObjInDir | dist/Set.js:105-113 | follows one link from the cursor node; if a node is there, moves onto it and returns its payload; otherwise returns nothing and the cursor stays put |
| Set.CursorSet.Next | dist/Set.js:55-57 | moves to the successor and returns its payload; at the tail returns nothing and keeps the cursor at the tail |
| Set.CursorSet.Previous | dist/Set.js:63-65 | moves to the predecessor and returns its payload; at the head returns nothing and keeps the cursor at the head |
| Set.CursorSet.HasNext | dist/Set.js:69-71 | whether the cursor node has a successor; the cursor moves only by the lazy default |
| Set.CursorSet.HasPrevious | dist/Set.js:75-77 | whether the cursor node has a predecessor; the cursor moves only by the lazy default |
| Set.CursorSet.Peek | dist/Set.js:83-88 | the payload at cursor position + `which` when it is in `[0, size)`, nothing otherwise; the cursor moves only by the lazy default; `peek(0)` is the current payload |
| Set.AsPayloadsAppend | dist/Set.js:15-19 | the payloads of a concatenation of `addAll` items are the payloads of each part, in order |
| Set.ReadFromHead | dist/Set.js:34-57 | on any non-empty set, `select(0)`, `current` and `next` repeated until the tail yield every payload in list order and leave the cursor at the tail |
| Set.WalkToTail | dist/Set.js:15-57 | for any non-empty `items`, a new set filled by `addAll(items)` gives the items' payloads back through `getAll`; `select(0)`, `current` and `size - 1` calls of `next` yield those payloads in order; one more `next` yields nothing |
| Set.AdvanceStopsAtTail | dist/Set.js:105-113 | `k` forward steps from position `p` reach `min(p + k, size - 1)`: from the head, `size - 1` steps reach the tail, and any more steps stay there |
| Set.RetreatStopsAtHead | dist/Set.js:105-113 | `k` backward steps from position `p` reach `max(p - k, 0)` and then stay at the head |
| Eventing.TypeNames | dist/Eventing.js:29-31 | an array of types is used as it is; a string is split on maximal `\s` runs, giving at least one name and no name that holds whitespace (the same step as dist/Eventing.js:64-66 in `unsubscribe`) |
| Eventing.SplitFrom | dist/Eventing.js:29-31 | splitting on maximal whitespace runs (`/\s+/`) always yields at least one field, even for an empty string |
| Eventing.SplitFieldsSpaceFree | dist/Eventing.js:29-31 | no field produced by the whitespace split contains whitespace |
| Eventing.SplitJoin | dist/Eventing.js:29-31 | a space-separated string of type names means the same names as the array of its parts |
| Eventing.Publisher.IndexOf | dist/Eventing.js:139-150 | the position of the first entry matching both handler and `thisArg`; -1 exactly when none matches, including when the type has no list |
| Eventing.Position | dist/Eventing.js:139-150 | specification of `indexOf`: the first matching position, -1 exactly when the pair is absent |
| Eventing.Publisher.Subscribe | dist/Eventing.js:26-48 | the new table is `SubscribeAll` of the old one over the type names; no list ever holds a pair twice |
| Eventing.SubscribeAllEffect | dist/Eventing.js:33-44 | each named type's list exists afterwards; a new pair is appended at its end and a listed pair leaves the list unchanged; other types are untouched |
| Eventing.SubscribeAllKeepsNoDup | dist/Eventing.js:36-42 | subscribing keeps every list free of duplicate pairs |
| Eventing.SubscribeAllIdempotent | dist/Eventing.js:36-42 | subscribing the same pair to the same types a second time changes nothing |
| Eventing.Publisher.ClearHandlers | dist/Eventing.js:114-116 | the table becomes empty |
| Eventing.Publisher.RemoveHandlers | dist/Eventing.js:119-123 | the lists of exactly the given types are deleted |
| Eventing.Publisher.Unsubscribe | dist/Eventing.js:57-84 | with no types, the table is emptied; with types and no handler, exactly those types' lists are deleted; otherwise the table is `UnsubscribeAll` of the old one |
| Eventing.RemoveFirstIsWithout | dist/Eventing.js:72-78 | on a duplicate-free list, splicing out the first match removes the pair entirely and keeps the order of the rest |
| Eventing.UnsubscribeAllEffect | dist/Eventing.js:71-79 | on a duplicate-free table, the pair leaves exactly the named types' lists, the rest keep their order, the set of types is unchanged, and other types are untouched |
| Eventing.UnsubscribeAbsentIsNoOp | dist/Eventing.js:72-78 | unsubscribing a pair that none of the named types lists is a no-op |
| Eventing.SubscribeThenUnsubscribe | dist/Eventing.js:33-44 | subscribing a new pair and then unsubscribing it from the same types gives every type its old list back |
| Eventing.Publisher.Publish | dist/Eventing.js:90-101 | a string event becomes `{type: event}`; the event is dispatched to that type's subscriptions in subscription order |
| Eventing.Publisher.HandleEvent | dist/Eventing.js:126-136 | the dispatch walks a copy of the type's list taken before dispatch, once per entry, in order; an unknown type dispatches nothing |

## Left out

- Calling the callbacks is not modelled. `forEachNode` and `forEach` return the nodes or `(payload, index)` pairs they would pass, and `publish` returns the subscriptions it would call. The `thisArg || this` binding is left out. So is any callback that changes the list or the table while a traversal runs.
- The lazy creation of `_handlers` by the private `handlers` accessor (dist/Eventing.js:108-111) is left out. The table simply starts empty. Likewise `_nodes` is empty from construction, so the crash of `size`/`getAt` before the first `add` is not modelled.
- Mixing and inheritance (`define`, `_.extend`, `_.create`) are left out. `CursorSet` wraps a `List` rather than inheriting from it, and forwards `add` and `empty`. `size`, `getAt`, `head` and `tail` are reached through its `list` field.
- Node handles kept across `empty()` are not modelled. `List` handles are positions in the current array. `CursorSet` cursor reads require a cursor that is not stale. Only `select` of an in-range index makes a stale cursor live again. The source would still navigate from the discarded node, resolving its links against the new array.
- Set.CursorSet.Current: requires a cursor that is not stale. The source would read the discarded node's own payload.
- LinkedList.List.Next, Previous, HasNext, HasPrevious and GetIndex require the append-only invariant. They say nothing about a list whose links were overwritten through the raw setters `SetNext` and `SetPrevious`.
- LinkedList.List.ForEachNode requires the append-only invariant, and its termination rests on it. In the source, a node whose next link is overwritten to point back (for example `head().next(0)`) makes `forEachNode` loop forever; that case is not modelled.
- Set.CursorSet.ForEach and Set.CursorSet.GetAll require the set's invariant, for the same reason as `forEachNode`: both traverse by following `next` from the head, and their termination rests on the invariant. `add` and `addAll`, on the list and on the set, only append; they keep the invariant when it held and say nothing about it otherwise. `empty` needs no invariant and always establishes it.
- The distinct falsy JavaScript values (`0`, `""`, `null`, `false`, `NaN`, `undefined`) are all the one `None`. The source treats them alike in `data` and in `thisArg || this`. As a `thisArg` they would compare differently under `===`, and that difference is not modelled.
- Non-integer arguments to `getAt`, `select` and `peek`, and an undefined `which`, are not modelled. Indices are integers.
- A `types` argument that is neither an array nor a string, an event object without a `type`, and an undefined handler passed to `subscribe` are not modelled.
- Event types that clash with properties of `Object.prototype` (`"constructor"`, `"toString"`, ...) are not modelled. The model's table is a plain map, whereas in the source such a type resolves to the inherited property.
- dist/EventDelegation.js and dist/Data.js are not part of this model. One is jQuery event plumbing on a DOM target, and the other a wrapper over lodash-contrib object accessors.
