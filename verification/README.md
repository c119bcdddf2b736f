# Circular doubly-linked list with a sentinel, in Dafny

This project models `LinkedList<T>`, an index-addressed list kept as a
circular doubly-linked ring around a permanent sentinel ("dummy") node. There
are two versions of the class: the lab skeleton (`CSE274_Lab04/LinkedList.h`)
and the completed one (`LinkedList.h`). Every operation addresses items by
position. `find(i)` walks to the node of item `i`. `get`, `set`, `add` and
`remove` build on it, `size` counts the nodes round the ring, and the
destructor removes item 0 until the list is empty.

The model is functional. A list is an immutable value
`LinkedList(next, prev, data, numItems, nextSlot)`:

- Nodes are slots of an arena (`nat`). Slot `Ring.Dummy` (0) is the sentinel.
- `next`, `prev` and `data` map a slot to the field of that node.
- `nextSlot` is the next slot `new Node` would hand out.

Nothing abstract is stored. `LinkedLists.Order(l)` is the sequence of slots
met by walking `next` from the sentinel `numItems` times.
`LinkedLists.Contents(l)` is their data. `LinkedLists.Valid(l)` says that
walk closes the ring:

- the slots are distinct;
- `prev` undoes every `next` step;
- exactly the sentinel and the walked slots are live;
- only element slots carry data.

Each operation returns `Errors.Result`. `OutOfRange(index, size)` stands for
the string exception the class throws.

Modules:

- `Ring`: the link level. It defines rings as slot sequences, walking
  along `next` and `prev`, and proves that the splice-in and splice-out link
  rewrites turn a ring into a ring.
- `LinkedLists`: the list state, its abstraction, and `find`, `get`, `set`,
  `add` and `remove`.
- `Traversal`: the loops as methods. These are `size`, the lab's `find`
  walk, and the destructor.
- `Properties`: laws relating the operations. They cover the index shifts,
  the add/remove round trip, the ring closing in both directions, and a run
  of `add`, `remove`, `set` and `get` calls through the list 4, 1, 2, 3, 5
  that the `takeAll` comment uses.
- `AsWritten`: the completed `find`, `get` and `add` exactly as written, with
  `unsigned long` wrap-around. Lemmas there show where these differ from
  the documented behaviour (see Findings).

The operations follow the `find` contract of the lab skeleton
(CSE274_Lab04/LinkedList.h:62-65 and 107-108; the completed class declares
the same contract at LinkedList.h:62-65): `find(i)` returns the sentinel for
`i == numItems`. `add(i, x)` splices the new node in before the node
`find(i)` returns, so appending and adding to an empty list need no
separate case. The completed `add` instead finds the node before (`find(i - 1)`)
and takes a separate branch for the empty list. That version breaks the
`prev` ring, so it is modelled only in `AsWritten`.

## Model

| member | source | states |
|---|---|---|
| LinkedLists.Empty | LinkedList.h:79-91 | The new list is a valid ring with no items, and the sentinel's `next` and `prev` are the sentinel itself. |
| LinkedLists.EmptyIffSelfLinked | LinkedList.h:153 | A valid list is empty exactly when the sentinel's `next` is the sentinel, and exactly when its `prev` is; an empty list has only the sentinel live and no data. |
| LinkedLists.LinksAreInverse | CSE274_Lab04/LinkedList.h:12-18 | In a valid list `prev` undoes `next` and `next` undoes `prev` on every live node. |
| LinkedLists.Find | CSE274_Lab04/LinkedList.h:62-65 | Returns the slot of item `i` (never the sentinel) for `i < numItems` and the sentinel for `i == numItems`. Fails with `OutOfRange(i, numItems)` exactly when `i > numItems`. Every slot it returns is live. |
| Traversal.FindNode | CSE274_Lab04/LinkedList.h:104-123 | The loop that starts at the sentinel's successor and takes `i` steps along `next` while counting `i` down returns exactly what `Find` specifies. |
| LinkedLists.Get | CSE274_Lab04/LinkedList.h:143-151 | Succeeds exactly when `i` is below the length of the contents and then returns item `i`. When `find` gives the sentinel or fails, it fails with `OutOfRange(i, numItems)`. |
| LinkedLists.Set | LinkedList.h:125-139 | Succeeds exactly when `i < numItems`. The list stays valid, every link and the order of slots are unchanged, and the contents become the old contents with item `i` replaced by `x`. |
| LinkedLists.Add | LinkedList.h:141-183 | Succeeds exactly when `i <= numItems`. The result is valid and one item longer. The new slot sits at index `i` of the order, and the contents are the old ones with `x` inserted at index `i`. |
| LinkedLists.Remove | LinkedList.h:185-208 | Succeeds exactly when `i < numItems`. The result is valid and one item shorter, and item `i` is gone from the order and the contents. Its node is unlinked from both `next` and `prev` and no longer on the ring. |
| LinkedLists.SpliceBeforeCorrect | LinkedList.h:153-163 | The four link rewrites that put a fresh node before the slot `find(i)` returns leave a valid ring whose order has the new slot at index `i`. |
| LinkedLists.UnlinkCorrect | LinkedList.h:197-203 | Linking item `i`'s predecessor and successor to each other leaves a valid ring without item `i`, and the node is reachable from neither direction. |
| Ring.SpliceIn | LinkedList.h:155-161 | Splicing a slot not on a ring in after one of its positions gives a ring with that slot one position further on, in both directions. |
| Ring.SpliceOut | LinkedList.h:197-203 | Bypassing a ring position gives the ring without it, and the removed slot is no longer on it. |
| Ring.AdvanceForward | LinkedList.h:116-119 | `j` steps along `next` from position `k` of a ring reach position `k + j`, or the first position once the walk has gone all the way round. |
| Ring.AdvanceBackward | CSE274_Lab04/LinkedList.h:12-18 | `j` steps along `prev` from position `k` of a ring reach position `k - j`. |
| Traversal.Size | LinkedList.h:230-243 | Counting the nodes from the sentinel's successor until the sentinel comes round again gives `numItems`, the length of the contents. |
| Traversal.Destroy | LinkedList.h:93-103 | Removing item 0 while items remain releases exactly the slots of the order, front to back, one per item. It ends with the sentinel alone, linked to itself, and no data. |
| Traversal.RemoveFront | LinkedList.h:96-99 | One turn of the destructor loop keeps the list valid, takes one item off, and releases the first slot of the order. |
| Properties.NewListGetFails | CSE274_Lab04/LinkedList.h:143-151 | On a new list `find(0)` is the sentinel, so `get(0)` fails. |
| Properties.AddToEmptyIsTwoNodeRing | LinkedList.h:153-163 | Adding to an empty list links the sentinel and the new node to each other in both directions, and the contents are just `x`. |
| Properties.SetThenGet | LinkedList.h:125-139 | After `set(i, x)`, `get(i)` is `x` and `get` at any other index is unchanged. |
| Properties.AddShifts | LinkedList.h:33-36 | After `add(i, x)`, indices below `i` are unchanged and `get(i)` is `x`. Indices above `i` hold what was one index lower. |
| Properties.RemoveShifts | LinkedList.h:38-41 | After `remove(i)`, indices below `i` are unchanged and every later index holds what was one index higher. |
| Properties.AddThenRemove | LinkedList.h:33-41 | `add(i, x)` followed by `remove(i)` gives back the same links, data and count. Only the allocator has moved on. |
| Properties.RemoveThenAdd | LinkedList.h:33-41 | `remove(i)` followed by `add(i, get(i))` gives back the same contents. |
| Properties.RingClosesBothWays | CSE274_Lab04/LinkedList.h:12-18 | `numItems + 1` steps from the sentinel along `next` or along `prev` come back to the sentinel. The `prev` walk meets the items in reverse order. |
| Properties.AddAtEndAppends | LinkedList.h:33-36 | `add(numItems, x)` appends `x`. |
| Properties.RemoveFirstDropsHead | LinkedList.h:38-41 | `remove(0)` drops the first item. |
| Properties.ScenarioBuild | LinkedList.h:146-183 | Starting from the one-item list 4, appending 1 and 2 gives 4, 1, 2. |
| Properties.ScenarioAppend | LinkedList.h:43-47 | Appending 3 and 5 to 4, 1, 2 gives 4, 1, 2, 3, 5. |
| Properties.ScenarioEdit | LinkedList.h:191-208 | On 4, 1, 2, 3, 5, `remove(0)` gives 1, 2, 3, 5, then `set(1, 9)` gives 1, 9, 3, 5, where `get(2)` is 3. |
| AsWritten.FindAsWritten | LinkedList.h:109-123 | The completed `find` agrees with `Find` below `numItems`. Without wrap-around it fails exactly when `i >= numItems`. For `i == 2^64 - 1` it returns the sentinel. |
| AsWritten.FindAsWrittenRejectsEnd | LinkedList.h:114-115 | For `i == numItems` the completed `find` fails, while the documented `find` returns the sentinel. |
| AsWritten.GetSlotAsWritten | LinkedList.h:214-225 | Below `2^64 - 1` the completed `get` succeeds exactly when `i < numItems` and then reads item `i`. |
| AsWritten.GetAsWrittenReadsSentinel | LinkedList.h:219-222 | `get(2^64 - 1)` passes the wrapped check and reads the sentinel on every list, while `Get` fails. |
| AsWritten.HolderIsPredecessor | LinkedList.h:168 | `find(i - 1)` in `unsigned long` gives the node before the one `Find(i)` returns, and the two are linked to each other. |
| AsWritten.AddAsWritten | LinkedList.h:146-183 | The completed `add` accepts exactly `i <= numItems` and adds one item. Its `next` links and data are those of `Add`, and on an empty list the whole result is that of `Add`. |
| AsWritten.SpliceAfterAsWrittenAgrees | LinkedList.h:168-176 | The five link assignments set the same `next` links and data as the corrected splice, but leave the holder's `prev` pointing at the holder itself. |
| AsWritten.AddAsWrittenBreaksRing | LinkedList.h:168-176 | On every non-empty list, every accepted `add` leaves a structure that is not a ring: the holder's `next` is the new node while its `prev` is the holder. |

## Left out

- Memory management is not modelled. `new Node` is the `nextSlot` allocator, and the arena never reuses a slot. Freeing the sentinel at the end of the destructor is not modelled.
- The completed `remove` never deletes the node (LinkedList.h:192-208). The model releases the slot from all three maps, which is the release the destructor's comment asks for.
- Junk writes are left out: the sentinel's `data = -1` (LinkedList.h:88) and `removedNode->data = NULL` (LinkedList.h:205). The sentinel carries no data in the model.
- The exception strings become `OutOfRange(index, size)`.
- Outside `AsWritten`, indices and `numItems` are unbounded `nat`s. `unsigned long` wrap-around matters only at `2^64 - 1`, and `AsWritten` covers that case.
- The `int t` loop counter of the completed `find` (LinkedList.h:118) would overflow beyond 2^31 steps. This is not modelled.
- `takeAll` is commented out in both headers and is not modelled.
- `List.h` (the abstract base class) is not part of this model.
- The lab's `find` misses a semicolon at CSE274_Lab04/LinkedList.h:117. `Traversal.FindNode` models the evidently intended statement.
- The lab's `set`, `add`, `remove` and `size` are TODO stubs. They are modelled after their documentation and the completed class.
- LinkedLists.Add: follows the lab's `find` contract (CSE274_Lab04/LinkedList.h:62-65, 107-108: `find(numItems)` is the sentinel) and splices the new node in before the node `find(i)` returns. It does not follow the completed `add`'s `find(i - 1)` splice and separate empty-list branch. `AsWritten.AddAsWritten` models that code as written.
- LinkedLists.Get: follows the lab's `get` (call `find`, fail on the sentinel). The completed `get` (LinkedList.h:214-225) gives the same results except at `i == 2^64 - 1`, which `AsWritten.GetSlotAsWritten` covers.
- AsWritten.GetSlotAsWritten: returns the slot whose data `get` would read, not the value, because the sentinel carries no data in the model.
- AsWritten.FindAsWritten: requires `numItems < 2^64`, the range of the `unsigned long` field.
- Properties.ScenarioBuild: starts from any valid list holding just 4, not from the constructor's list. `Properties.AddToEmptyIsTwoNodeRing` shows that `add(0, 4)` on an empty list gives such a list.
- The completed `set` and `remove` use the same wrapped guard as `get`. Only `get`'s consequence is stated as a lemma.
- There is no concurrency in the class.

## Findings

| source | as written | input that shows it | evidently intended | confidence | as-written member | corrected member |
|---|---|---|---|---|---|---|
| LinkedList.h:168-176 | `holder->prev = newNode->prev` sets the holder's own `prev` to the holder. The successor's `prev` is never set to the new node. | the one-item list 4, then `add(1, 1)`: the sentinel's `prev` stays on node 4 and node 4's `prev` becomes node 4 | set `holder->next->prev = newNode`, then `holder->next = newNode` | high; not executed | AsWritten.AddAsWrittenBreaksRing | LinkedLists.Add |
| LinkedList.h:114-115 | `find` throws when `numItems < i + 1`, so also for `i == numItems` | a new list, `find(0)` | return the sentinel for `i == numItems`, as declared at LinkedList.h:62-65 | medium (no caller of the completed class passes `i == numItems`); not executed | AsWritten.FindAsWrittenRejectsEnd | LinkedLists.Find |
| LinkedList.h:219-222 | the guard `numItems < i + 1` is computed in `unsigned long` and wraps to `numItems < 0` for `i == 2^64 - 1`; `find` then takes no step | any list, `get(18446744073709551615)` returns the sentinel's data instead of throwing | throw for every `i >= numItems` | high; not executed | AsWritten.GetAsWrittenReadsSentinel | LinkedLists.Get |
