# nginx queue and array, modelled in Dafny

This project models two container primitives of the nginx core and proves
what they do.

- **The intrusive queue** (`ngx_queue_t`, `src/core/ngx_queue.h`). A queue is a
  sentinel node `h`. Its `prev` and `next` links close a ring with the element
  nodes. Every operation is a macro: a fixed series of stores into the links
  of a few nodes. `queue.dfy` (module `Queue`) models a node as an integer
  address, with `NULL` as -1. The links of all nodes form a link heap
  `Links(prev, next)`. `Ring(L, h, s)` says that the links in `L` make `h`
  the sentinel of a ring holding the elements `s`, in order.
  - Each macro is a pure function on `Links`. It performs the macro's stores
    in the macro's own order, so a store that reads a link written earlier in
    the same macro behaves as in C (the first-element and last-element cases
    of `split`, the empty-queue case of `add`).
  - Lemmas state each macro's effect on the ring.
  - The class `QueueHeap` holds the two link maps as fields. Its methods do
    the same stores one at a time, and each is proved equal to its pure
    function and to preserve the ring.
- **The pool-backed array** (`ngx_array_t`, `src/core/ngx_array.h`).
  `array.dfy` (module `NgxArray`) holds the class `Array<T>`, with the fields
  `elts`, `nelts`, `size`, `nalloc` and `pool`.
  - The storage is an `array<T>`. A pointer into it is an index, and `NULL`
    is `None`.
  - The pool (`ngx_pool_t`) is seen only through the blocks it has handed
    out. Its ghost set `Blocks` never shrinks.
  - `ngx_palloc` is a nondeterministic allocation that may fail.

## Model

| member | source | states |
|---|---|---|
| `Queue.WalkNextAt` | src/core/ngx_queue.h:26-29 | following `next` i times from the sentinel reaches the i-th node of `[h] + s` |
| `Queue.WalkPrevAt` | src/core/ngx_queue.h:26-29 | following `prev` i times from the sentinel reaches the elements in reverse order |
| `Queue.RingWalk` | src/core/ngx_queue.h:26-29 | the walk either way returns to the sentinel after exactly `|s| + 1` steps and meets no sentinel before |
| `Queue.RingUnique` | src/core/ngx_queue.h:26-29 | the links determine a queue's contents: two sequences that are both `Ring` for the same sentinel are equal |
| `Queue.RingConsistent` | src/core/ngx_queue.h:26-29 | for every node `x` of a ring, `x.next.prev == x` and `x.prev.next == x` |
| `Queue.RingFrame` | src/core/ngx_queue.h:26-29 | a ring stays valid under any change that keeps the links of its own nodes |
| `Queue.RingUntouched` | src/core/ngx_queue.h:83-84 | storing into the links of a node outside a ring leaves that ring valid |
| `Queue.InitEmpty` | src/core/ngx_queue.h:32-34 | after `init(q)`, `q` is its own `prev` and `next`, `Ring(_, q, [])` holds and `empty(q)` is true |
| `Queue.EmptyIff` | src/core/ngx_queue.h:37-38 | on a ring, `empty(h)` (`h == h.prev`) holds exactly when the contents are `[]`, and exactly when `h.next == h` |
| `Queue.Navigation` | src/core/ngx_queue.h:58-75 | `head` is the first element, `last` the last; `next`/`prev` of the i-th element are its neighbours, with `sentinel(h)` at both ends |
| `Queue.InsertAfterFrame` | src/core/ngx_queue.h:41-48 | `insert_after(q, x)` sets `q.next = x`, `x.prev = q`, `x.next` to `q`'s old successor and that successor's `prev` to `x`; no other node's links change |
| `Queue.InsertAfterRing` | src/core/ngx_queue.h:41-48 | `insert_after(q, x)` with `q` the k-th node of `[h] + s` gives the contents `s[..k] + [x] + s[k..]` |
| `Queue.InsertHeadRing` | src/core/ngx_queue.h:41-45 | `insert_head(h, x)` turns `s` into `[x] + s`, with `h.next == x`, `x.prev == h`, the old first node's `prev == x`, and no other node's links changed |
| `Queue.InsertTailRing` | src/core/ngx_queue.h:51-55 | `insert_tail(h, x)` turns `s` into `s + [x]`, with `h.prev == x`, `x.next == h`, the old last node's `next == x`, and no other node's links changed |
| `Queue.InsertTailFrame` | src/core/ngx_queue.h:51-55 | `insert_tail(h, x)` sets `h.prev = x`, `x.next = h`, `x.prev` to `h`'s old last node and that node's `next` to `x`; no other node's links change |
| `Queue.RemoveRing` | src/core/ngx_queue.h:78-93 | `remove(x)` for the k-th element gives contents `s` with position k deleted and links `x`'s neighbours to each other; the debug build sets `x.prev` and `x.next` to NULL, the release build leaves them |
| `Queue.RemoveFrame` | src/core/ngx_queue.h:78-93 | `remove(x)` changes only the links of `x`, of `x.prev` (its `next`) and of `x.next` (its `prev`) |
| `Queue.SplitRings` | src/core/ngx_queue.h:96-102 | `split(h, q, n)` with `q` the k-th element leaves `h` with `s[..k]` and makes `n` the sentinel of a valid ring `s[k..]`; `h` is empty when `q` was first; only `h`, `n`, the old last node and `q`'s predecessor change `next`, only `h`, `n` and `q` change `prev` |
| `Queue.SplitFrame` | src/core/ngx_queue.h:96-102 | `split(h, q, n)` changes `next` only at `h`, `n`, the old last node and `q`'s predecessor, and `prev` only at `h`, `n` and `q` |
| `Queue.AddEmpty` | src/core/ngx_queue.h:105-109 | `add(h, n)` with `n` empty closes `h`'s ring again, with `h`'s contents unchanged, and writes `h`'s last node into `n.prev` |
| `Queue.AddNonEmpty` | src/core/ngx_queue.h:105-109 | `add(h, n)` with `n` non-empty links `h`'s last node to `n`'s first and `n`'s last to `h`, giving contents `s + t` |
| `Queue.AddRings` | src/core/ngx_queue.h:105-109 | `add(h, n)` on disjoint rings gives `h` the contents `s + t`; `n` is not reinitialised (its links still point at the moved nodes); no other node changes |
| `Queue.SplitThenAdd` | src/core/ngx_queue.h:96-109 | `split(h, q, n)` followed by `add(h, n)` restores `h`'s original contents |
| `Queue.QueueHeap.Init` | src/core/ngx_queue.h:32-34 | the two stores of `init` leave the heap equal to `InitLinks` and `q` an empty ring |
| `Queue.QueueHeap.IsEmpty` | src/core/ngx_queue.h:37-38 | reading `h == h.prev` answers whether the queue's contents are empty |
| `Queue.QueueHeap.GetHead` | src/core/ngx_queue.h:58-59 | reading `h.next` gives `First(h, s)`: the first element, or the sentinel `h` itself exactly when the queue is empty |
| `Queue.QueueHeap.GetLast` | src/core/ngx_queue.h:62-63 | reading `h.prev` gives `Final(h, s)`: the last element, or the sentinel `h` itself exactly when the queue is empty |
| `Queue.QueueHeap.InsertAfter` | src/core/ngx_queue.h:41-48 | the four stores insert `x` after the k-th node of the ring |
| `Queue.QueueHeap.InsertHead` | src/core/ngx_queue.h:41-45 | the four stores turn the contents `s` into `[x] + s` |
| `Queue.QueueHeap.InsertTail` | src/core/ngx_queue.h:51-55 | the four stores turn the contents `s` into `s + [x]` |
| `Queue.QueueHeap.Remove` | src/core/ngx_queue.h:78-93 | the two (release) or four (debug) stores delete the k-th element |
| `Queue.QueueHeap.Split` | src/core/ngx_queue.h:96-102 | the six stores leave `h` with `s[..k]` and `n` with `s[k..]` |
| `Queue.QueueHeap.Add` | src/core/ngx_queue.h:105-109 | the four stores give `h` the contents `s + t` |
| `NgxArray.Palloc` | src/core/ngx_array.h:60-63 | an allocation either fails and changes nothing, or returns a fresh block of the requested element count and records it in the pool |
| `NgxArray.Copy` | src/core/ngx_array.h:20 | copying on growth puts the old elements unchanged at the same indices of the new block |
| `NgxArray.DoubledCapacity` | src/core/ngx_array.h:40 | the growth rule as the header comment words it, `2 * nalloc`, never shrinks and grows any positive capacity |
| `NgxArray.DoublingZeroLeavesNoRoom` | src/core/ngx_array.h:40 | doubling a full array of capacity 0 leaves no room for the pushed element |
| `NgxArray.GrownCapacity` | src/core/ngx_array.h:20 | the capacity after growth is at least twice the old one and at least enough for the new elements, and is one of the two |
| `NgxArray.GrownIsDoubling` | src/core/ngx_array.h:40 | for a full array of positive capacity, growing for one element is exactly the doubling of the header comment |
| `NgxArray.Array.Init` | src/core/ngx_array.h:47-66 | `nelts = 0`, `size`, `nalloc = n` and `pool` are set whatever the allocation does; the result is `NGX_ERROR` exactly when `elts` is NULL, and on `NGX_OK` the array is valid, empty and its storage a fresh block of `n` elements from the pool |
| `NgxArray.Array.Grow` | src/core/ngx_array.h:20 | growth moves the elements in use into a fresh block of the new capacity and leaves the old block in the pool; on failure nothing changes |
| `NgxArray.Array.Push` | src/core/ngx_array.h:38-41 | push returns the slot at the old `nelts` and adds one element; with room it keeps `elts` and `nalloc`; when full it moves to fresh storage of capacity `max(2 * nalloc, nelts + 1)`, the doubling for any positive capacity (`GrownIsDoubling`; see ## Findings), keeping the old elements at their indices; the pool's blocks are unchanged without growth and gain exactly the new block with it; a failed growth returns NULL and changes nothing; `nelts <= nalloc` is kept |
| `NgxArray.Array.PushN` | src/core/ngx_array.h:42-43 | push_n returns the first of `n` contiguous slots starting at the old `nelts`, adds `n` elements, keeps the earlier ones and `nelts <= nalloc`; the pool's blocks are unchanged without growth and gain exactly the new block of capacity `max(2 * nalloc, nelts + n)` with it; a failed growth returns NULL and changes nothing |
| `NgxArray.Array.Store` | src/core/ngx_array.h:38-39 | the caller's store through a returned pointer changes exactly that element |

The array's invariant `nelts <= nalloc` (src/core/ngx_array.h:18-20) is part of
`Array.Valid()`, which `Init` establishes and `Push`, `PushN`, `Grow` and `Store`
preserve.

Two behaviours of the header worth noting:

- `empty(h)` tests `h == h.prev` (line 38), not `h.next == h`. The two agree
  on a valid ring (`EmptyIff`).
- `add(h, n)` does not turn `n` into an empty queue. When `n` held elements,
  its links still point at the nodes now in `h`. When it was empty, its
  `prev` now holds `h`'s last node. `AddRings` states both.

## Left out

- `ngx_queue_middle` and `ngx_queue_sort` (src/core/ngx_queue.h:116-118): only their prototypes are in the header; their bodies (ngx_queue.c) are not part of this model.
- `ngx_queue_data` (src/core/ngx_queue.h:112-113): recovering the owning structure by `offsetof` arithmetic has no counterpart once nodes are integer addresses.
- `ngx_array_create` and `ngx_array_destroy` (src/core/ngx_array.h:33, 36): only declared; their effect is on pool memory alone.
- The pool allocator's internals: `Palloc` may fail or succeed nondeterministically, and the in-place extension of the pool's last block is not modelled, so growth always copies.
- `NgxArray.Array.PushN`: the header does not say how push_n grows. The model uses the same rule as push, `max(2 * nalloc, nelts + n)`. ngx_array.c is not part of this model.
- Byte layout: elements are whole `T` values. `size` is only recorded and no byte count is computed, so overflow of the allocation sizes is not modelled: `n * size` in init, `2 * nalloc * size` on growth, and `nelts + n` and `(nelts + n) * size` in push_n are all unbounded naturals here.
- Element contents of new slots: a pushed slot holds whatever the block held, as in C; only the caller's `Store` gives it a value.
- Thread safety: the code has none; every operation is single-owner and synchronous.

## Findings

| source | as written | input that shows it | evidently intended | confidence | as-written member | corrected member |
|---|---|---|---|---|---|---|
| src/core/ngx_array.h:40 | a full array grows to `2 * nalloc` | an array initialised with `n = 0`, then pushed: `nelts == nalloc == 0`, and doubling gives capacity 0, so the returned slot lies outside the storage | grow to at least `nelts + 1` (in general `max(2 * nalloc, nelts + n)`) | low, not executed; the header comment states the rule, the body of ngx_array_push is not part of this model | `NgxArray.DoublingZeroLeavesNoRoom` | `NgxArray.GrownCapacity` |
