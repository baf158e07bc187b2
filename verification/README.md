# xv6 physical-page allocator with copy-on-write reference counts

This project models `kernel/kalloc.c` of an xv6 lab kernel. That file is the
physical-page allocator. Beside the free list it keeps a reference count per
page, so pages can be shared copy-on-write. The model is the sequential
effect of each call, with the spinlocks removed. Every operation is a pure
function from one immutable state to the next.

- `MemLayout` (`layout.dfy`) covers the layout constants. KERNBASE, PHYSTOP,
  PGSIZE and the linker symbol `end` are fields of a `Layout` parameter. The
  module also defines `WHICHPG`, `PGROUNDUP` and kfree's address guard
  (`Freeable`).
- `PageAllocator` (`kalloc.dfy`) holds the state: `freelist` is `kmem.freelist`
  read from the head, `refc` is `refcounts`, and `content` is an abstract
  content per page. It also holds `ref_up`, `ref_down`, `kfree`, `kalloc` and
  `cowallloc` (the source's spelling). `panic` becomes a `Panic(msg)` result
  with the source's message.
- `FreeListInvariant` (`invariant.dfy`) defines the free-list invariant:
  - no address is on the list twice;
  - every listed page has a count of at most 0.

  It proves which operations preserve the invariant, and the LIFO round trips
  between `kfree` and `kalloc`.
- `PoolSeeding` (`freerange.dfy`) models `freerange` as the loop it is, and
  `kinit` as `freerange(end, PHYSTOP)` applied to a table of zero counts.
  It also covers draining the pool.
- `CowSharing` (`sharing.dfy`) covers sharing through `ref_up` and releasing
  through `kfree`. It also shows what happens when callers break the
  discipline that the allocator does not check.
- `LinkedFreeList` (`linked.dfy`) models the free list as the C code keeps
  it: `kmem.freelist` and the first word of every page, which holds
  `struct run`'s `next` pointer. It proves that these pointers spell out the
  `PageAllocator` sequence as long as no page already on the list is freed
  again. It also proves what the pointers do when one is.

`Layout.Valid()` requires more than the ordering
`KERNBASE <= end <= PHYSTOP`, `PGSIZE > 0` and `KERNBASE % PGSIZE == 0`. It
also asks for `PHYSTOP % PGSIZE == 0` and `KERNBASE > 0`. Both hold for xv6,
where KERNBASE is 0x80000000 and PHYSTOP is KERNBASE + 128 MiB.

- The PHYSTOP condition is needed because `refcounts` has
  `(PHYSTOP - KERNBASE) / PGSIZE` slots, which rounds down. kfree's guard,
  however, accepts any aligned address below PHYSTOP.
  `MemLayout.UnalignedPhystopOverrunsTable` gives a layout where an address
  passes the guard but indexes one past the array.
- KERNBASE > 0 keeps kalloc's `0` ("no page") apart from every real page.

The model follows the code, including these behaviours:

- Freeing reclaims a page when its count drops to `<= 0`, not at exactly zero.
  A double free is not detected. `r->next = kmem.freelist` then overwrites
  the `next` word of a page that is already listed. If that page is at
  position k, the list becomes the loop `pa -> l0 -> ... -> l(k-1) -> pa`,
  and every entry after `pa` is lost to the allocator
  (`LinkedFreeList.RefreeMakesLoop`). Freeing an owned page twice points the
  page at itself. The next two kallocs both return it, and the second leaves
  kmem.freelist holding kalloc's junk word 0x0505050505050505, which a third
  kalloc dereferences (`LinkedFreeList.DoubleFreeHandsOutTwice`).
- `ref_down` never frees a page, even when its count reaches 0. So "an
  in-use page has a count of at least 1" is not an invariant of the code.
  The invariant proved here is the one the code keeps: listed pages have a
  count of at most 0 and are not duplicated.
- `cowallloc` returns a page different from `pa` only under that invariant.
  If `ref_up` has been applied to a page that is still the free-list head,
  `cowallloc` copies the page onto itself and leaves it with count 0
  (`CowSharing.CowalllocOnListedHead`).
- `kfree` takes `kmem.lock` while it holds the reference-count lock. That
  nesting is a concurrency matter and is left out here.

## Model

| member | source | states |
|---|---|---|
| MemLayout.Layout.WhichPg | kernel/kalloc.c:28-32 | WHICHPG of an address in [KERNBASE, PHYSTOP) is a valid `refcounts` index. The indexed page contains the address. |
| MemLayout.Layout.FreeableIndexInBounds | kernel/kalloc.c:73-77 | Every address that passes kfree's guard is in the managed range. Its slot is in bounds, and the address is exactly that slot's page boundary. |
| MemLayout.Layout.WhichPgInjective | kernel/kalloc.c:30-32 | Two page-aligned managed addresses share a `refcounts` slot if and only if they are equal. |
| MemLayout.Layout.WhichPgStep | kernel/kalloc.c:30-32 | Moving k whole pages up moves the slot up by k. |
| MemLayout.Layout.PgRoundUp | kernel/kalloc.c:58 | PGROUNDUP yields a page boundary `r` with `a <= r < a + PGSIZE`: the least boundary at or above `a`. |
| MemLayout.UnalignedPhystopOverrunsTable | kernel/kalloc.c:28-31 | If PHYSTOP is not page aligned, an address passing kfree's guard can index one past the end of `refcounts`. |
| PageAllocator.RefUp | kernel/kalloc.c:34-38 | ref_up adds exactly one to the count of the page holding `pa`. No other count, no free-list entry and no content changes. |
| PageAllocator.RefDown | kernel/kalloc.c:40-44 | ref_down subtracts exactly one and never frees: the free list and contents stay the same, even at zero. |
| PageAllocator.Kfree | kernel/kalloc.c:68-91 | kfree panics with "kfree" exactly when `pa` is misaligned, below `end` or at/above PHYSTOP. Otherwise the page's count drops by exactly one and other counts stay. If the count was at most 1, the page is junk-filled and becomes the head, with the old list as its tail. Otherwise the list and contents are unchanged. |
| PageAllocator.Kalloc | kernel/kalloc.c:96-115 | kalloc returns 0 exactly when the pool is empty, and then changes nothing. Otherwise it returns the former head and leaves the tail. The page's count becomes exactly 1 whatever its stale value, and it is junk-filled. Nothing else changes. |
| PageAllocator.Cowallloc | kernel/kalloc.c:117-138 | An unshared page (count <= 1) comes back unchanged with the state untouched. A shared page with an empty pool panics "oom!". Otherwise the result is the former head. When it is a different page, it holds a copy of `pa` and count 1, `pa` loses one reference, and the list loses its head. |
| FreeListInvariant.OnFreeListIff | kernel/kalloc.c:28-32 | For a page-aligned managed address, sharing a `refcounts` slot with a listed page is the same as being listed. |
| FreeListInvariant.OwnedNotListed | kernel/kalloc.c:77-84 | Under the invariant, a page with a positive count is not on the free list. |
| FreeListInvariant.KfreeInv | kernel/kalloc.c:73-90 | A guard-passing kfree keeps the invariant if and only if `pa` was not already on the free list. Freeing a listed page duplicates it. |
| FreeListInvariant.KallocInv | kernel/kalloc.c:101-112 | kalloc keeps the invariant. The page it returns is not left on the free list. |
| FreeListInvariant.RefDownInv | kernel/kalloc.c:40-44 | ref_down keeps the invariant. |
| FreeListInvariant.RefUpInv | kernel/kalloc.c:34-38 | ref_up keeps the invariant if and only if the page is not on the free list or its count was negative. |
| FreeListInvariant.CowalllocShared | kernel/kalloc.c:124-137 | Under the invariant, on a shared page with a non-empty pool, cowallloc returns the former head and that page differs from `pa`. The list loses its head. The new page has count 1 and the content of `pa`; `pa`'s count drops by one. All other counts and contents are unchanged. |
| FreeListInvariant.CowalllocInv | kernel/kalloc.c:119-137 | Whenever cowallloc returns, it keeps the invariant. |
| FreeListInvariant.KfreeThenKalloc | kernel/kalloc.c:77-111 | LIFO: a kfree that releases the last reference of a page not already listed, followed by kalloc, returns the same page. The free list is as it was, the count is 1 and the page is junk-filled with 5. |
| FreeListInvariant.KallocThenKfree | kernel/kalloc.c:77-111 | kfree of a freshly allocated page restores the free list exactly. The page's count is 0 and it holds the kfree fill. |
| PoolSeeding.FreeFrom | kernel/kalloc.c:59-60 | The freerange loop either returns a well-formed state or panics with kfree's message. |
| PoolSeeding.FreeRange | kernel/kalloc.c:54-62 | freerange, starting from PGROUNDUP(pa_start), either returns a well-formed state or panics with kfree's message. |
| PoolSeeding.Kinit | kernel/kalloc.c:46-52 | kinit never panics and leaves a well-formed state. |
| PoolSeeding.FreeFromOkIff | kernel/kalloc.c:55-74 | freerange panics if and only if one of the addresses it hands to kfree fails kfree's guard. |
| PoolSeeding.FreeRangeWithinBounds | kernel/kalloc.c:54-74 | freerange over a sub-range of [end, PHYSTOP) never panics. |
| PoolSeeding.VisitsShape | kernel/kalloc.c:58-59 | freerange visits exactly `(pa_end - p) / PGSIZE` addresses, `p + k*PGSIZE`, ascending, and each satisfies `p + PGSIZE <= pa_end`. |
| PoolSeeding.FreeFromCoverage | kernel/kalloc.c:55-84 | On pages holding at most one reference, freerange frees every visited page: the count drops by one and the page is junk-filled. The list gains the visited addresses highest first, on top of the old list. Unvisited slots are unchanged. |
| PoolSeeding.KinitPool | kernel/kalloc.c:46-60 | After kinit, exactly the pages from PGROUNDUP(end) below PHYSTOP are on the free list, highest address at the head, each with count -1. All other counts are 0, and the invariant holds. |
| PoolSeeding.KallocDrain | kernel/kalloc.c:101-114 | n successive kallocs return the first n free-list entries in order and leave the rest. |
| PoolSeeding.KallocExhausted | kernel/kalloc.c:101-114 | Once the free list has been handed out, the next kalloc returns 0. |
| PoolSeeding.FourPageScenario | kernel/kalloc.c:46-115 | A four-page pool: four kallocs return four distinct pages and a fifth returns 0. After one page is freed, the next kalloc returns that page. |
| CowSharing.RefUpTimesCount | kernel/kalloc.c:34-38 | n calls of ref_up raise the page's count by exactly n and change nothing else. |
| CowSharing.KfreeTimesRelease | kernel/kalloc.c:76-90 | Freeing an unlisted page held n+1 times n+1 times only counts down until the last call. That call pushes the page once, at count 0, junk-filled. |
| CowSharing.ShareThenRelease | kernel/kalloc.c:34-112 | An owned page shared n more times and freed n+1 times returns to the pool exactly once. The invariant holds, and the next kalloc returns that page. |
| CowSharing.CowalllocOnListedHead | kernel/kalloc.c:119-137 | Without the invariant, cowallloc on a shared page at the list head returns that same page, junk-filled, at count 0. |
| LinkedFreeList.LinkedKfree | kernel/kalloc.c:68-91 | kfree on the pointer state panics exactly when `pa` fails the guard. If the head changes, it becomes `pa`. |
| LinkedFreeList.LinkedKalloc | kernel/kalloc.c:96-115 | kalloc returns the head pointer. It goes wild exactly when a non-NULL head is not a page boundary in [KERNBASE, PHYSTOP). A non-NULL page it returns is such a boundary. |
| LinkedFreeList.LinkedCowallloc | kernel/kalloc.c:117-138 | cowallloc on the pointer state returns `pa` with memory untouched when the count is at most 1. Its only panic is "oom!". |
| LinkedFreeList.LinkedFreeFrom | kernel/kalloc.c:59-60 | The freerange loop on the pointer state either keeps every table at the table size or panics with kfree's message. FreeFromRefines relates it to the sequence loop. |
| LinkedFreeList.LinkedKinit | kernel/kalloc.c:46-52 | kinit on the pointer state, from any boot memory, either keeps every table at the table size or panics with kfree's message. KinitRefines shows that it does not panic. |
| LinkedFreeList.ChainIsWalk | kernel/kalloc.c:17-19 | When the words chain a sequence, following `next` from the head reads back exactly that sequence and stops at NULL. |
| LinkedFreeList.KfreeRefines | kernel/kalloc.c:73-90 | kfree of a page not on the list panics on both models together. Afterwards the pointers still spell out the sequence model's list, and the counts and contents agree. |
| LinkedFreeList.KallocRefines | kernel/kalloc.c:101-114 | On a list without repeats, kalloc never goes wild. It returns the same page as the sequence model, and the pointers still spell out the list. |
| LinkedFreeList.CowalllocRefines | kernel/kalloc.c:119-137 | On a list without repeats, cowallloc panics on both models together. Otherwise it returns the same page, and the pointers, including the copied `next` word, spell out the list. |
| LinkedFreeList.FreeFromRefines | kernel/kalloc.c:58-60 | The freerange loop over a list whose pages all lie below its start panics on both models together. Otherwise it leaves the pointers spelling out the sequence model's list. |
| LinkedFreeList.KinitRefines | kernel/kalloc.c:46-60 | From any boot memory, kinit builds a pointer chain that walks to exactly the sequence model's initial free list, with the same counts and contents. |
| LinkedFreeList.RefreeMakesLoop | kernel/kalloc.c:77-84 | Freeing the last reference of a page at list position k makes that page the head of the loop `pa, l0, ..., l(k-1)`. Every walk from the head stays in that loop and never reaches the entries after position k. |
| LinkedFreeList.DoubleFreeHandsOutTwice | kernel/kalloc.c:77-108 | Freeing an owned page twice leaves it pointing at itself at count -1, and every walk sees only that page. Two kallocs both return it; the second leaves the junk word 0x0505050505050505 as the head. If PHYSTOP lies below that value, a third kalloc goes wild. |

## Left out

- Locking: `acquire`, `release`, `initlock`, `ref_lock` and `kmem.lock` are left out. So are the nesting of `kmem.lock` inside `ref_lock` in kfree and the check-then-act window in cowallloc between its two critical sections. These are concurrency concerns; each operation is modelled as one atomic step.
- Byte-level contents: the `memset` fills with 1 (kfree) and 5 (kalloc) become the abstract contents `Junk1` and `Junk5`. The page-sized `memmove` becomes copying one abstract content value.
- Intrusive free list: `PageAllocator` keeps the free list as a sequence of addresses, head first. The `next` words and pointer casts appear only in `LinkedFreeList`, which tracks a page's first word and no other byte.
- PageAllocator.Kfree: the sequence it pushes onto agrees with the C pointers only while no listed page is freed again. Freeing a listed page yields a duplicate entry in the sequence, whereas C builds the loop that `LinkedFreeList.RefreeMakesLoop` describes. The refinement lemmas in `LinkedFreeList` state when the two agree.
- FreeListInvariant.KfreeThenKalloc requires `pa` not to be on the list already. The sequence result holds without that requirement, but it is not what C does after such a free.
- CowSharing.KfreeTimesRelease requires `pa` not to be on the list already, for the same reason.
- LinkedFreeList has no `ref_up` or `ref_down` of its own. Those touch only the counts, which it keeps exactly as `PageAllocator` does.
- LinkedFreeList does not model writes by a page's owner. An owner that writes the first word of a page it has freed would also change the chain.
- LinkedFreeList.LinkedKalloc: a head that is not a page boundary in [KERNBASE, PHYSTOP) ends the model in `Wild`. C reads arbitrary memory there, which is undefined behaviour.
- Machine integers: `uint64` address wrap-around and overflow of the `int` counters are not modelled. Addresses are `nat` and counts are unbounded `int`.
- `panic` halting: a panic is a `Panic` result that ends the operation. The unreachable `return 0` after cowallloc's panic has no counterpart.
- PGROUNDUP is modelled as rounding up to a multiple of PGSIZE. The source's bit-mask form computes the same value when PGSIZE is a power of two, as in xv6.
- The values of KERNBASE, PHYSTOP, PGSIZE and `end` come from headers and the linker script. Those files are not part of this model, so the values are parameters.
- PageAllocator.RefUp and PageAllocator.RefDown require an address in [KERNBASE, PHYSTOP). The source does not check this; outside that range its array index is out of bounds.
- PageAllocator.Cowallloc requires `pa` to be a page boundary in [KERNBASE, PHYSTOP). The source checks neither. Outside that range its array index is out of bounds. Contents are modelled per page, so a `memmove` from an unaligned address would straddle two pages.
- PageAllocator.Cowallloc's own contract gives the copy, the count of 1 and the decrement only when the new page differs from `pa`. FreeListInvariant.CowalllocShared proves that it does differ under the invariant, and CowSharing.CowalllocOnListedHead covers the case where it does not.
