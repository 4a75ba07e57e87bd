# xv6 buffer cache and per-CPU page allocator, in Dafny

This project models two parts of an xv6-riscv kernel (the "lock" lab
variant) and proves properties of them.

**The buffer cache of `kernel/bio.c`.** There are NBUF buffers, threaded on
13 singly linked hash buckets (`bhash_head[i]`), and each bucket has its own
spinlock.

- `bget` looks the block up in the bucket its (dev, blockno) hashes to.
- On a miss, `bfind_prelru` picks the free buffer (refcnt 0) with the
  smallest `lst_use` over all buckets, the first in scan order on ties.
- The victim is then unlinked from its bucket, pushed on the target bucket
  and given the new key.
- `bread`, `bwrite`, `brelse`, `bpin` and `bunpin` are built on top.

**The page allocator of `kernel/kalloc.c`.** Every CPU has its own free list
of 4096-byte pages.

- `kfree` pushes a page on the calling CPU's list.
- `freerange` frees a whole range that way, and `kinit` uses it.
- `kalloc` pops from the local list. When that list is empty, `steal` takes
  up to STEAL_CNT pages from the heads of the other CPUs' lists into the
  `st_ret` queue, and `kalloc` pushes them on the local list and pops one.

Layout:

- `seq_util.dfy` (module `SeqUtil`): list flattening and reversal, with their
  lemmas.
- `bio_spec.dfy` (module `BioSpec`): the pure half of the buffer cache.
  - the 32-bit `uint` (`u32`), with wrapping `Inc`/`Dec`;
  - the bucket hash;
  - the buckets as sequences of slot indices, and the successor table that
    threads them;
  - the relocation of a victim;
  - the replacement choice (`IsLru`, `Scan`);
  - the invariant that a buffer in use is the one a lookup of its key
    finds (`InUseFirst`).
- `bio.dfy` (module `Bio`): class `BCache` holds one array per field of
  `struct buf`, plus `next[]` and `head[]` as slot indices (-1 is null).
  - The ghost fields `lists`/`home` name the slots of each bucket in link
    order, and the bucket of each slot.
  - `Valid()` says, in layers, that:
    - the buckets are exactly the chains of `head`/`next`;
    - every slot is on exactly one bucket;
    - every slot sits on the bucket its key hashes to.
  - Class `Disk` stands for the disk driver. It records the requests it is
    sent.
- `kalloc_spec.dfy` (module `KallocSpec`): the pure half of the allocator.
  - page validity and `PGROUNDUP`;
  - the pages `freerange` visits;
  - `StealFrom`, the page-at-a-time loop of `steal`;
  - `Blocks`, the same loop described a list at a time;
  - `KallocOf`, the outcome of `kalloc`;
  - the conservation, validity and order lemmas.
- `kalloc.dfy` (module `Kalloc`): class `Kmem` holds:
  - `free`, the per-CPU free lists as sequences of page addresses, head
    first;
  - `stRet`, the `st_ret` rows, an NCPU x STEAL_CNT array;
  - NCPU, STEAL_CNT, `end` and PHYSTOP as constants.
- `boot.dfy` (module `Boot`): two client traces that start from the boot
  state.
  - binit, then bget, brelse and bget for one block;
  - kinit, then kalloc, kfree and kalloc.

How the system is represented:

- Panics become result values: `BufResult.Panic`, or `ok == false`. A
  method that panics changes nothing, or only what the source changed
  before it panics.
- The CPU a call runs on (`cpuid()`) and the tick count are parameters.
- Kernel addresses are unbounded naturals, and 0 is the null page.
- The kernel image ends above address 0 (`0 < kend`), so no valid page is
  null.
- At line 70, `bget` hashes an identifier spelled `blcokno`. The model reads
  it as `blockno`, the function's parameter.
- While scanning, `bfind_prelru` (kernel/bio.c:124-139) holds the lock of
  the best bucket so far together with the lock of the bucket it is
  scanning. Between buckets it holds only the best bucket's lock, and that
  bucket's lock alone on return. The model follows the code: `FindPreLru`
  returns the ghost set of locks still held.

## Model

| member | source | states |
|---|---|---|
| BioSpec.Hash | kernel/bio.c:26-28 | the bucket of a key is below BUCK_SIZ; the shift is computed on 32-bit values |
| BioSpec.Inc | kernel/bio.c:76 | refcnt++ on a C uint: the successor modulo 2^32 |
| BioSpec.Dec | kernel/bio.c:178 | refcnt-- on a C uint: the predecessor modulo 2^32, so 0 wraps to 2^32 - 1 |
| BioSpec.ChainUnlink | kernel/bio.c:90-91 | unlinking the slot at position j, through the bucket head when j is 0 and through its predecessor otherwise, leaves the chain of the list without that slot |
| BioSpec.ChainPush | kernel/bio.c:57-58 | pushing a slot that is on no chain onto a chain's head gives the chain of the longer list |
| BioSpec.CutMembers | kernel/bio.c:91 | the cut list has no duplicates and holds exactly the other slots |
| BioSpec.Relocate | kernel/bio.c:90-106 | the unlink-and-push of a miss: the bucket count is kept; the victim heads bucket key; every bucket other than the victim's old one and key is unchanged |
| BioSpec.RelocateMembers | kernel/bio.c:90-106 | the victim is now at the head of bucket key and on no other bucket; every other slot stays on its bucket; no list has duplicates |
| BioSpec.RelocatePartition | kernel/bio.c:90-106 | after the move, every slot is still on exactly one bucket, the victim's bucket being key |
| BioSpec.UnlinkChains | kernel/bio.c:90-91 | after the unlink pointer update, every bucket is the chain of the lists with the victim cut out |
| BioSpec.PushChains | kernel/bio.c:105-106 | pushing the victim on bucket key keeps every bucket the chain of its list |
| BioSpec.RelocatePlaced | kernel/bio.c:105-108 | after the move, with the victim's new (dev, blockno), every slot still sits on the bucket its key hashes to |
| BioSpec.PartitionOnce | kernel/bio.c:35 | under the partition, each of the NBUF buffers occurs exactly once across all buckets |
| BioSpec.IsLru | kernel/bio.c:128 | the victim bfind_prelru must pick: a free slot (refcnt 0) with no free slot of smaller lst_use, and none of equal lst_use earlier in scan order (the strict `<`); such a position is a real slot with refcnt 0 |
| BioSpec.Scan | kernel/bio.c:124-139 | bfind_prelru's scan, bucket by bucket from each head, keeping the first free slot with the strictly least lst_use; a position it ends at is a real slot of a bucket; what it finds is stated by ScanFindsLru |
| BioSpec.ScanStep | kernel/bio.c:127-131 | one step of the inner scan: a free slot strictly older than the best so far (or the first free slot) becomes the best |
| BioSpec.ScanNextBucket | kernel/bio.c:124-127 | the scan continues at the head of the next bucket |
| BioSpec.ScanFindsLru | kernel/bio.c:118-141 | the scan ends at -1 exactly when no buffer is free; otherwise it ends at the free buffer with the least lst_use, the first such in scan order |
| BioSpec.LruUnique | kernel/bio.c:128 | the victim is determined: two positions that both satisfy IsLru are the same |
| BioSpec.InUseKeysDistinct | kernel/bio.c:72-114 | no two distinct buffers in use carry the same (dev, blockno) |
| BioSpec.HitKeepsInUseFirst | kernel/bio.c:74-79 | a lookup hit may set the found buffer's count to anything and the in-use invariant still holds |
| BioSpec.FewerInUseKeepsInUseFirst | kernel/bio.c:199 | lowering counts keeps the in-use invariant |
| BioSpec.RelocateKeepsInUseFirst | kernel/bio.c:105-109 | a miss that relocates a free victim to a bucket without the key, and gives it the key and count 1, keeps the in-use invariant |
| BioSpec.HomeIsHash | kernel/bio.c:176-177 | the lock brelse, bpin and bunpin take (that of the buffer's key hash) is the lock of the bucket holding the buffer |
| BioSpec.VictimCut | kernel/bio.c:90-91 | once cut out, the victim is on no bucket |
| BioSpec.MissKeeps | kernel/bio.c:90-109 | the miss path keeps the partition, the hash placement and, when it held, the in-use invariant; the second lookup (lines 96-103), in a bucket without the victim, still finds nothing |
| BioSpec.Stack | kernel/bio.c:51-59 | bucket 0 after binit holds NBUF-1, ..., 1, 0 |
| BioSpec.InitLists | kernel/bio.c:45-59 | after binit there are BUCK_SIZ buckets; all buffers are on bucket 0 and the others are empty |
| BioSpec.InitPartition | kernel/bio.c:50-59 | after binit, every buffer is on exactly one bucket, bucket 0 |
| BioSpec.InitPlaced | kernel/bio.c:50-59 | zeroed keys hash to bucket 0; no buffer is in use |
| Bio.Disk.constructor | kernel/bio.c:151 | the disk starts with no requests |
| Bio.Disk.Rw | kernel/bio.c:151 | virtio_disk_rw appends a read or a write of the buffer's block to the request log |
| Bio.BCache.constructor | kernel/bio.c:30-40 | the zero-initialised bcache: fresh, distinct arrays of NBUF slots, with every field 0 or false |
| Bio.BCache.Init | kernel/bio.c:42-60 | the buckets are threaded as InitLists; refcnt and lst_use are 0 and every sleep lock is free; with zero keys the cache is Valid and in-use-unique |
| Bio.BCache.ClearHeads | kernel/bio.c:45-48 | every bucket head becomes null |
| Bio.BCache.FindPreLru | kernel/bio.c:117-141 | the bucket is -1 exactly when no buffer is free; otherwise it returns the IsLru victim's bucket and its predecessor (-1 for the dummy head) and holds that bucket's lock alone |
| Bio.BCache.ScanBucket | kernel/bio.c:124-138 | scanning one bucket moves the scan state on exactly as Scan does; found_new reports whether this bucket supplied the new best |
| Bio.BCache.ScanPos | kernel/bio.c:128-131 | the test at one slot: it becomes the best exactly as Scan's step says, taking its predecessor as the new lru_res |
| Bio.BCache.Lookup | kernel/bio.c:73-81 | returns null exactly when no buffer of the bucket carries the key; otherwise returns the first that does |
| Bio.BCache.Get | kernel/bio.c:65-115 | hit exactly when the key is cached, and then the first buffer of the key with refcnt+1; a miss relocates the IsLru victim with the new key, valid 0 and refcnt 1; a panic exactly when there is a miss and no free buffer, with nothing changed; the sleep lock is taken; Valid and in-use uniqueness are kept |
| Bio.BCache.Hit | kernel/bio.c:74-79 | the found buffer gains a reference and its sleep lock; nothing else changes |
| Bio.BCache.Miss | kernel/bio.c:83-114 | a panic exactly when no buffer is free; otherwise the IsLru victim is relocated to bucket key with the new key, valid 0, refcnt 1 and its sleep lock taken |
| Bio.BCache.Evict | kernel/bio.c:90-114 | the victim is unlinked, the second lookup misses, and the victim is pushed on bucket key with its new identity; Valid is kept |
| Bio.BCache.Install | kernel/bio.c:108-109 | the victim's dev and blockno become the request, with valid 0 and refcnt 1; no other slot changes |
| Bio.BCache.Unlink | kernel/bio.c:90-92 | the victim leaves its bucket's list, and the chains still match the lists |
| Bio.BCache.Push | kernel/bio.c:105-106 | the victim goes on the head of bucket key, and the chains still match the lists |
| Bio.BCache.Read | kernel/bio.c:143-155 | a locked, valid buffer for (dev, blockno), with refcnt+1; the disk is read exactly when the buffer was not valid or was just recycled; a panic exactly as in bget |
| Bio.BCache.GetForRead | kernel/bio.c:149 | bget as bread uses it: the outcome Get states, with the buffer's validity kept on a hit and cleared on a miss |
| Bio.BCache.Fill | kernel/bio.c:150-153 | the buffer becomes valid, with one disk read exactly when it was not valid |
| Bio.BCache.Write | kernel/bio.c:157-164 | panics unless the caller holds the sleep lock; otherwise one disk write of the buffer's block, with valid and refcnt untouched |
| Bio.BCache.Release | kernel/bio.c:166-185 | panics unless the sleep lock is held; otherwise it releases the lock and lowers refcnt (with wrap-around), setting lst_use to ticks exactly when refcnt reaches 0; Valid is kept |
| Bio.BCache.Pin | kernel/bio.c:187-193 | refcnt + 1 and no other change |
| Bio.BCache.Unpin | kernel/bio.c:195-201 | refcnt - 1 and no other change |
| KallocSpec.PgRoundUp | kernel/kalloc.c:44 | PGROUNDUP gives the least multiple of PGSIZE at or above the address |
| KallocSpec.ValidPage | kernel/kalloc.c:58 | kfree's test: aligned, at or above end, below PHYSTOP; with end above 0, no valid page is the null page |
| KallocSpec.Pages | kernel/kalloc.c:44-46 | the pages freerange visits, one PGSIZE apart from p on: all of them fit between p and pa_end; PagesExact states them one by one |
| KallocSpec.PagesExact | kernel/kalloc.c:44-46 | freerange visits PGROUNDUP(start) + k*PGSIZE for k = 0, 1, ..., in ascending order; every page it visits fits below pa_end, and the next page would not |
| KallocSpec.Freed | kernel/kalloc.c:45-46 | the pages freerange frees before a kfree panic: exactly the leading pages kfree accepts |
| KallocSpec.InitRangeValid | kernel/kalloc.c:37 | freerange(end, PHYSTOP) from kinit never makes kfree panic |
| KallocSpec.KfreeConserves | kernel/kalloc.c:66-69 | kfree adds exactly the one page pa to the free pages of all CPUs together |
| KallocSpec.StealFrom | kernel/kalloc.c:83-98 | steal a page at a time: skip list cpu and empty lists, take heads while pages are still wanted; one list per CPU remains |
| KallocSpec.Blocks | kernel/kalloc.c:83-98 | steal a list at a time, as an independent reference for StealFrom: the pages taken and the lists left, one list per CPU |
| KallocSpec.StealIsBlocks | kernel/kalloc.c:83-98 | the page-at-a-time loop of steal equals the list-at-a-time description: from each other CPU in increasing order, as many pages from the front as are still wanted |
| KallocSpec.BlocksNone | kernel/kalloc.c:94-97 | with no pages left to take, nothing is taken and the lists are unchanged |
| KallocSpec.BlocksCount | kernel/kalloc.c:77-99 | steal takes the lesser of STEAL_CNT and the number of pages on the other CPUs' lists |
| KallocSpec.BlocksKeep | kernel/kalloc.c:84 | steal never touches the list of the CPU it steals for |
| KallocSpec.BlocksSuffix | kernel/kalloc.c:87-91 | every list only loses pages from its front |
| KallocSpec.BlocksConserve | kernel/kalloc.c:87-91 | the pages taken plus the pages left are the pages there were, as a multiset |
| KallocSpec.BlocksDrain | kernel/kalloc.c:87-97 | a list that keeps a page means the quota was reached there, and every later list is untouched |
| KallocSpec.StRetAfter | kernel/kalloc.c:82-88 | st_ret holds the pages taken, in removal order, and 0 after them |
| KallocSpec.BlocksKeepsOwn | kernel/kalloc.c:84 | the local list is unchanged by steal |
| KallocSpec.StealNothing | kernel/kalloc.c:83-99 | a steal that takes nothing leaves every list unchanged |
| KallocSpec.StealDone | kernel/kalloc.c:94-97 | once the quota is reached, the rest of the loop takes nothing (the break) |
| KallocSpec.OthersEmpty | kernel/kalloc.c:83-91 | there are no pages on the other lists exactly when each of them is empty |
| KallocSpec.StealValid | kernel/kalloc.c:87-91 | every page steal takes, and every page it leaves, is one that kfree accepts |
| KallocSpec.StolenNonNull | kernel/kalloc.c:130 | no stolen page is null, so the early break in kalloc's push loop never fires |
| KallocSpec.StealFinds | kernel/kalloc.c:118-127 | with the local list empty, steal comes back empty-handed exactly when STEAL_CNT is 0 or every other list is empty |
| KallocSpec.PushAll | kernel/kalloc.c:129-134 | pushing the stolen pages on the empty local list adds exactly those pages |
| KallocSpec.StealThenPop | kernel/kalloc.c:128-137 | after a successful steal, pushing the stolen pages and popping st_ret[ret-1] loses no page and adds none |
| KallocSpec.KallocOf | kernel/kalloc.c:105-146 | the page kalloc returns and the lists it leaves, one per CPU; what it means is stated by KallocConserves, KallocTouches and KallocValid |
| KallocSpec.KallocConserves | kernel/kalloc.c:105-146 | out of memory, kalloc returns 0 and changes nothing; otherwise the free pages left plus the page handed out are the free pages there were |
| KallocSpec.KallocTouches | kernel/kalloc.c:112-117 | with a local page, kalloc returns the local head, keeps the tail and touches no other CPU; in any case other lists only lose pages from their fronts |
| KallocSpec.KallocValid | kernel/kalloc.c:113-127 | kalloc returns 0 exactly when the local list is empty and steal finds nothing; a page it returns is valid, and the lists keep only valid pages |
| Kalloc.Kmem.constructor | kernel/kalloc.c:30-38 | kinit on CPU cpu: a fresh st_ret; every list empty except cpu's, which holds every page from PGROUNDUP(end) that fits below PHYSTOP, the highest first |
| Kalloc.Kmem.Kfree | kernel/kalloc.c:53-70 | a panic exactly when pa is unaligned, below end or at or above PHYSTOP, with nothing changed; otherwise pa goes on the head of this CPU's list only |
| Kalloc.Kmem.FreeRange | kernel/kalloc.c:40-47 | the local list gains the pages of the range, highest first, up to the first page kfree refuses; no panic exactly when there is no such page; no other list changes |
| Kalloc.Kmem.Steal | kernel/kalloc.c:75-100 | returns the number of pages StealFrom takes (at most STEAL_CNT); the lists become StealFrom's rest; st_ret[cpu] holds the pages in removal order, then zeros; no other row changes |
| Kalloc.Kmem.TakeFrom | kernel/kalloc.c:87-91 | the inner loop of steal moves pages from the head of list i into st_ret in the order StealFrom takes them, until the list is empty or the quota is reached |
| Kalloc.Kmem.Kalloc | kernel/kalloc.c:105-146 | the page returned and the lists left are KallocOf's; Valid is kept; st_ret is untouched when the local list had a page, and otherwise holds the pages steal took |
| Kalloc.Kmem.StealPop | kernel/kalloc.c:118-137 | with the local list empty: 0 and the free lists unchanged (st_ret[cpu] zeroed) when steal takes nothing; otherwise st_ret[ret-1] is returned, and the other ret-1 stolen pages stay on the local list, last stolen at the head |
| Kalloc.Kmem.PushStolen | kernel/kalloc.c:129-134 | pushes st_ret[cpu][0..ret) on the local list in that order |
| Boot.BinitGetReleaseGet | kernel/bio.c:65-115 | after binit over at least one buffer, bget does not panic; after brelse, a second bget of the same block returns the same buffer |
| Boot.NewCache | kernel/bio.c:42-60 | after binit over at least one buffer, the cache is Valid; every buffer is free, keyed (0, 0) and has lst_use 0, and bucket 0 holds them from NBUF-1 down to 0 |
| Boot.GetFirst | kernel/bio.c:65-115 | with a free buffer, bget does not panic, and the buffer it returns is the first of its key in that key's bucket, with its sleep lock held |
| Boot.GetCached | kernel/bio.c:72-81 | bget of a key that is cached, with its first match at position j of its bucket, returns the buffer at that position, raises its refcnt and changes no key |
| Boot.BinitGetZero | kernel/bio.c:45-81 | after binit over two buffers, bget(0, 0) hits slot 1, which becomes in use, while slot 0 stays free with the same key (0, 0) |
| Boot.KinitAllocFreeAlloc | kernel/kalloc.c:30-146 | after kinit, kalloc returns the highest page below PHYSTOP, or 0 when there is none; kfree of that page and a second kalloc hand the same page out again |

## Left out

- Concurrency.
  - Bucket spinlocks are tracked only in `bfind_prelru`. `FindPreLru`
    returns the ghost set of bucket locks still held, and its contract
    says that set is the victim's bucket alone, or empty when no buffer is
    free. `Miss` asserts both cases.
  - Elsewhere the lock a method takes appears only in comments.
    `Release`, `Pin` and `Unpin` assert that the bucket whose lock they
    take (the hash of the buffer's key) is the bucket that holds the
    buffer.
  - Between operations no spinlock is held.
  - The interleavings that the bucket locks serialise are not modelled.
  - The second lookup of `bget` (kernel/bio.c:94-103) is a loop whose hit is
    proved impossible in a sequential run. So the branch that returns
    there, losing the unlinked victim, is not modelled.
- Sleep locks are the boolean array `locked`.
  - `acquiresleep` waiting for another holder is not modelled: the lock is
    simply taken.
  - `holdingsleep` checks "held" rather than "held by this process".
- `virtio_disk_rw` is foreign I/O. It becomes a log of read and write
  requests in class `Disk`. Buffer data bytes are not modelled.
- `ticks` is a parameter of `Release`.
- `push_off`, `pop_off` and `cpuid` become the `cpu` parameter.
- `initsleeplock` is modelled by `Init` clearing `locked[i]`.
- `initlock`, the lock names, the `stlk` field and `snprintf` have no
  effect on the model.
- The junk `memset` fills of kfree and kalloc (kernel/kalloc.c:64, 141): page
  contents are unspecified.
- The `DEBUG` message of kalloc.
- buf.h, param.h, memlayout.h, riscv.h and kernel.ld are not part of this
  model.
  - NBUF, NCPU, STEAL_CNT, PHYSTOP and `end` are parameters of the
    constructors.
  - PGSIZE is 4096, as kernel/kalloc.c:3 states.
  - PGROUNDUP is rounding up to a multiple of PGSIZE.
- Addresses are unbounded naturals. A `uint64` wrap in `p + PGSIZE` or in
  PGROUNDUP near the top of the address space is not modelled.
- A free list is a sequence of pages, not `struct run` links inside the
  pages.
  - A page freed twice (which the source does not detect) appears twice on
    the list in the model.
  - In memory, the second kfree overwrites the page's `next` link. When the
    two frees are back to back, the page links to itself and the list
    becomes a cycle. With pages freed in between (kfree(A), kfree(B),
    kfree(A)), the list becomes A, B, A, B, ...: B is handed out again
    and every page that followed the first A is lost.
- Panics are results. The kernel halting, and everything after that
  instant, is not modelled. A `kfree` panic inside `freerange` ends
  `FreeRange` there.
- BioSpec.InUseKeysDistinct: it promises distinct keys only for two buffers
  that are both in use. The stronger property, that no in-use buffer shares
  its (dev, blockno) with any other buffer, fails in the source from boot.
  binit leaves every buffer keyed (0, 0), and bget(0, 0) then makes the
  first of them in use while the others stay free with the same key.
  `Boot.BinitGetZero` exhibits it.
- Bio.BCache.Read: its contract states the buffer's key, lock, validity,
  reference count and disk traffic. It does not say which slot was chosen
  or how the buckets changed; `Get`'s contract states that.
- Bio.BCache.Release: in-use uniqueness is promised only when refcnt was
  not already 0. brelse lowers refcnt without an underflow check, and the
  wrapped value would count as in use.
- Bio.BCache.Unpin: likewise, in-use uniqueness is promised only when
  refcnt was not already 0.
- Bio.BCache.Pin: in-use uniqueness is promised only when refcnt was not
  already 0. A buffer pinned from 0 becomes in use without being moved to
  the front of its key.
