/** Short client traces of the two subsystems, each started from the
    state the kernel boots them in (binit, kinit). */
module Boot {
  import opened SeqUtil
  import opened BioSpec
  import opened Bio
  import opened KallocSpec
  import opened Kalloc

  /** binit over n buffers, then bget, brelse and bget again for one block:
      neither bget panics, and the second finds the very buffer the first
      returned still cached. */
  method BinitGetReleaseGet(n: nat, d: u32, bn: u32, ticks: u32) returns (r1: BufResult, r2: BufResult)
    requires 0 < n
    ensures r1.Buf? && r1.b < n && r2 == r1
  {
    var c := NewCache(n);
    var key := Hash(d, bn);
    ghost var j1;
    r1, j1 := GetFirst(c, d, bn);
    var ok := c.Release(r1.b, ticks);
    assert ok;
    r2 := GetCached(c, d, bn, j1);
  }

  /** binit over two buffers, then bget(0, 0): binit leaves both buffers
      keyed (0, 0) on bucket 0, slot 1 at the head, so the bget hits slot 1
      and puts it in use while slot 0, free, still carries the same key. */
  method BinitGetZero() returns (c: BCache, r: BufResult)
    ensures c.Valid() && c.nbuf == 2 && r == Buf(1)
    ensures c.dev[0] == 0 && c.blockno[0] == 0 && c.dev[1] == 0 && c.blockno[1] == 0
    ensures c.refcnt[0] == 0 && c.refcnt[1] == 1
  {
    c := NewCache(2);
    assert Hash(0, 0) == 0;
    assert c.lists[0] == [1, 0];
    assert FirstMatch(c.lists[0], c.dev[..], c.blockno[..], 0, 0, 0);
    r := GetCached(c, 0, 0, 0);
  }

  /** A cache of n buffers just after binit: all of them free, keyed
      (0, 0), with lst_use 0 and on bucket 0. */
  method NewCache(n: nat) returns (c: BCache)
    requires 0 < n
    ensures fresh(c) && fresh(c.dev) && fresh(c.blockno) && fresh(c.valid) && fresh(c.refcnt)
    ensures fresh(c.lstUse) && fresh(c.locked) && fresh(c.next) && fresh(c.head)
    ensures c.nbuf == n && c.Valid() && !NoFree(c.lists, c.refcnt[..]) && c.lists[0] == Stack(n)
    ensures forall s | 0 <= s < n :: c.dev[s] == 0 && c.blockno[s] == 0 && c.refcnt[s] == 0 && c.lstUse[s] == 0
  {
    var dk := new Disk();
    c := new BCache(n, dk);
    c.Init();
    assert c.lists[0][0] == n - 1 && c.refcnt[c.lists[0][0]] == 0 && Before(0, 0, |c.lists|, 0);
  }

  /** bget with a free buffer at hand: it does not panic, and the buffer
      it returns is the first of key (d, bn) in that key's bucket, at
      position j, with its sleep lock held. */
  method GetFirst(c: BCache, d: u32, bn: u32) returns (r: BufResult, ghost j: nat)
    requires c.Valid() && !NoFree(c.lists, c.refcnt[..])
    modifies c, c.dev, c.blockno, c.valid, c.refcnt, c.locked, c.next, c.head
    ensures c.Valid() && r.Buf? && r.b < c.nbuf && c.locked[r.b]
    ensures FirstMatch(c.lists[Hash(d, bn)], c.dev[..], c.blockno[..], d, bn, j) && c.lists[Hash(d, bn)][j] == r.b
  {
    ghost var hit, vb, vj;
    r, hit, vb, vj := c.Get(d, bn);
    if hit {
      j := vj;
    } else {
      // A miss pushes the buffer on the head of the key's bucket.
      j := 0;
      assert c.lists[Hash(d, bn)][0] == r.b;
    }
  }

  /** bget of a key cached at position j of its bucket: a hit on the
      buffer at that position, which gains a reference. */
  method GetCached(c: BCache, d: u32, bn: u32, ghost j: nat) returns (r: BufResult)
    requires c.Valid() && FirstMatch(c.lists[Hash(d, bn)], c.dev[..], c.blockno[..], d, bn, j)
    modifies c, c.dev, c.blockno, c.valid, c.refcnt, c.locked, c.next, c.head
    ensures c.Valid() && r == Buf(old(c.lists[Hash(d, bn)][j]))
    ensures c.refcnt[..] == old(c.refcnt[..])[r.b := Inc(old(c.refcnt[r.b]))]
    ensures unchanged(c.dev, c.blockno)
  {
    ghost var hit, vb, vj;
    r, hit, vb, vj := c.Get(d, bn);
  }

  /** kinit on CPU cpu, kalloc, kfree of the page returned and kalloc
      again: kalloc first hands out the highest page below PHYSTOP (0 when
      there is none), and the page freed is the next one handed out. */
  method KinitAllocFreeAlloc(ncpu: nat, stealCnt: nat, kend: nat, phystop: nat, cpu: nat)
    returns (pa1: nat, pa2: nat)
    requires cpu < ncpu && 0 < kend
    ensures var ps := Pages(PgRoundUp(kend), phystop);
      && (ps == [] ==> pa1 == 0)
      && (ps != [] ==> pa1 == ps[|ps| - 1] && pa1 != 0 && pa2 == pa1)
  {
    var km := new Kmem(ncpu, stealCnt, kend, phystop, cpu);
    ghost var ps := Pages(PgRoundUp(kend), phystop);
    ghost var ls := km.free;
    KallocValid(ls, cpu, stealCnt, kend, phystop);
    if ps == [] {
      assert ls[cpu] == [];
      assert OutOfMemory(ls, cpu, stealCnt);
    } else {
      PopLast(ps);
    }
    pa1 := km.Kalloc(cpu);
    pa2 := 0;
    if pa1 != 0 {
      var ok := km.Kfree(cpu, pa1);
      pa2 := km.Kalloc(cpu);
    }
  }
}
