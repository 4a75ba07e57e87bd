/** The buffer cache of kernel/bio.c: NBUF buffers threaded on BUCK_SIZ
    singly linked hash buckets, each guarded by its own spinlock.  Buffer
    pointers are slot indices into the per-slot arrays, the null pointer
    is -1, and bhash_head[i].next is head[i].  The ghost `lists` names the
    slots of every bucket in link order, `home` the bucket of every slot. */
module Bio {
  import opened SeqUtil
  import opened BioSpec

  /** A call of the disk driver virtio_disk_rw, recorded instead of
      performed. */
  datatype DiskOp = DiskRead(dev: u32, blockno: u32) | DiskWrite(dev: u32, blockno: u32)

  /** The disk behind virtio_disk_rw, reduced to the requests it was sent. */
  class Disk {
    ghost var log: seq<DiskOp>

    constructor ()
      ensures log == []
    {
      log := [];
    }

    /** virtio_disk_rw(b, write): a read (write == 0) or a write of the
        block (dev, blockno) the buffer caches. */
    method Rw(dev: u32, blockno: u32, write: bool)
      modifies this
      ensures log == old(log) + [if write then DiskWrite(dev, blockno) else DiskRead(dev, blockno)]
    {
      log := log + [if write then DiskWrite(dev, blockno) else DiskRead(dev, blockno)];
    }
  }

  /** A buffer handed back to the caller, or the panic that stops the
      kernel. */
  datatype BufResult = Buf(b: nat) | Panic(msg: string)

  class BCache {
    /** NBUF */
    const nbuf: nat
    // The fields of struct buf, one array entry per slot.
    const dev: array<u32>
    const blockno: array<u32>
    const valid: array<bool>
    const refcnt: array<u32>
    const lstUse: array<u32>
    /** The buffer's sleep lock is held. */
    const locked: array<bool>
    /** b->next as a slot index, -1 for null. */
    const next: array<int>
    /** bhash_head[i].next as a slot index, -1 for null. */
    const head: array<int>

    const disk: Disk

    ghost var lists: seq<seq<nat>>
    ghost var home: seq<nat>

    ghost predicate Shape()
    {
      && dev.Length == nbuf && blockno.Length == nbuf && valid.Length == nbuf
      && refcnt.Length == nbuf && lstUse.Length == nbuf && locked.Length == nbuf
      && next.Length == nbuf && head.Length == BUCK_SIZ
      && dev != blockno && dev != refcnt && dev != lstUse
      && blockno != refcnt && blockno != lstUse && refcnt != lstUse
      && valid != locked && next != head
    }

    /** The buckets are the chains of head[] and next[]. */
    ghost predicate Threaded()
      reads this, next, head
    {
      && Shape() && |lists| == BUCK_SIZ
      && AllBelow(lists, nbuf) && Chains(head[..], next[..], lists)
    }

    /** ... and every slot is on exactly one of them. */
    ghost predicate Linked()
      reads this, next, head
    {
      Threaded() && Partition(lists, home, nbuf)
    }

    /** ... and every slot is on the bucket its key hashes to. */
    ghost predicate Valid()
      reads this, next, head, dev, blockno
    {
      Linked() && Placed(lists, dev[..], blockno[..])
    }

    /** Every buffer in use is the first of its key in its bucket. */
    ghost predicate InUseUnique()
      reads this, next, head, dev, blockno, refcnt
      requires Valid()
    {
      InUseFirst(lists, dev[..], blockno[..], refcnt[..])
    }

    /** The zero-initialised `bcache` of n buffers, on disk `dk`. */
    constructor (n: nat, dk: Disk)
      ensures Shape() && nbuf == n && disk == dk
      ensures fresh(dev) && fresh(blockno) && fresh(valid) && fresh(refcnt)
      ensures fresh(lstUse) && fresh(locked) && fresh(next) && fresh(head)
      ensures forall s | 0 <= s < n ::
        dev[s] == 0 && blockno[s] == 0 && !valid[s] && refcnt[s] == 0 && lstUse[s] == 0 && !locked[s]
    {
      nbuf := n;
      dev := new u32[n](_ => 0);
      blockno := new u32[n](_ => 0);
      valid := new bool[n](_ => false);
      refcnt := new u32[n](_ => 0);
      lstUse := new u32[n](_ => 0);
      locked := new bool[n](_ => false);
      next := new int[n](_ => -1);
      head := new int[BUCK_SIZ](_ => -1);
      lists := seq(BUCK_SIZ, _ => []);
      home := seq(n, _ => 0);
      disk := dk;
    }

    /** binit: empties every bucket, then pushes slots 0..NBUF-1 in turn on
        bucket 0 with refcnt and lst_use 0 and the sleep lock free. */
    method Init()
      requires Shape()
      modifies this, next, head, refcnt, lstUse, locked
      ensures Linked() && lists == InitLists(nbuf)
      ensures forall s | 0 <= s < nbuf :: refcnt[s] == 0 && lstUse[s] == 0 && !locked[s]
      ensures (forall s | 0 <= s < nbuf :: dev[s] == 0 && blockno[s] == 0) ==> Valid() && InUseUnique()
    {
      ClearHeads();
      ghost var L: seq<nat> := [];
      var i := 0;
      while i < nbuf
        invariant 0 <= i <= nbuf && |L| == i && forall k | 0 <= k < i :: L[k] == i - 1 - k
        invariant forall h | 1 <= h < BUCK_SIZ :: head[h] == -1
        invariant Chain(next[..], head[0], L)
        invariant forall s | 0 <= s < i :: refcnt[s] == 0 && lstUse[s] == 0 && !locked[s]
        modifies next, head, refcnt, lstUse, locked
      {
        locked[i] := false;
        lstUse[i] := 0;
        refcnt[i] := 0;
        ChainPush(next[..], head[0], L, i);
        next[i] := head[0];
        head[0] := i;
        L := [i] + L;
        i := i + 1;
      }
      assert L == Stack(nbuf);
      lists := InitLists(nbuf);
      home := seq(nbuf, _ => 0);
      InitPartition(nbuf);
      InitChains(head[..], next[..], nbuf);
      if forall s | 0 <= s < nbuf :: dev[s] == 0 && blockno[s] == 0 {
        InitPlaced(nbuf, dev[..], blockno[..], refcnt[..]);
      }
    }

    /** The first loop of binit: every bucket starts empty. */
    method ClearHeads()
      requires head.Length == BUCK_SIZ
      modifies head
      ensures forall h | 0 <= h < BUCK_SIZ :: head[h] == -1
    {
      var i := 0;
      while i < BUCK_SIZ
        invariant 0 <= i <= BUCK_SIZ
        invariant forall h | 0 <= h < i :: head[h] == -1
      {
        head[i] := -1;
        i := i + 1;
      }
    }

    /** bfind_prelru: scans the buckets in order, each from its head, for
        the free buffer (refcnt 0) with the least lst_use, the first such in
        scan order on ties.  Returns its bucket (-1 when there is none) and
        its predecessor (-1 for the bucket's dummy head, lru_res ==
        &bhash_head[b]); the victim itself is at position j.  `held` is the
        set of bucket locks still held on return: that of the victim's
        bucket alone. */
    method FindPreLru() returns (lruBkt: int, pre: int, ghost j: nat, ghost held: set<nat>)
      requires Threaded()
      ensures lruBkt == -1 <==> NoFree(lists, refcnt[..])
      ensures lruBkt != -1 ==>
        && 0 <= lruBkt < BUCK_SIZ && IsLru(lists, refcnt[..], lstUse[..], lruBkt, j)
        && pre == (if j == 0 then -1 else lists[lruBkt][j - 1])
      ensures held == if lruBkt == -1 then {} else {lruBkt as nat}
    {
      var resPre := -1;
      ghost var resJ: nat := 0;
      ghost var res := Scan(lists, refcnt[..], lstUse[..], -1, 0, 0, 0);
      lruBkt, held := -1, {};
      var i := 0;
      while i < BUCK_SIZ
        invariant 0 <= i <= BUCK_SIZ && -1 <= lruBkt < i
        invariant held == if lruBkt == -1 then {} else {lruBkt as nat}
        invariant lruBkt != -1 ==> resJ < |lists[lruBkt]|
        invariant lruBkt != -1 ==> resPre == if resJ == 0 then -1 else lists[lruBkt][resJ - 1]
        invariant Scan(lists, refcnt[..], lstUse[..], lruBkt, resJ, i, 0) == res
      {
        // Bucket locks are taken in increasing order: the one held, if
        // any, is lruBkt, below i.
        held := held + {i};
        var foundNew, resBkt;
        resBkt, resPre, resJ, foundNew := ScanBucket(i, lruBkt, resPre, resJ);
        if !foundNew {
          held := held - {i};
        } else {
          if lruBkt != -1 {
            held := held - {lruBkt as nat};
          }
          lruBkt := i;
        }
        i := i + 1;
      }
      ScanFindsLru(lists, refcnt[..], lstUse[..], -1, 0, 0, 0);
      pre, j := resPre, resJ;
    }

    /** The inner loop of bfind_prelru: scans bucket i from its head with
        the best so far at position rj of bucket rb, whose predecessor is rp
        (-1: the dummy head); `found` tells whether a slot of bucket i
        became the best. */
    method ScanBucket(i: nat, rb: int, rp: int, ghost rj: nat) returns (rb': int, rp': int, ghost rj': nat, found: bool)
      requires Threaded() && i < BUCK_SIZ && -1 <= rb < i
      requires rb != -1 ==> rj < |lists[rb]| && rp == if rj == 0 then -1 else lists[rb][rj - 1]
      ensures rb' == (if found then i else rb) && (!found ==> rp' == rp && rj' == rj)
      ensures rb' != -1 ==> rj' < |lists[rb']| && rp' == if rj' == 0 then -1 else lists[rb'][rj' - 1]
      ensures Scan(lists, refcnt[..], lstUse[..], rb', rj', i + 1, 0) == Scan(lists, refcnt[..], lstUse[..], rb, rj, i, 0)
    {
      ghost var rc, lu := refcnt[..], lstUse[..];
      rb', rp', rj', found := rb, rp, rj, false;
      var p, b := -1, head[i];
      ghost var k: nat := 0;
      while b != -1
        invariant k <= |lists[i]| && b == (if k < |lists[i]| then lists[i][k] else -1)
        invariant p == if k == 0 then -1 else lists[i][k - 1]
        invariant rb' == (if found then i else rb) && (!found ==> rp' == rp && rj' == rj)
        invariant found ==> rj' < k
        invariant rb' != -1 ==> rj' < |lists[rb']| && rp' == if rj' == 0 then -1 else lists[rb'][rj' - 1]
        invariant Scan(lists, rc, lu, rb', rj', i, k) == Scan(lists, rc, lu, rb, rj, i, 0)
        decreases |lists[i]| - k
      {
        var take;
        rb', rp', rj', take := ScanPos(i, k, b, p, rb', rp', rj');
        found := found || take;
        ChainAt(next[..], head[i], lists[i], k);
        p, b, k := b, next[b], k + 1;
      }
    }

    /** The test of the inner loop of bfind_prelru at the slot b, position k
        of bucket i with predecessor p: b becomes the best so far (`take`)
        when it is free and, unless there is no best yet, strictly older
        than the best, the slot after rp in bucket rb. */
    method ScanPos(i: nat, ghost k: nat, b: nat, p: int, rb: int, rp: int, ghost rj: nat)
      returns (rb': int, rp': int, ghost rj': nat, take: bool)
      requires Threaded() && i < BUCK_SIZ && k < |lists[i]| && b == lists[i][k]
      requires rb != -1 ==> 0 <= rb < BUCK_SIZ && rj < |lists[rb]| && rp == if rj == 0 then -1 else lists[rb][rj - 1]
      ensures take ==> rb' == i && rp' == p && rj' == k
      ensures !take ==> rb' == rb && rp' == rp && rj' == rj
      ensures Scan(lists, refcnt[..], lstUse[..], rb', rj', i, k + 1) == Scan(lists, refcnt[..], lstUse[..], rb, rj, i, k)
    {
      take := refcnt[b] == 0;
      if take && rb != -1 {
        // lru_res->next
        if 0 < rj {
          ChainAt(next[..], head[rb], lists[rb], rj - 1);
        }
        var victim := if rp == -1 then head[rb] else next[rp];
        take := lstUse[b] < lstUse[victim];
      }
      ScanUnfold(lists, refcnt[..], lstUse[..], rb, rj, i, k, take);
      if take {
        rb', rp', rj' := i, p, k;
      } else {
        rb', rp', rj' := rb, rp, rj;
      }
    }

    /** The lookup loop of bget: walks bucket key from its head and stops at
        the first buffer carrying (d, bn); -1 when there is none. */
    method Lookup(key: nat, d: u32, bn: u32) returns (b: int, ghost k: nat)
      requires Threaded() && key < BUCK_SIZ
      ensures b == -1 <==> NoMatch(lists[key], dev[..], blockno[..], d, bn)
      ensures b != -1 ==> FirstMatch(lists[key], dev[..], blockno[..], d, bn, k) && b == lists[key][k]
    {
      b, k := head[key], 0;
      while b != -1
        invariant k <= |lists[key]| && b == (if k < |lists[key]| then lists[key][k] else -1)
        invariant forall m | 0 <= m < k :: !(dev[lists[key][m]] == d && blockno[lists[key][m]] == bn)
        decreases |lists[key]| - k
      {
        if dev[b] == d && blockno[b] == bn {
          return;
        }
        ChainAt(next[..], head[key], lists[key], k);
        b, k := next[b], k + 1;
      }
    }

    /** bget: the buffer for (d, bn) with its refcnt raised and its sleep
        lock taken.  A hit is the first buffer of that key in bucket
        Hash(d, bn); a miss recycles the victim of bfind_prelru (see Miss);
        with no free buffer the kernel panics. */
    method Get(d: u32, bn: u32) returns (r: BufResult, ghost hit: bool, ghost vb: nat, ghost vj: nat)
      requires Valid()
      modifies this, dev, blockno, valid, refcnt, locked, next, head
      ensures Valid()
      ensures hit <==> !old(NoMatch(lists[Hash(d, bn)], dev[..], blockno[..], d, bn))
      ensures r.Panic? <==> !hit && old(NoFree(lists, refcnt[..]))
      ensures r.Panic? ==> r.msg == "bget: no buffers" && unchanged(this, dev, blockno, valid, refcnt, locked, next, head)
      ensures r.Buf? ==>
        && r.b < nbuf && dev[r.b] == d && blockno[r.b] == bn && locked[r.b]
        && refcnt[..] == old(refcnt[..])[r.b := Inc(old(refcnt[r.b]))]
        && locked[..] == old(locked[..])[r.b := true]
      ensures hit ==>
        && old(FirstMatch(lists[Hash(d, bn)], dev[..], blockno[..], d, bn, vj))
        && r == Buf(old(lists[Hash(d, bn)][vj])) && lists == old(lists) && home == old(home)
        && unchanged(dev, blockno, valid, next, head)
      ensures !hit && r.Buf? ==>
        && old(IsLru(lists, refcnt[..], lstUse[..], vb, vj)) && r.b == old(lists[vb][vj])
        && lists == Relocate(old(lists), vb, vj, Hash(d, bn)) && home == old(home)[r.b := Hash(d, bn)]
        && dev[..] == old(dev[..])[r.b := d] && blockno[..] == old(blockno[..])[r.b := bn]
        && valid[..] == old(valid[..])[r.b := false]
      ensures old(InUseUnique()) ==> InUseUnique()
    {
      var key := Hash(d, bn);
      // The lookup and the hit run under the lock of bucket key, which is
      // released before bfind_prelru takes any lock.
      var b;
      ghost var k;
      b, k := Lookup(key, d, bn);
      if b != -1 {
        Hit(b, d, bn, key, k);
        return Buf(b), true, key, k;
      }
      r, vb, vj := Miss(key, d, bn);
      hit := false;
    }

    /** The hit path of bget: buffer b, the first of key (d, bn) in its
        bucket, gains a reference and its sleep lock is taken. */
    method Hit(b: nat, d: u32, bn: u32, ghost key: nat, ghost k: nat)
      requires Valid() && key < BUCK_SIZ && k < |lists[key]| && b == lists[key][k]
      requires FirstMatch(lists[key], dev[..], blockno[..], d, bn, k)
      modifies refcnt, locked
      ensures Valid()
      ensures refcnt[..] == old(refcnt[..])[b := Inc(old(refcnt[b]))]
      ensures locked[..] == old(locked[..])[b := true]
      ensures old(InUseUnique()) ==> InUseUnique()
    {
      if InUseUnique() {
        HitKeepsInUseFirst(lists, home, dev[..], blockno[..], refcnt[..], key, k, Inc(refcnt[b]));
      }
      refcnt[b] := Inc(refcnt[b]);
      locked[b] := true;
    }

    /** The miss path of bget: takes the victim of bfind_prelru, unlinks it
        from its bucket, looks key (d, bn) up again in bucket key, and pushes
        the victim there with that key, valid = 0 and refcnt = 1; with no
        free buffer the kernel panics. */
    method Miss(key: nat, d: u32, bn: u32) returns (r: BufResult, ghost vb: nat, ghost vj: nat)
      requires Valid() && key == Hash(d, bn) && NoMatch(lists[key], dev[..], blockno[..], d, bn)
      modifies this, dev, blockno, valid, refcnt, locked, next, head
      ensures Valid()
      ensures r.Panic? <==> old(NoFree(lists, refcnt[..]))
      ensures r.Panic? ==> r.msg == "bget: no buffers" && unchanged(this, dev, blockno, valid, refcnt, locked, next, head)
      ensures r.Buf? ==>
        && r.b < nbuf && old(IsLru(lists, refcnt[..], lstUse[..], vb, vj)) && r.b == old(lists[vb][vj])
        && lists == Relocate(old(lists), vb, vj, key) && home == old(home)[r.b := key]
        && dev[..] == old(dev[..])[r.b := d] && blockno[..] == old(blockno[..])[r.b := bn]
        && valid[..] == old(valid[..])[r.b := false] && refcnt[..] == old(refcnt[..])[r.b := 1]
        && locked[..] == old(locked[..])[r.b := true]
      ensures old(InUseUnique()) ==> InUseUnique()
    {
      var lruBkt, pre;
      ghost var held: set<nat>;
      lruBkt, pre, vj, held := FindPreLru();
      if lruBkt == -1 {
        // The panic comes with no bucket lock held.
        assert held == {};
        return Panic("bget: no buffers"), 0, 0;
      }
      // Evict starts with the victim's bucket locked, and that lock only.
      assert held == {lruBkt as nat};
      vb := lruBkt;
      var lru := Evict(key, d, bn, lruBkt, pre, vj);
      r := Buf(lru);
    }

    /** The rest of the miss path of bget, once bfind_prelru has returned
        with the lock on the victim's bucket `bkt` held: unlink the victim
        at position j, take the lock on bucket `key`, look the block up
        again, push the victim on bucket `key` and give it the new key,
        invalid, with refcnt 1 and its sleep lock taken. */
    method Evict(key: nat, d: u32, bn: u32, bkt: nat, pre: int, ghost j: nat) returns (lru: nat)
      requires Valid() && key == Hash(d, bn) && NoMatch(lists[key], dev[..], blockno[..], d, bn)
      requires bkt < BUCK_SIZ && j < |lists[bkt]| && pre == (if j == 0 then -1 else lists[bkt][j - 1])
      modifies this, dev, blockno, valid, refcnt, locked, next, head
      ensures Valid()
      ensures lru == old(lists[bkt][j]) && lru < nbuf
      ensures lists == Relocate(old(lists), bkt, j, key) && home == old(home)[lru := key]
      ensures dev[..] == old(dev[..])[lru := d] && blockno[..] == old(blockno[..])[lru := bn]
      ensures valid[..] == old(valid[..])[lru := false] && refcnt[..] == old(refcnt[..])[lru := 1]
      ensures locked[..] == old(locked[..])[lru := true]
      ensures old(InUseUnique()) ==> InUseUnique()
    {
      ghost var lists0, home0, dev0, blk0, rc0 := lists, home, dev[..], blockno[..], refcnt[..];
      MissKeeps(lists0, home0, dev0, blk0, rc0, bkt, j, key, d, bn);
      // Unlinking under the lock of bucket bkt, which is then released.
      lru := Unlink(bkt, pre, j);

      // The second lookup and the push run under the lock of bucket key
      // alone.  With no other CPU in between, the lookup finds nothing.
      var b;
      ghost var k;
      b, k := Lookup(key, d, bn);
      if b != -1 {
        assert false;
      }

      Push(key, lru);
      Install(lru, d, bn);
      // acquiresleep comes after the lock of bucket key is released.
      locked[lru] := true;
    }

    /** The victim's new identity (kernel/bio.c:108-109): the new key, not
        valid, one reference. */
    method Install(b: nat, d: u32, bn: u32)
      requires Shape() && b < nbuf
      modifies dev, blockno, valid, refcnt
      ensures dev[..] == old(dev[..])[b := d] && blockno[..] == old(blockno[..])[b := bn]
      ensures valid[..] == old(valid[..])[b := false] && refcnt[..] == old(refcnt[..])[b := 1]
    {
      dev[b], blockno[b] := d, bn;
      valid[b], refcnt[b] := false, 1;
    }

    /** Unlinks the victim found by bfind_prelru from its bucket:
        pre_lru->next = lru->next, through bhash_head[bkt] when the
        predecessor is the dummy head. */
    method Unlink(bkt: nat, pre: int, ghost j: nat) returns (lru: nat)
      requires Linked() && bkt < BUCK_SIZ && j < |lists[bkt]|
      requires pre == if j == 0 then -1 else lists[bkt][j - 1]
      modifies this, next, head
      ensures lru == old(lists[bkt][j]) && lru < nbuf
      ensures lists == old(lists)[bkt := Cut(old(lists[bkt]), j)]
      ensures home == old(home)
      ensures Threaded()
    {
      lru := if pre == -1 then head[bkt] else next[pre];
      UnlinkChains(head[..], next[..], lists, home, bkt, j);
      if pre == -1 {
        head[bkt] := next[lru];
      } else {
        next[pre] := next[lru];
      }
      CutMembers(lists[bkt], j);
      lists := lists[bkt := Cut(lists[bkt], j)];
    }

    /** Pushes slot lru, which is on no bucket, on the head of bucket key
        (kernel/bio.c:105-106) and makes key its bucket. */
    method Push(key: nat, lru: nat)
      requires Shape() && |lists| == BUCK_SIZ && |home| == nbuf && Chains(head[..], next[..], lists)
      requires key < BUCK_SIZ && lru < nbuf && forall i | 0 <= i < BUCK_SIZ :: lru !in lists[i]
      modifies this, next, head
      ensures lists == old(lists)[key := [lru] + old(lists[key])]
      ensures home == old(home)[lru := key]
      ensures Chains(head[..], next[..], lists)
    {
      PushChains(head[..], next[..], lists, key, lru);
      next[lru] := head[key];
      head[key] := lru;
      lists := lists[key := [lru] + lists[key]];
      home := home[lru := key];
    }

    /** bread: bget, then a disk read into the buffer unless it is valid. */
    method Read(d: u32, bn: u32) returns (r: BufResult, ghost hit: bool)
      requires Valid()
      modifies this, dev, blockno, valid, refcnt, locked, next, head, disk
      ensures Valid()
      ensures hit <==> !old(NoMatch(lists[Hash(d, bn)], dev[..], blockno[..], d, bn))
      ensures r.Panic? <==> !hit && old(NoFree(lists, refcnt[..]))
      ensures r.Panic? ==> unchanged(this, dev, blockno, valid, refcnt, locked, next, head, disk)
      ensures r.Buf? ==>
        && r.b < nbuf && dev[r.b] == d && blockno[r.b] == bn && locked[r.b] && valid[r.b]
        && disk.log == old(disk.log) + if hit && old(valid[r.b]) then [] else [DiskRead(d, bn)]
      ensures r.Buf? ==> refcnt[..] == old(refcnt[..])[r.b := Inc(old(refcnt[r.b]))]
      ensures old(InUseUnique()) ==> InUseUnique()
    {
      r, hit := GetForRead(d, bn);
      if r.Buf? {
        Fill(r.b);
      }
    }

    /** bget as bread uses it (kernel/bio.c:149): Get's contract, cut to
        what bread needs, and the buffer's validity, which is kept on a hit
        and cleared on a miss.  It adds no behaviour to Get: it only splits
        Read's proof in two, so that each half stays small. */
    method GetForRead(d: u32, bn: u32) returns (r: BufResult, ghost hit: bool)
      requires Valid()
      modifies this, dev, blockno, valid, refcnt, locked, next, head
      ensures Valid()
      ensures hit <==> !old(NoMatch(lists[Hash(d, bn)], dev[..], blockno[..], d, bn))
      ensures r.Panic? <==> !hit && old(NoFree(lists, refcnt[..]))
      ensures r.Panic? ==> unchanged(this, dev, blockno, valid, refcnt, locked, next, head)
      ensures r.Buf? ==>
        && r.b < nbuf && dev[r.b] == d && blockno[r.b] == bn && locked[r.b]
        && (valid[r.b] <==> hit && old(valid[r.b]))
        && refcnt[..] == old(refcnt[..])[r.b := Inc(old(refcnt[r.b]))]
      ensures old(InUseUnique()) ==> InUseUnique()
    {
      ghost var vb, vj;
      r, hit, vb, vj := Get(d, bn);
    }

    /** The second half of bread: reads the block into buffer b from disk
        unless the buffer is valid already, and marks it valid. */
    method Fill(b: nat)
      requires Valid() && b < nbuf
      modifies valid, disk
      ensures Valid() && (old(InUseUnique()) ==> InUseUnique())
      ensures valid[..] == old(valid[..])[b := true]
      ensures disk.log == old(disk.log) + if old(valid[b]) then [] else [DiskRead(dev[b], blockno[b])]
    {
      if !valid[b] {
        disk.Rw(dev[b], blockno[b], false);
        valid[b] := true;
      }
    }

    /** bwrite: a disk write of the buffer, which the caller must hold
        locked; otherwise the kernel panics ("bwrite"). */
    method Write(b: nat) returns (ok: bool)
      requires b < nbuf && Shape()
      modifies disk
      ensures ok == locked[b]
      ensures disk.log == old(disk.log) + if ok then [DiskWrite(dev[b], blockno[b])] else []
    {
      if !locked[b] {
        return false;
      }
      disk.Rw(dev[b], blockno[b], true);
      ok := true;
    }

    /** brelse: releases the buffer's sleep lock (panicking, "brelse", when
        the caller does not hold it), then under the lock of its bucket
        lowers refcnt and, when that reaches 0, stamps lst_use with the
        current tick count. */
    method Release(b: nat, ticks: u32) returns (ok: bool)
      requires Valid() && b < nbuf
      modifies refcnt, lstUse, locked
      ensures Valid()
      ensures ok == old(locked[b])
      ensures !ok ==> unchanged(refcnt, lstUse, locked)
      ensures ok ==>
        && locked[..] == old(locked[..])[b := false]
        && refcnt[..] == old(refcnt[..])[b := Dec(old(refcnt[b]))]
        && lstUse[..] == if refcnt[b] == 0 then old(lstUse[..])[b := ticks] else old(lstUse[..])
      ensures old(InUseUnique()) && old(refcnt[b]) != 0 ==> InUseUnique()
    {
      if !locked[b] {
        return false;
      }
      locked[b] := false;
      var key := Hash(dev[b], blockno[b]);
      HomeIsHash(lists, home, dev[..], blockno[..], b);
      // The lock taken, that of bucket key, guards the bucket b is on.
      assert key == home[b] && b in lists[key];
      ghost var rc0 := refcnt[..];
      ghost var unique0 := InUseFirst(lists, dev[..], blockno[..], rc0);
      refcnt[b] := Dec(refcnt[b]);
      if refcnt[b] == 0 {
        lstUse[b] := ticks;
      }
      if unique0 && rc0[b] != 0 {
        FewerInUseKeepsInUseFirst(lists, dev[..], blockno[..], rc0, refcnt[..]);
      }
      ok := true;
    }

    /** bpin: raises refcnt under the lock of the buffer's bucket. */
    method Pin(b: nat)
      requires Valid() && b < nbuf
      modifies refcnt
      ensures Valid()
      ensures refcnt[..] == old(refcnt[..])[b := Inc(old(refcnt[b]))]
      ensures old(InUseUnique()) && old(refcnt[b]) != 0 ==> InUseUnique()
    {
      var key := Hash(dev[b], blockno[b]);
      HomeIsHash(lists, home, dev[..], blockno[..], b);
      // The lock taken, that of bucket key, guards the bucket b is on.
      assert key == home[b] && b in lists[key];
      ghost var rc0 := refcnt[..];
      ghost var unique0 := InUseFirst(lists, dev[..], blockno[..], rc0);
      refcnt[b] := Inc(refcnt[b]);
      if unique0 && rc0[b] != 0 {
        FewerInUseKeepsInUseFirst(lists, dev[..], blockno[..], rc0, refcnt[..]);
      }
    }

    /** bunpin: lowers refcnt under the lock of the buffer's bucket. */
    method Unpin(b: nat)
      requires Valid() && b < nbuf
      modifies refcnt
      ensures Valid()
      ensures refcnt[..] == old(refcnt[..])[b := Dec(old(refcnt[b]))]
      ensures old(InUseUnique()) && old(refcnt[b]) != 0 ==> InUseUnique()
    {
      var key := Hash(dev[b], blockno[b]);
      HomeIsHash(lists, home, dev[..], blockno[..], b);
      // The lock taken, that of bucket key, guards the bucket b is on.
      assert key == home[b] && b in lists[key];
      ghost var rc0 := refcnt[..];
      ghost var unique0 := InUseFirst(lists, dev[..], blockno[..], rc0);
      refcnt[b] := Dec(refcnt[b]);
      if unique0 && rc0[b] != 0 {
        FewerInUseKeepsInUseFirst(lists, dev[..], blockno[..], rc0, refcnt[..]);
      }
    }
  }
}
