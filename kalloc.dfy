/** The per-CPU physical page allocator of kernel/kalloc.c.  kmems[cpu] is
    one entry of `free` (its freelist, head first, each link the run
    stored in the page itself) and one row of `stRet` (its st_ret
    candidate queue).  NCPU, STEAL_CNT, the kernel's `end` and PHYSTOP are
    the constants the object is built with; the CPU a call runs on is a
    parameter. */
module Kalloc {
  import opened SeqUtil
  import opened KallocSpec

  class Kmem {
    /** NCPU */
    const ncpu: nat
    /** STEAL_CNT */
    const stealCnt: nat
    /** The first address after the kernel image (`end`). */
    const kend: nat
    /** PHYSTOP */
    const phystop: nat

    /** kmems[c].freelist for every CPU c, as the pages on it. */
    var free: seq<seq<nat>>
    /** kmems[c].st_ret[k] is stRet[c, k]; 0 is the null pointer. */
    const stRet: array2<nat>

    /** One free list per CPU, every page on them one that kfree
        accepts (so none is the null page 0). */
    ghost predicate Valid()
      reads this
    {
      && |free| == ncpu && 0 < kend
      && stRet.Length0 == ncpu && stRet.Length1 == stealCnt
      && AllValid(free, kend, phystop)
    }

    /** kinit(), run on CPU cpu: every free list starts empty and
        freerange(end, PHYSTOP) puts all of memory above the kernel on
        the list of cpu, the highest page at the head. */
    constructor (ncpu: nat, stealCnt: nat, kend: nat, phystop: nat, cpu: nat)
      requires cpu < ncpu && 0 < kend
      ensures Valid() && fresh(stRet)
      ensures this.ncpu == ncpu && this.stealCnt == stealCnt && this.kend == kend && this.phystop == phystop
      ensures free == seq(ncpu, _ => [])[cpu := Rev(Pages(PgRoundUp(kend), phystop))]
    {
      this.ncpu, this.stealCnt, this.kend, this.phystop := ncpu, stealCnt, kend, phystop;
      free := seq(ncpu, _ => []);
      stRet := new nat[ncpu, stealCnt]((_, _) => 0);
      new;
      var ps := Pages(PgRoundUp(kend), phystop);
      InitRangeValid(kend, phystop);
      var ok := FreeRange(cpu, kend, phystop);
      assert ps[..|ps|] == ps;
      assert Rev(ps) + [] == Rev(ps);
    }

    /** kfree(pa) on CPU cpu: panic (ok == false, nothing changes) unless
        pa is page-aligned and inside [end, PHYSTOP); otherwise pa goes on
        the head of cpu's list and no other list changes. */
    method Kfree(cpu: nat, pa: nat) returns (ok: bool)
      requires Valid() && cpu < ncpu
      modifies this
      ensures Valid()
      ensures ok <==> ValidPage(pa, kend, phystop)
      ensures ok ==> free == old(free)[cpu := [pa] + old(free[cpu])]
      ensures !ok ==> free == old(free)
    {
      if pa % PGSIZE != 0 || pa < kend || pa >= phystop {
        return false;
      }
      free := free[cpu := [pa] + free[cpu]];
      ok := true;
      forall i, k | 0 <= i < |free| && 0 <= k < |free[i]| ensures ValidPage(free[i][k], kend, phystop) {
        if i == cpu && k > 0 {
          assert free[i][k] == old(free[cpu])[k - 1];
        }
      }
    }

    /** freerange(start, pend) on CPU cpu: kfree every page from
        PGROUNDUP(start) on that fits below pend, in ascending order, so
        the list of cpu gains them highest first.  A kfree panic
        (ok == false) stops it after the pages that kfree accepted. */
    method FreeRange(cpu: nat, start: nat, pend: nat) returns (ok: bool)
      requires Valid() && cpu < ncpu
      modifies this
      ensures Valid()
      ensures var ps := Pages(PgRoundUp(start), pend);
        var n := Freed(ps, kend, phystop);
        && (ok <==> n == |ps|)
        && free == old(free)[cpu := Rev(ps[..n]) + old(free[cpu])]
    {
      var p := PgRoundUp(start);
      ghost var ps := Pages(p, pend);
      ghost var n := 0;
      assert Rev(ps[..0]) + free[cpu] == free[cpu];
      assert free[cpu := free[cpu]] == free;
      while p + PGSIZE <= pend
        invariant Valid()
        invariant n <= |ps| && ps[n..] == Pages(p, pend)
        invariant forall k | 0 <= k < n :: ValidPage(ps[k], kend, phystop)
        invariant free == old(free)[cpu := Rev(ps[..n]) + old(free[cpu])]
        decreases pend - p
      {
        assert ps[n] == p;
        var freed := Kfree(cpu, p);
        if !freed {
          FreedAt(ps, n, kend, phystop);
          return false;
        }
        PushNext(ps, n, old(free[cpu]));
        assert ps[n + 1..] == ps[n..][1..];
        p, n := p + PGSIZE, n + 1;
      }
      FreedAt(ps, n, kend, phystop);
      ok := true;
    }

    /** steal(cpu): clear cpu's st_ret, then from every other CPU in
        increasing order take pages off the head of its list into st_ret,
        until STEAL_CNT pages are taken.  It returns how many it took;
        they are st_ret[cpu][0..ret) in removal order, the rest of that row
        is 0, and no other row changes. */
    method Steal(cpu: nat) returns (ret: nat)
      requires Valid() && cpu < ncpu
      modifies this, stRet
      ensures Valid()
      ensures ret == |StealFrom(old(free), cpu, stealCnt, 0).taken| <= stealCnt
      ensures free == StealFrom(old(free), cpu, stealCnt, 0).rest
      ensures forall k | 0 <= k < stealCnt :: stRet[cpu, k] == StRetAfter(old(free), cpu, stealCnt, k)
      ensures forall c, k | 0 <= c < ncpu && c != cpu && 0 <= k < stealCnt :: stRet[c, k] == old(stRet[c, k])
    {
      ghost var s0 := StealFrom(free, cpu, stealCnt, 0);
      ghost var free0 := free;
      StealValid(free, cpu, stealCnt, kend, phystop);
      var left := stealCnt;
      var idx := 0;
      ghost var taken: seq<nat> := [];
      forall k | 0 <= k < stealCnt {
        stRet[cpu, k] := 0;
      }
      var i := 0;
      while i < ncpu
        invariant i <= ncpu && |free| == ncpu && idx + left == stealCnt && |taken| == idx
        invariant taken + StealFrom(free, cpu, left, i).taken == s0.taken
        invariant StealFrom(free, cpu, left, i).rest == s0.rest
        invariant RowHolds(cpu, taken)
        invariant forall c, k | 0 <= c < ncpu && c != cpu && 0 <= k < stealCnt :: stRet[c, k] == old(stRet[c, k])
      {
        if i == cpu {
          i := i + 1;
          continue;
        }
        idx, left, taken := TakeFrom(cpu, i, idx, left, taken);
        assert StealFrom(free, cpu, left, i) == StealFrom(free, cpu, left, i + 1);
        i := i + 1;
        if left == 0 {
          StealDone(free, cpu, i);
          break;
        }
      }
      if i == ncpu {
        assert StealFrom(free, cpu, left, i) == Stolen([], free);
      }
      assert taken == s0.taken;
      ret := idx;
      assert forall k | 0 <= k < stealCnt :: stRet[cpu, k] == StRetAfter(free0, cpu, stealCnt, k);
    }

    /** Row c of st_ret holds the pages taken, then zeros. */
    ghost predicate RowHolds(c: nat, taken: seq<nat>)
      reads stRet
    {
      && c < stRet.Length0 && |taken| <= stRet.Length1
      && forall k | 0 <= k < stRet.Length1 :: stRet[c, k] == if k < |taken| then taken[k] else 0
    }

    /** The inner loop of steal: while list i has a page and pages are
        still wanted, move its head into st_ret[cpu][idx] and count it.
        It leaves list i empty or the quota reached, and the rest of the
        walk over the lists from i on is still to come. */
    method TakeFrom(cpu: nat, i: nat, idx: nat, left: nat, ghost taken: seq<nat>)
      returns (idx': nat, left': nat, ghost taken': seq<nat>)
      requires |free| == ncpu && cpu < ncpu && i < ncpu && i != cpu
      requires stRet.Length0 == ncpu && stRet.Length1 == stealCnt
      requires idx + left == stealCnt && |taken| == idx && RowHolds(cpu, taken)
      modifies this, stRet
      ensures |free| == ncpu && idx' + left' == stealCnt && |taken'| == idx' && RowHolds(cpu, taken')
      ensures taken' + StealFrom(free, cpu, left', i).taken == taken + StealFrom(old(free), cpu, left, i).taken
      ensures StealFrom(free, cpu, left', i).rest == StealFrom(old(free), cpu, left, i).rest
      ensures free[i] == [] || left' == 0
      ensures forall c, k | 0 <= c < ncpu && c != cpu && 0 <= k < stealCnt :: stRet[c, k] == old(stRet[c, k])
    {
      idx', left', taken' := idx, left, taken;
      while free[i] != [] && left' != 0
        invariant |free| == ncpu && idx' + left' == stealCnt && |taken'| == idx' && RowHolds(cpu, taken')
        invariant taken' + StealFrom(free, cpu, left', i).taken == taken + StealFrom(old(free), cpu, left, i).taken
        invariant StealFrom(free, cpu, left', i).rest == StealFrom(old(free), cpu, left, i).rest
        invariant forall c, k | 0 <= c < ncpu && c != cpu && 0 <= k < stealCnt :: stRet[c, k] == old(stRet[c, k])
        decreases |free[i]|
      {
        var pa := free[i][0];
        ghost var ls', l := free[i := free[i][1..]], left' - 1;
        ghost var rest := StealFrom(ls', cpu, l, i).taken;
        assert StealFrom(free, cpu, left', i).taken == [pa] + rest;
        assert taken' + [pa] + rest == taken' + ([pa] + rest);
        stRet[cpu, idx'] := pa;
        idx' := idx' + 1;
        free := free[i := free[i][1..]];
        left' := left' - 1;
        taken' := taken' + [pa];
      }
    }

    /** kalloc() on CPU cpu: the head of cpu's list, or, when that list is
        empty, what StealPop hands out.  st_ret is left alone when the
        local list had a page. */
    method Kalloc(cpu: nat) returns (pa: nat)
      requires Valid() && cpu < ncpu
      modifies this, stRet
      ensures Valid()
      ensures pa == KallocOf(old(free), cpu, stealCnt).pa
      ensures free == KallocOf(old(free), cpu, stealCnt).lists
      ensures old(free[cpu]) != [] ==> unchanged(stRet)
      ensures old(free[cpu]) == [] ==> forall k | 0 <= k < stealCnt ::
        stRet[cpu, k] == StRetAfter(old(free), cpu, stealCnt, k)
      ensures forall c, k | 0 <= c < ncpu && c != cpu && 0 <= k < stealCnt :: stRet[c, k] == old(stRet[c, k])
    {
      KallocValid(free, cpu, stealCnt, kend, phystop);
      if free[cpu] != [] {
        pa := free[cpu][0];
        free := free[cpu := free[cpu][1..]];
        return;
      }
      pa := StealPop(cpu);
    }

    /** The empty-local-list half of kalloc: steal; return 0 when nothing
        was stolen; otherwise push the stolen pages on cpu's list in
        st_ret order and pop the last one stolen. */
    method StealPop(cpu: nat) returns (pa: nat)
      requires Valid() && cpu < ncpu && free[cpu] == []
      modifies this, stRet
      ensures var s := StealFrom(old(free), cpu, stealCnt, 0);
        var n := |s.taken|;
        && (n == 0 ==> pa == 0 && free == old(free))
        && (n != 0 ==> pa == s.taken[n - 1] && free == s.rest[cpu := Rev(s.taken[..n - 1])])
      ensures forall k | 0 <= k < stealCnt :: stRet[cpu, k] == StRetAfter(old(free), cpu, stealCnt, k)
      ensures forall c, k | 0 <= c < ncpu && c != cpu && 0 <= k < stealCnt :: stRet[c, k] == old(stRet[c, k])
    {
      ghost var s := StealFrom(free, cpu, stealCnt, 0);
      ghost var free0 := free;
      var ret := Steal(cpu);
      assert ret == |s.taken| && free == s.rest;
      if ret <= 0 {
        StealNothing(free0, cpu, stealCnt);
        return 0;
      }
      StolenNonNull(free0, cpu, stealCnt, kend, phystop);
      BlocksKeepsOwn(free0, cpu, stealCnt);
      PushStolen(cpu, ret, s.taken);
      PopLast(s.taken);
      assert free[cpu] == Rev(s.taken);
      pa := free[cpu][0];
      free := free[cpu := free[cpu][1..]];
    }

    /** The loop of kalloc that pushes st_ret[cpu][0..ret) on cpu's list
        in that order, stopping early at a null entry; the entries are the
        pages T, none of them null, so all of them are pushed. */
    method PushStolen(cpu: nat, ret: nat, ghost T: seq<nat>)
      requires cpu < |free| && cpu < stRet.Length0 && |T| == ret <= stRet.Length1
      requires forall k | 0 <= k < ret :: stRet[cpu, k] == T[k] && T[k] != 0
      modifies this
      ensures free == old(free)[cpu := Rev(T) + old(free[cpu])]
    {
      var i := 0;
      assert Rev(T[..0]) + free[cpu] == free[cpu];
      assert free[cpu := free[cpu]] == free;
      while i < ret
        invariant i <= ret && free == old(free)[cpu := Rev(T[..i]) + old(free[cpu])]
      {
        if stRet[cpu, i] == 0 {
          break;
        }
        assert T[..i + 1] == T[..i] + [T[i]];
        RevSnoc(T[..i], T[i]);
        assert [T[i]] + (Rev(T[..i]) + old(free[cpu])) == Rev(T[..i + 1]) + old(free[cpu]);
        free := free[cpu := [stRet[cpu, i]] + free[cpu]];
        i := i + 1;
      }
      assert T[..ret] == T;
    }
  }
}
