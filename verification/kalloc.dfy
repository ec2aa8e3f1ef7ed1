/** The physical page allocator: one free list per CPU, each with a count of
    its pages, and stealing of pages from other CPUs when the local list runs
    low. The lists are sequences of frame addresses, head first. Locks and
    interrupts are left out, each operation is atomic, and the CPU executing
    it is a parameter. */
module Kalloc {
  import opened Outcomes
  import opened Riscv
  import opened Bags

  /** CPUs, hence free lists. */
  const NCPU: nat := 8
  /** The local count stealing tops up to. */
  const STEAL_MAX: nat := 16
  /** The first address past physical memory: KERNBASE + 128 MiB. */
  const PHYSTOP: nat := 0x8000_0000 + 128 * 1024 * 1024

  /** One CPU's free list and its count of free pages. */
  datatype Pool = Pool(freelist: seq<nat>, amountFree: int)

  /** The pools of all CPUs, indexed by CPU id. */
  type Kmem = seq<Pool>

  function FreeLists(k: Kmem): (ls: seq<seq<nat>>)
    ensures |ls| == |k| && forall i :: 0 <= i < |k| ==> ls[i] == k[i].freelist
  {
    seq(|k|, i requires 0 <= i < |k| => k[i].freelist)
  }

  /** Every free frame of every CPU, with multiplicity. */
  function AllFree(k: Kmem): multiset<nat>
  {
    Union(FreeLists(k))
  }

  /** Each count equals the length of its list. */
  predicate Counted(k: Kmem)
  {
    forall i :: 0 <= i < |k| ==> k[i].amountFree == |k[i].freelist|
  }

  /** A frame kfree accepts: page aligned, past the kernel image, below PHYSTOP. */
  predicate ValidFrame(pa: nat, kernelEnd: nat)
  {
    Aligned(pa) && kernelEnd <= pa < PHYSTOP
  }

  /** The allocator invariant: one pool per CPU, counts match the lists, every
      free frame is one kfree accepts, and no frame is free twice. */
  predicate Valid(k: Kmem, kernelEnd: nat)
  {
    && |k| == NCPU
    && Counted(k)
    && 0 < kernelEnd
    && (forall p | p in AllFree(k) :: ValidFrame(p, kernelEnd))
    && NoDup(AllFree(k))
  }

  /** Replacing one pool changes the free frames by exactly the difference of the lists. */
  lemma AllFreeUpdate(k: Kmem, i: nat, p: Pool)
    requires i < |k|
    ensures AllFree(k[i := p]) + multiset(k[i].freelist) == AllFree(k) + multiset(p.freelist)
  {
    assert FreeLists(k[i := p]) == FreeLists(k)[i := p.freelist];
    UnionUpdate(FreeLists(k), i, p.freelist);
  }

  /** Pushing frames on the front of one list adds exactly those frames. */
  lemma AllFreePush(k: Kmem, i: nat, xs: seq<nat>, c: int)
    requires i < |k|
    ensures AllFree(k[i := Pool(xs + k[i].freelist, c)]) == AllFree(k) + multiset(xs)
  {
    var p := Pool(xs + k[i].freelist, c);
    AllFreeUpdate(k, i, p);
    assert multiset(p.freelist) == multiset(xs) + multiset(k[i].freelist);
    Cancel(AllFree(k[i := p]), AllFree(k) + multiset(xs), multiset(k[i].freelist));
  }

  /** Dropping the first n frames of one list removes exactly those frames. */
  lemma AllFreeDrop(k: Kmem, i: nat, n: nat, c: int)
    requires i < |k| && n <= |k[i].freelist|
    ensures AllFree(k[i := Pool(k[i].freelist[n..], c)]) + multiset(k[i].freelist[..n]) == AllFree(k)
  {
    var fs := k[i].freelist;
    var p := Pool(fs[n..], c);
    AllFreeUpdate(k, i, p);
    assert fs == fs[..n] + fs[n..];
    assert multiset(fs) == multiset(fs[..n]) + multiset(fs[n..]);
    Cancel(AllFree(k[i := p]) + multiset(fs[..n]), AllFree(k), multiset(fs[n..]));
  }

  lemma InAllFree(k: Kmem, i: nat, x: nat)
    requires i < |k| && x in k[i].freelist
    ensures x in AllFree(k)
  {
    InUnion(FreeLists(k), i, x);
  }

  // ---------------------------------------------------------------------------
  // kfree

  /** kfree on CPU `cpu`: reject a frame that is unaligned, inside the kernel
      image or past PHYSTOP; otherwise push it on the head of the local list. */
  function KFree(k: Kmem, kernelEnd: nat, cpu: nat, pa: nat): (r: Outcome<Kmem>)
    requires cpu < |k|
    ensures r.Panic? <==> !ValidFrame(pa, kernelEnd)
    ensures r.Done? ==> |r.value| == |k|
    ensures r.Done? ==> r.value[cpu].freelist == [pa] + k[cpu].freelist
    ensures r.Done? ==> r.value[cpu].amountFree == k[cpu].amountFree + 1
    ensures r.Done? ==> forall j :: 0 <= j < |k| && j != cpu ==> r.value[j] == k[j]
    ensures r.Done? ==> AllFree(r.value) == AllFree(k) + multiset{pa}
  {
    if pa % PGSIZE != 0 || pa < kernelEnd || pa >= PHYSTOP then Panic("kfree")
    else
      AllFreePush(k, cpu, [pa], k[cpu].amountFree + 1);
      Done(k[cpu := Pool([pa] + k[cpu].freelist, k[cpu].amountFree + 1)])
  }

  /** Freeing a frame that is not already free keeps the allocator valid. */
  lemma KFreePreservesValid(k: Kmem, kernelEnd: nat, cpu: nat, pa: nat)
    requires Valid(k, kernelEnd) && cpu < NCPU
    requires KFree(k, kernelEnd, cpu, pa).Done? && pa !in AllFree(k)
    ensures Valid(KFree(k, kernelEnd, cpu, pa).value, kernelEnd)
  {
    var m := AllFree(KFree(k, kernelEnd, cpu, pa).value);
    forall x | x in m
      ensures m[x] <= 1
    {
      if x != pa {
        assert m[x] == AllFree(k)[x];
      }
    }
  }

  /** kfree does not detect a double free: freeing a frame that is already
      free puts it in the free lists twice. */
  lemma DoubleFreeDuplicates(k: Kmem, kernelEnd: nat, cpu: nat, pa: nat)
    requires Valid(k, kernelEnd) && cpu < NCPU && pa in AllFree(k)
    ensures KFree(k, kernelEnd, cpu, pa).Done?
    ensures !NoDup(AllFree(KFree(k, kernelEnd, cpu, pa).value))
  {
    var m := AllFree(KFree(k, kernelEnd, cpu, pa).value);
    assert m[pa] == AllFree(k)[pa] + 1;
  }

  // ---------------------------------------------------------------------------
  // freerange

  /** The pages freerange visits from lo: lo, lo + PGSIZE, ... while a whole
      page fits below end. */
  function Pages(lo: nat, end: nat): seq<nat>
    decreases end - lo
  {
    if lo + PGSIZE <= end then [lo] + Pages(lo + PGSIZE, end) else []
  }

  /** From an aligned start, the pages visited are exactly the aligned pages
      at or above it that end at or below end. */
  lemma {:induction false} PagesExactly(lo: nat, end: nat)
    requires Aligned(lo)
    decreases end - lo
    ensures forall p: nat :: p in Pages(lo, end) <==> Aligned(p) && lo <= p && p + PGSIZE <= end
  {
    PagesApart(lo);
    if lo + PGSIZE <= end {
      PagesExactly(lo + PGSIZE, end);
    }
  }

  /** The pages are visited in strictly increasing order. */
  lemma {:induction false} PagesIncrease(lo: nat, end: nat)
    decreases end - lo
    ensures forall i, j :: 0 <= i < j < |Pages(lo, end)| ==> Pages(lo, end)[i] < Pages(lo, end)[j]
    ensures forall i :: 0 <= i < |Pages(lo, end)| ==> lo <= Pages(lo, end)[i]
  {
    if lo + PGSIZE <= end {
      PagesIncrease(lo + PGSIZE, end);
    }
  }

  /** The elements of s, last first. */
  function Reverse<T>(s: seq<T>): (r: seq<T>)
    ensures |r| == |s| && multiset(r) == multiset(s)
  {
    if |s| == 0 then [] else
      assert s == s[..|s| - 1] + [s[|s| - 1]];
      [s[|s| - 1]] + Reverse(s[..|s| - 1])
  }

  /** One page further into the walk. */
  lemma PagesStep(lo: nat, end: nat, done: seq<nat>, p: nat)
    requires Pages(lo, end) == done + Pages(p, end) && p + PGSIZE <= end
    ensures p in Pages(lo, end)
    ensures Pages(lo, end) == (done + [p]) + Pages(p + PGSIZE, end)
  {
    assert Pages(p, end) == [p] + Pages(p + PGSIZE, end);
  }

  /** What freerange has done once it has freed the pages in `done`. */
  ghost predicate FreedSoFar(k: Kmem, cur: Kmem, kernelEnd: nat, cpu: nat, done: seq<nat>)
    requires cpu < |k|
  {
    && (forall q :: q in done ==> ValidFrame(q, kernelEnd))
    && |cur| == |k|
    && cur[cpu].freelist == Reverse(done) + k[cpu].freelist
    && cur[cpu].amountFree == k[cpu].amountFree + |done|
    && (forall j :: 0 <= j < |k| && j != cpu ==> cur[j] == k[j])
  }

  /** One more kfree extends what freerange has done by one page. */
  lemma FreeStep(k: Kmem, cur: Kmem, kernelEnd: nat, cpu: nat, done: seq<nat>, p: nat)
    requires cpu < |k| && FreedSoFar(k, cur, kernelEnd, cpu, done)
    requires KFree(cur, kernelEnd, cpu, p).Done?
    ensures FreedSoFar(k, KFree(cur, kernelEnd, cpu, p).value, kernelEnd, cpu, done + [p])
  {
    assert (done + [p])[..|done|] == done;
  }

  /** The frames freed are exactly the frames added to the free lists. */
  lemma FreedAll(k: Kmem, cur: Kmem, kernelEnd: nat, cpu: nat, done: seq<nat>)
    requires cpu < |k| && FreedSoFar(k, cur, kernelEnd, cpu, done)
    ensures AllFree(cur) == AllFree(k) + multiset(done)
  {
    var p := Pool(Reverse(done) + k[cpu].freelist, k[cpu].amountFree + |done|);
    assert cur[cpu] == p;
    assert forall j :: 0 <= j < |k| ==> cur[j] == k[cpu := p][j];
    assert cur == k[cpu := p];
    AllFreePush(k, cpu, Reverse(done), p.amountFree);
  }

  /** freerange on CPU `cpu`: kfree every page from PGROUNDUP(start) up to
      end. Each freed page lands on the head of the local list, so the list
      ends up holding them in reverse order, in front of what it held. */
  method FreeRange(k: Kmem, kernelEnd: nat, cpu: nat, start: nat, end: nat) returns (r: Outcome<Kmem>)
    requires cpu < |k|
    ensures r.Done? <==> forall p :: p in Pages(PgRoundUp(start), end) ==> ValidFrame(p, kernelEnd)
    ensures r.Done? ==> |r.value| == |k|
    ensures r.Done? ==> r.value[cpu].freelist == Reverse(Pages(PgRoundUp(start), end)) + k[cpu].freelist
    ensures r.Done? ==> r.value[cpu].amountFree == k[cpu].amountFree + |Pages(PgRoundUp(start), end)|
    ensures r.Done? ==> forall j :: 0 <= j < |k| && j != cpu ==> r.value[j] == k[j]
  {
    var lo := PgRoundUp(start);
    var p := lo;
    var cur := k;
    ghost var done: seq<nat> := [];
    while p + PGSIZE <= end
      invariant Pages(lo, end) == done + Pages(p, end)
      invariant FreedSoFar(k, cur, kernelEnd, cpu, done)
      decreases end - p
    {
      PagesStep(lo, end, done, p);
      var next := KFree(cur, kernelEnd, cpu, p);
      if next.Panic? {
        return Panic(next.reason);
      }
      FreeStep(k, cur, kernelEnd, cpu, done, p);
      done := done + [p];
      cur := next.value;
      p := p + PGSIZE;
    }
    assert Pages(lo, end) == done;
    return Done(cur);
  }

  /** A sequence without repeated elements holds each element once. */
  lemma {:induction false} DistinctNoDup(s: seq<nat>)
    requires forall i, j :: 0 <= i < j < |s| ==> s[i] != s[j]
    ensures NoDup(multiset(s))
  {
    if |s| > 0 {
      DistinctNoDup(s[1..]);
      assert s == [s[0]] + s[1..];
      assert s[0] !in s[1..];
    }
  }

  /** kinit on CPU `cpu`: all pools empty, then freerange over
      [end, PHYSTOP). The result is a valid allocator whose free frames are
      exactly the whole pages between the kernel image and PHYSTOP. */
  method KInit(kernelEnd: nat, cpu: nat) returns (r: Outcome<Kmem>)
    requires 0 < kernelEnd && cpu < NCPU
    ensures r.Done?
    ensures Valid(r.value, kernelEnd)
    ensures forall p: nat :: p in AllFree(r.value) <==> Aligned(p) && kernelEnd <= p && p + PGSIZE <= PHYSTOP
  {
    var k0: Kmem := seq(NCPU, _ => Pool([], 0));
    UnionOfEmpties(FreeLists(k0));
    var lo := PgRoundUp(kernelEnd);
    PagesExactly(lo, PHYSTOP);
    PagesIncrease(lo, PHYSTOP);
    r := FreeRange(k0, kernelEnd, cpu, kernelEnd, PHYSTOP);
    FreedAll(k0, r.value, kernelEnd, cpu, Pages(lo, PHYSTOP));
    DistinctNoDup(Pages(lo, PHYSTOP));
    forall p
      ensures Aligned(p) && lo <= p <==> Aligned(p) && kernelEnd <= p
    {
      if Aligned(p) && kernelEnd <= p {
        assert lo <= p by {
          PagesApart(PgRoundDown(kernelEnd));
        }
      }
    }
  }

  // ---------------------------------------------------------------------------
  // steal_from, steal_memory

  /** steal_from(cur, s, n): the first n frames of s's list move, in order,
      to the front of cur's list. */
  function StealFrom(k: Kmem, cur: nat, s: nat, n: nat): (r: Kmem)
    requires cur < |k| && s < |k| && cur != s && n <= |k[s].freelist|
    ensures |r| == |k|
    ensures r[cur].freelist == k[s].freelist[..n] + k[cur].freelist
    ensures r[s].freelist == k[s].freelist[n..]
    ensures r[cur].amountFree == k[cur].amountFree + n && r[s].amountFree == k[s].amountFree - n
    ensures forall j :: 0 <= j < |k| && j != cur && j != s ==> r[j] == k[j]
    ensures n == 0 ==> r == k
  {
    if n == 0 then k
    else
      var fs := k[s].freelist;
      k[s := Pool(fs[n..], k[s].amountFree - n)][cur := Pool(fs[..n] + k[cur].freelist, k[cur].amountFree + n)]
  }

  /** Stealing moves frames between lists without creating, losing or
      duplicating any. */
  lemma StealFromConserves(k: Kmem, cur: nat, s: nat, n: nat)
    requires cur < |k| && s < |k| && cur != s && n <= |k[s].freelist|
    ensures AllFree(StealFrom(k, cur, s, n)) == AllFree(k)
  {
    if n > 0 {
      var fs := k[s].freelist;
      var k1 := k[s := Pool(fs[n..], k[s].amountFree - n)];
      assert k1[cur] == k[cur];
      var k2 := k1[cur := Pool(fs[..n] + k1[cur].freelist, k[cur].amountFree + n)];
      assert StealFrom(k, cur, s, n) == k2;
      assert AllFree(k1) + multiset(fs[..n]) == AllFree(k) by {
        AllFreeDrop(k, s, n, k[s].amountFree - n);
      }
      assert AllFree(k2) == AllFree(k1) + multiset(fs[..n]) by {
        AllFreePush(k1, cur, fs[..n], k[cur].amountFree + n);
      }
    }
  }

  /** s is a final segment of t. */
  predicate Suffix<T(==)>(s: seq<T>, t: seq<T>)
  {
    |s| <= |t| && s == t[|t| - |s|..]
  }

  /** The local side of steal_memory after visiting the CPUs below sc: the
      local list has grown at its front, to at most STEAL_MAX when it started
      below, and not at all when it did not. */
  ghost predicate LocalSoFar(k: Kmem, r: Kmem, cur: nat)
    requires |k| == NCPU && cur < NCPU
  {
    && |r| == NCPU && Counted(r)
    && (k[cur].amountFree >= STEAL_MAX ==> r == k)
    && (k[cur].amountFree < STEAL_MAX ==> r[cur].amountFree <= STEAL_MAX)
    && r[cur].amountFree >= k[cur].amountFree
    && Suffix(k[cur].freelist, r[cur].freelist)
  }

  /** The donor side of steal_memory after visiting the CPUs below sc: donors
      have lost a prefix of their lists, lower-numbered ones first, all of
      them emptied while the local count is still short, and CPUs from sc on
      are untouched. */
  ghost predicate DonorsSoFar(k: Kmem, r: Kmem, cur: nat, sc: nat)
    requires |k| == NCPU && cur < NCPU && |r| == NCPU
  {
    && sc <= NCPU
    && (r[cur].amountFree < STEAL_MAX ==> forall j :: 0 <= j < sc && j != cur ==> r[j].freelist == [])
    && (forall j :: sc <= j < NCPU && j != cur ==> r[j] == k[j])
    && (forall j :: 0 <= j < NCPU && j != cur ==> Suffix(r[j].freelist, k[j].freelist))
    && (forall i, j :: 0 <= i < j < NCPU && i != cur && j != cur && |r[j].freelist| < |k[j].freelist| ==>
          r[i].freelist == [])
  }

  /** The amount steal_memory takes from donor sc. */
  function StealAmount(r: Kmem, cur: nat, sc: nat): int
    requires cur < |r| && sc < |r|
  {
    if STEAL_MAX - r[cur].amountFree > r[sc].amountFree then r[sc].amountFree
    else STEAL_MAX - r[cur].amountFree
  }

  /** Visiting donor sc keeps the local side. */
  lemma StealStepLocal(k: Kmem, r: Kmem, cur: nat, sc: nat)
    requires |k| == NCPU && cur < NCPU && LocalSoFar(k, r, cur)
    requires sc < NCPU && sc != cur && r[cur].amountFree < STEAL_MAX
    ensures 0 <= StealAmount(r, cur, sc) <= |r[sc].freelist|
    ensures LocalSoFar(k, StealFrom(r, cur, sc, StealAmount(r, cur, sc)), cur)
  {
    assert r[sc].amountFree == |r[sc].freelist|;
    var r' := StealFrom(r, cur, sc, StealAmount(r, cur, sc));
    assert r'[cur].freelist[|r'[cur].freelist| - |k[cur].freelist|..] == r[cur].freelist[|r[cur].freelist| - |k[cur].freelist|..];
  }

  /** Visiting donor sc keeps the donor side. */
  lemma StealStepDonors(k: Kmem, r: Kmem, cur: nat, sc: nat)
    requires |k| == NCPU && cur < NCPU && |r| == NCPU && Counted(r) && DonorsSoFar(k, r, cur, sc)
    requires sc < NCPU && sc != cur && r[cur].amountFree < STEAL_MAX
    requires 0 <= StealAmount(r, cur, sc) <= |r[sc].freelist|
    ensures DonorsSoFar(k, StealFrom(r, cur, sc, StealAmount(r, cur, sc)), cur, sc + 1)
  {
    var amount := StealAmount(r, cur, sc);
    assert r[sc].amountFree == |r[sc].freelist| && r[sc] == k[sc];
    var r' := StealFrom(r, cur, sc, amount);
    assert Suffix(r'[sc].freelist, k[sc].freelist);
    assert amount < |k[sc].freelist| ==> r'[cur].amountFree == STEAL_MAX;
  }

  /** The frames stealing has put in front of the local list, counting CPUs
      below n: the prefix each donor lost, the highest-numbered donor's first,
      since each steal pushes its frames in front of the earlier ones. */
  function Front(k: Kmem, r: Kmem, cur: nat, n: nat): seq<nat>
    requires n <= |k| && |r| == |k|
  {
    if n == 0 then []
    else
      var j := n - 1;
      var taken := if j == cur || |r[j].freelist| > |k[j].freelist| then []
                   else k[j].freelist[..|k[j].freelist| - |r[j].freelist|];
      taken + Front(k, r, cur, j)
  }

  /** CPUs from n up that lost nothing add nothing to the front. */
  lemma {:induction false} FrontTail(k: Kmem, r: Kmem, cur: nat, n: nat, m: nat)
    requires n <= m <= |k| && |r| == |k|
    requires forall j :: n <= j < m && j != cur ==> r[j].freelist == k[j].freelist
    decreases m
    ensures Front(k, r, cur, m) == Front(k, r, cur, n)
  {
    if n < m {
      FrontTail(k, r, cur, n, m - 1);
      if m - 1 != cur {
        assert k[m - 1].freelist[..0] == [];
      }
    }
  }

  /** The front below n depends only on the donors' lists below n. */
  lemma {:induction false} FrontAgree(k: Kmem, r: Kmem, r': Kmem, cur: nat, n: nat)
    requires n <= |k| && |r| == |k| && |r'| == |k|
    requires forall j :: 0 <= j < n && j != cur ==> r'[j].freelist == r[j].freelist
    decreases n
    ensures Front(k, r', cur, n) == Front(k, r, cur, n)
  {
    if n > 0 {
      FrontAgree(k, r, r', cur, n - 1);
    }
  }

  /** Regrouping a list built by prepending onto a front and a tail. */
  lemma PrependRegroup(l: seq<nat>, taken: seq<nat>, front: seq<nat>, tail: seq<nat>, front': seq<nat>)
    requires l == taken + (front + tail) && front' == taken + front
    ensures l == front' + tail
  {
  }

  /** The local list is the stolen front followed by the frames it started with. */
  ghost predicate FrontSoFar(k: Kmem, r: Kmem, cur: nat)
    requires cur < |k| && |r| == |k|
  {
    r[cur].freelist == Front(k, r, cur, |k|) + k[cur].freelist
  }

  /** Taking amount frames from donor sc puts them in front of everything
      taken before; r' is the state after that steal. */
  lemma PrependStep(k: Kmem, r: Kmem, r': Kmem, cur: nat, sc: nat, amount: nat)
    requires |k| == NCPU && |r| == NCPU && |r'| == NCPU && cur < NCPU && sc < NCPU && sc != cur
    requires forall j :: sc <= j < NCPU && j != cur ==> r[j] == k[j]
    requires amount <= |r[sc].freelist|
    requires FrontSoFar(k, r, cur)
    requires r'[cur].freelist == r[sc].freelist[..amount] + r[cur].freelist
    requires r'[sc].freelist == r[sc].freelist[amount..]
    requires forall j :: 0 <= j < NCPU && j != cur && j != sc ==> r'[j] == r[j]
    ensures FrontSoFar(k, r', cur)
  {
    var taken := k[sc].freelist[..amount];
    var front := Front(k, r', cur, sc);
    assert Front(k, r, cur, |k|) == front by {
      FrontTail(k, r, cur, sc, |k|);
      FrontAgree(k, r, r', cur, sc);
    }
    assert Front(k, r', cur, |k|) == taken + front by {
      FrontTail(k, r', cur, sc + 1, |k|);
      assert r[sc] == k[sc];
      assert |r'[sc].freelist| == |k[sc].freelist| - amount;
    }
    assert r'[cur].freelist == taken + (front + k[cur].freelist) by {
      assert r[sc] == k[sc];
    }
    PrependRegroup(r'[cur].freelist, taken, front, k[cur].freelist, Front(k, r', cur, |k|));
  }

  /** Visiting donor sc keeps the local list as the stolen front followed by
      the frames it started with. */
  lemma StealStepFront(k: Kmem, r: Kmem, cur: nat, sc: nat)
    requires |k| == NCPU && cur < NCPU && |r| == NCPU && sc < NCPU && sc != cur
    requires forall j :: sc <= j < NCPU && j != cur ==> r[j] == k[j]
    requires 0 <= StealAmount(r, cur, sc) <= |r[sc].freelist|
    requires FrontSoFar(k, r, cur)
    ensures FrontSoFar(k, StealFrom(r, cur, sc, StealAmount(r, cur, sc)), cur)
  {
    var amount := StealAmount(r, cur, sc);
    PrependStep(k, r, StealFrom(r, cur, sc, amount), cur, sc, amount);
  }

  /** No CPU has a free frame. */
  predicate AllEmpty(k: Kmem)
  {
    forall j :: 0 <= j < |k| ==> k[j].freelist == []
  }

  /** With nothing free anywhere, visiting donor sc takes nothing. */
  lemma StealStepEmpty(k: Kmem, r: Kmem, cur: nat, sc: nat)
    requires |r| == NCPU && cur < NCPU && sc < NCPU && sc != cur
    requires 0 <= StealAmount(r, cur, sc) <= |r[sc].freelist|
    requires AllEmpty(k) ==> r == k
    ensures AllEmpty(k) ==> StealFrom(r, cur, sc, StealAmount(r, cur, sc)) == k
  {
    if AllEmpty(k) {
      assert r[sc].freelist == [];
    }
  }

  /** What steal_memory(cur) promises of the state r it leaves behind k. */
  ghost predicate Stolen(k: Kmem, cur: nat, r: Kmem)
    requires |k| == NCPU && cur < NCPU
  {
    && |r| == NCPU && Counted(r)
    // no frame is created, lost or duplicated
    && AllFree(r) == AllFree(k)
    && (k[cur].amountFree >= STEAL_MAX ==> r == k)
    // with nothing free anywhere, nothing changes
    && (AllEmpty(k) ==> r == k)
    // stealing never lifts the local count past STEAL_MAX, nor lowers it
    && (k[cur].amountFree < STEAL_MAX ==> r[cur].amountFree <= STEAL_MAX)
    && r[cur].amountFree >= k[cur].amountFree
    // stopping short of STEAL_MAX means every other CPU was emptied
    && (r[cur].amountFree < STEAL_MAX ==> forall j :: 0 <= j < NCPU && j != cur ==> r[j].freelist == [])
    // the stolen frames go in front of the local list; donors lose a prefix of theirs
    && FrontSoFar(k, r, cur)
    && Suffix(k[cur].freelist, r[cur].freelist)
    && (forall j :: 0 <= j < NCPU && j != cur ==> Suffix(r[j].freelist, k[j].freelist))
    // lower-numbered CPUs are drained before higher-numbered ones are touched
    && (forall i, j :: 0 <= i < j < NCPU && i != cur && j != cur && |r[j].freelist| < |k[j].freelist| ==>
          r[i].freelist == [])
  }

  /** The loop invariant of steal_memory after visiting the CPUs below sc. */
  ghost predicate StealInv(k: Kmem, r: Kmem, cur: nat, sc: nat)
    requires |k| == NCPU && cur < NCPU
  {
    && LocalSoFar(k, r, cur)
    && DonorsSoFar(k, r, cur, sc)
    && AllFree(r) == AllFree(k)
    && (AllEmpty(k) ==> r == k)
    && FrontSoFar(k, r, cur)
  }

  /** Visiting donor sc while the local count is short keeps the invariant. */
  lemma StealStep(k: Kmem, r: Kmem, cur: nat, sc: nat)
    requires |k| == NCPU && cur < NCPU && sc < NCPU && sc != cur
    requires StealInv(k, r, cur, sc) && r[cur].amountFree < STEAL_MAX
    ensures 0 <= StealAmount(r, cur, sc) <= |r[sc].freelist|
    ensures StealInv(k, StealFrom(r, cur, sc, StealAmount(r, cur, sc)), cur, sc + 1)
  {
    StealStepLocal(k, r, cur, sc);
    StealStepDonors(k, r, cur, sc);
    StealStepEmpty(k, r, cur, sc);
    StealStepFront(k, r, cur, sc);
    StealFromConserves(r, cur, sc, StealAmount(r, cur, sc));
  }

  /** Before any CPU is visited the invariant holds of the initial state. */
  lemma StealStart(k: Kmem, cur: nat)
    requires |k| == NCPU && cur < NCPU && Counted(k)
    ensures StealInv(k, k, cur, 0)
  {
    assert Suffix(k[cur].freelist, k[cur].freelist);
    assert forall j :: 0 <= j < NCPU && j != cur ==> Suffix(k[j].freelist, k[j].freelist);
    FrontTail(k, k, cur, 0, |k|);
  }

  /** Passing over the local CPU itself keeps the invariant. */
  lemma StealSkip(k: Kmem, r: Kmem, cur: nat)
    requires |k| == NCPU && cur < NCPU && StealInv(k, r, cur, cur)
    ensures StealInv(k, r, cur, cur + 1)
  {
  }

  /** The invariant, once the loop stops, is steal_memory's contract. */
  lemma StealDone(k: Kmem, r: Kmem, cur: nat, sc: nat)
    requires |k| == NCPU && cur < NCPU && StealInv(k, r, cur, sc)
    requires sc >= NCPU || r[cur].amountFree >= STEAL_MAX
    ensures Stolen(k, cur, r)
  {
  }

  /** steal_memory(cur): visit the other CPUs in order of id and take from
      each min(STEAL_MAX - local count, its count) frames, until the local
      count reaches STEAL_MAX. */
  method StealMemory(k: Kmem, cur: nat) returns (r: Kmem)
    requires |k| == NCPU && cur < NCPU && Counted(k)
    ensures Stolen(k, cur, r)
  {
    r := k;
    var sc := 0;
    StealStart(k, cur);
    while sc < NCPU && r[cur].amountFree < STEAL_MAX
      invariant StealInv(k, r, cur, sc)
      decreases NCPU - sc
    {
      if sc != cur {
        var amount := STEAL_MAX - r[cur].amountFree;
        if amount > r[sc].amountFree {
          amount := r[sc].amountFree;
        }
        StealStep(k, r, cur, sc);
        r := StealFrom(r, cur, sc, amount);
      } else {
        StealSkip(k, r, cur);
      }
      sc := sc + 1;
    }
    StealDone(k, r, cur, sc);
  }


  /** CPU 0 has nothing, CPU 1 holds frames a then b and every other CPU is
      empty: any state meeting steal_memory's contract has moved both frames
      to CPU 0, a still ahead of b. */
  lemma StolenKeepsDonorOrder(k: Kmem, r: Kmem, a: nat, b: nat)
    requires |k| == NCPU && k[0].freelist == [] && k[1].freelist == [a, b]
    requires forall j :: 2 <= j < NCPU ==> k[j].freelist == []
    requires Stolen(k, 0, r)
    ensures r[0].freelist == [a, b]
  {
    assert forall j :: 2 <= j < NCPU ==> Suffix(r[j].freelist, k[j].freelist);
    FrontTail(k, r, 0, 2, |k|);
    assert Suffix(r[1].freelist, k[1].freelist);
    var taken := k[1].freelist[..2 - |r[1].freelist|];
    assert Front(k, r, 0, 1) == [];
    assert Front(k, r, 0, 2) == taken + Front(k, r, 0, 1);
    assert r[0].freelist == taken + [];
    assert r[0].freelist == taken;
    assert r[0].amountFree < STEAL_MAX;
  }

  /** Stealing keeps the allocator valid. */
  lemma StealKeepsValid(k: Kmem, r: Kmem, kernelEnd: nat)
    requires Valid(k, kernelEnd) && |r| == NCPU && Counted(r) && AllFree(r) == AllFree(k)
    ensures Valid(r, kernelEnd)
  {
  }

  // ---------------------------------------------------------------------------
  // kalloc

  /** Take the head of CPU cur's list. */
  function Pop(k: Kmem, cur: nat): (res: (nat, Kmem))
    requires cur < |k| && k[cur].freelist != []
    ensures res.0 == k[cur].freelist[0]
    ensures |res.1| == |k| && res.1[cur].freelist == k[cur].freelist[1..]
    ensures res.1[cur].amountFree == k[cur].amountFree - 1
    ensures forall j :: 0 <= j < |k| && j != cur ==> res.1[j] == k[j]
    ensures AllFree(res.1) + multiset{res.0} == AllFree(k)
  {
    var fs := k[cur].freelist;
    AllFreeDrop(k, cur, 1, k[cur].amountFree - 1);
    assert fs[..1] == [fs[0]];
    (fs[0], k[cur := Pool(fs[1..], k[cur].amountFree - 1)])
  }

  /** With every list empty there is no free frame, and conversely. */
  lemma NoneFree(k: Kmem)
    ensures AllFree(k) == multiset{} <==> forall j :: 0 <= j < |k| ==> k[j].freelist == []
  {
    if forall j :: 0 <= j < |k| ==> k[j].freelist == [] {
      UnionOfEmpties(FreeLists(k));
    } else {
      var j :| 0 <= j < |k| && k[j].freelist != [];
      InAllFree(k, j, k[j].freelist[0]);
    }
  }

  /** The last step of kalloc on the state s left after any stealing: 0 and no
      change when the local list is empty, its head otherwise. */
  predicate Taken(s: Kmem, cur: nat, pa: nat, r: Kmem)
    requires cur < |s|
  {
    if s[cur].freelist == [] then pa == 0 && r == s else (pa, r) == Pop(s, cur)
  }

  /** A local list still empty after stealing means nothing was free at all,
      and stealing changed nothing. */
  lemma EmptyAfterSteal(k: Kmem, cur: nat, s: Kmem)
    requires |k| == NCPU && cur < NCPU && Stolen(k, cur, s) && s[cur].freelist == []
    ensures AllFree(k) == multiset{} && s == k
  {
    assert s[cur].amountFree == 0;
    NoneFree(s);
    NoneFree(k);
  }

  /** Taking from the state stealing left hands out one free frame of k, or
      0 exactly when k has none. */
  lemma TakenFrom(k: Kmem, cur: nat, s: Kmem, pa: nat, r: Kmem)
    requires |k| == NCPU && cur < NCPU && Stolen(k, cur, s) && Taken(s, cur, pa, r)
    ensures |r| == NCPU && Counted(r)
    ensures AllFree(k) == multiset{} ==> pa == 0 && r == k
    ensures AllFree(k) != multiset{} ==> pa in AllFree(k) && AllFree(r) + multiset{pa} == AllFree(k)
  {
    if s[cur].freelist == [] {
      EmptyAfterSteal(k, cur, s);
    } else {
      InAllFree(s, cur, s[cur].freelist[0]);
      forall j | 0 <= j < NCPU
        ensures r[j].amountFree == |r[j].freelist|
      {
        if j == cur {
          assert s[cur].amountFree == |s[cur].freelist|;
        } else {
          assert r[j] == s[j];
        }
      }
    }
  }

  /** With STEAL_MAX frames at hand, steal_memory would leave k as it is. */
  lemma NoSteal(k: Kmem, cur: nat)
    requires |k| == NCPU && cur < NCPU && Counted(k) && k[cur].amountFree >= STEAL_MAX
    ensures Stolen(k, cur, k)
  {
    assert Suffix(k[cur].freelist, k[cur].freelist);
    FrontTail(k, k, cur, 0, |k|);
    assert forall j :: 0 <= j < NCPU && j != cur ==> k[j].freelist[|k[j].freelist| - |k[j].freelist|..] == k[j].freelist;
  }

  /** kalloc on CPU `cur`: steal when the local count is below STEAL_MAX, then
      pop the head of the local list; 0 when it is still empty. */
  method KAlloc(k: Kmem, cur: nat) returns (pa: nat, r: Kmem)
    requires |k| == NCPU && cur < NCPU && Counted(k)
    ensures |r| == NCPU && Counted(r)
    // with no free frame anywhere, 0 and nothing changes
    ensures AllFree(k) == multiset{} ==> pa == 0 && r == k
    // otherwise one free frame is handed out and leaves the free lists
    ensures AllFree(k) != multiset{} ==> pa in AllFree(k) && AllFree(r) + multiset{pa} == AllFree(k)
    // below STEAL_MAX: steal first, then take from the local list
    ensures k[cur].amountFree < STEAL_MAX ==> exists s :: Stolen(k, cur, s) && Taken(s, cur, pa, r)
    // with enough local frames, the head of the local list, without stealing
    ensures k[cur].amountFree >= STEAL_MAX ==>
              && pa == k[cur].freelist[0]
              && r == k[cur := Pool(k[cur].freelist[1..], k[cur].amountFree - 1)]
  {
    var s := k;
    if k[cur].amountFree < STEAL_MAX {
      s := StealMemory(k, cur);
    } else {
      NoSteal(k, cur);
    }
    if s[cur].freelist == [] {
      pa, r := 0, s;
    } else {
      pa, r := Pop(s, cur).0, Pop(s, cur).1;
    }
    TakenFrom(k, cur, s, pa, r);
  }

  /** On a valid allocator kalloc returns 0 exactly when no frame is free, and a
      frame it returns is in no free list afterwards. */
  lemma KAllocFresh(k: Kmem, kernelEnd: nat, cur: nat, pa: nat, r: Kmem)
    requires Valid(k, kernelEnd) && cur < NCPU
    requires |r| == NCPU && Counted(r)
    requires AllFree(k) == multiset{} ==> pa == 0 && r == k
    requires AllFree(k) != multiset{} ==> pa in AllFree(k) && AllFree(r) + multiset{pa} == AllFree(k)
    ensures pa == 0 <==> AllFree(k) == multiset{}
    ensures pa != 0 ==> ValidFrame(pa, kernelEnd) && pa !in AllFree(r) && Valid(r, kernelEnd)
  {
    if AllFree(k) != multiset{} {
      assert AllFree(k)[pa] == AllFree(r)[pa] + 1;
      forall x | x in AllFree(r)
        ensures AllFree(r)[x] <= 1 && ValidFrame(x, kernelEnd)
      {
        assert AllFree(k)[x] >= AllFree(r)[x];
      }
    }
  }
}
