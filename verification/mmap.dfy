/** The per-process table of file-backed virtual memory areas (VMAs) of the
    xv6 mmap extension: mapping, edge-only unmapping, demand fault-in, the
    write-back sweep, and duplication / teardown at fork and exit.

    A process's table is a fixed-length sequence of slots; a slot is live when
    its length is non-zero. The page table is a map from page address to a
    leaf entry. Calls into the allocator and the file layer are not executed:
    the frame kalloc() handed out is a parameter, and the reads, write-backs
    and frees the code would issue are returned as records. */
module Mmap {
  import opened Outcomes
  import opened Riscv

  /** Slots per process. */
  const VMA_COUNT: nat := 16
  /** The ceiling below which mappings grow downwards (TRAPFRAME in Sv39). */
  const VMA_MAX: nat := 0x3F_FFFF_E000
  /** The floor no mapping may cross. */
  const VMA_MIN: nat := 0x20_0000_0000
  /** Open files per process. */
  const NOFILE: nat := 16

  const PROT_READ: bv32 := 1
  const PROT_WRITE: bv32 := 2
  const PROT_EXEC: bv32 := 4
  const MAP_SHARED: bv32 := 1
  const MAP_PRIVATE: bv32 := 2

  /** An open file: its access mode and the size of its inode. */
  datatype File = File(ino: nat, readable: bool, writable: bool, size: nat)

  /** One slot of the table: the region [addr, addr + len), its protection and
      flags, the file behind it, and the address that file offset 0 maps to. */
  datatype Vma = Vma(addr: nat, len: nat, prot: bv32, flags: bv32, file: Option<File>, fileBase: nat)
  {
    predicate Live()
    {
      len != 0
    }

    function End(): nat
    {
      addr + len
    }

    predicate Covers(a: nat)
    {
      Live() && addr <= a < End()
    }

    /** Whether dirty pages go back to the file on unmap. */
    predicate Shared()
    {
      flags & MAP_SHARED != 0
    }
  }

  /** A slot after memset(0). */
  const EmptyVma := Vma(0, 0, 0, 0, None, 0)

  predicate InRange(x: nat, lo: nat, hi: nat)
  {
    lo <= x < hi
  }

  predicate Disjoint(v: Vma, w: Vma)
  {
    v.End() <= w.addr || w.End() <= v.addr
  }

  /** A live slot has a file, maps no address below its file base, and lies
      between VMA_MIN and VMA_MAX. */
  predicate InBounds(v: Vma)
  {
    v.file.Some? && v.fileBase <= v.addr && VMA_MIN <= v.addr && v.End() <= VMA_MAX
  }

  /** The table invariant: empty slots are zeroed, live slots are in bounds,
      and no two live regions overlap. */
  predicate WellFormed(t: seq<Vma>)
  {
    && |t| == VMA_COUNT
    && (forall i :: 0 <= i < |t| && !t[i].Live() ==> t[i] == EmptyVma)
    && (forall i :: 0 <= i < |t| && t[i].Live() ==> InBounds(t[i]))
    && (forall i, j :: 0 <= i < |t| && 0 <= j < |t| && i != j && t[i].Live() && t[j].Live() ==> Disjoint(t[i], t[j]))
  }

  // ---------------------------------------------------------------------------
  // vma_map

  /** The lowest start of a live region, or VMA_MAX when no slot is live. */
  function MinUsed(t: seq<Vma>): (m: nat)
    ensures m <= VMA_MAX
    ensures forall i :: 0 <= i < |t| && t[i].Live() ==> m <= t[i].addr
    ensures m == VMA_MAX || exists i :: 0 <= i < |t| && t[i].Live() && t[i].addr == m
  {
    if |t| == 0 then VMA_MAX
    else
      var m := MinUsed(t[..|t| - 1]);
      var v := t[|t| - 1];
      if v.Live() && v.addr < m then v.addr else m
  }

  /** The last empty slot, or -1 when every slot is live. */
  function FreeSlot(t: seq<Vma>): (r: int)
    ensures -1 <= r < |t|
    ensures r == -1 <==> forall i :: 0 <= i < |t| ==> t[i].Live()
    ensures r != -1 ==> !t[r].Live() && forall j :: r < j < |t| ==> t[j].Live()
  {
    if |t| == 0 then -1
    else if !t[|t| - 1].Live() then |t| - 1
    else FreeSlot(t[..|t| - 1])
  }

  /** a is a page-aligned start at or above VMA_MIN for a region of len bytes
      that ends at or below m. */
  predicate RoomAt(a: nat, len: nat, m: nat)
  {
    Aligned(a) && VMA_MIN <= a && a + len <= m
  }

  /** Where vma_map puts a region of len bytes below minUsed: the highest
      aligned start that fits, or None when that start would cross VMA_MIN. */
  function Placement(minUsed: nat, len: nat): (r: Option<nat>)
    ensures r.Some? ==> RoomAt(r.value, len, minUsed) && minUsed < r.value + len + PGSIZE
    ensures r.None? ==> forall a :: !RoomAt(a, len, minUsed)
  {
    if len > minUsed then None
    else
      var a := PgRoundDown(minUsed - len);
      if a < VMA_MIN then
        assert forall b: nat :: RoomAt(b, len, minUsed) ==> b <= a by {
          forall b: nat | RoomAt(b, len, minUsed) {
            AlignedBelow(b, minUsed - len);
          }
        }
        None
      else Some(a)
  }

  /** The placement as the C computes it: `min_used - len` wraps around 2^64. */
  function PlacementAsWritten(minUsed: u64, len: u64): nat
  {
    PgRoundDown((minUsed - len) % U64)
  }

  /** A request longer than the space below VMA_MAX passes the VMA_MIN guard:
      the wrapped start lies far above VMA_MAX, where no region may be. */
  lemma PlacementAsWrittenWraps()
    ensures PlacementAsWritten(VMA_MAX, VMA_MAX + PGSIZE) == U64 - PGSIZE
    ensures PlacementAsWritten(VMA_MAX, VMA_MAX + PGSIZE) >= VMA_MIN
    ensures PlacementAsWritten(VMA_MAX, VMA_MAX + PGSIZE) > VMA_MAX
    ensures Placement(VMA_MAX, VMA_MAX + PGSIZE).None?
  {
    assert (VMA_MAX - (VMA_MAX + PGSIZE)) % U64 == U64 - PGSIZE;
  }

  /** Without wrap-around the two placements agree. */
  lemma PlacementAgrees(minUsed: u64, len: u64)
    requires len <= minUsed
    ensures Placement(minUsed, len).Some? <==> PlacementAsWritten(minUsed, len) >= VMA_MIN
    ensures Placement(minUsed, len).Some? ==> Placement(minUsed, len).value == PlacementAsWritten(minUsed, len)
  {
    assert (minUsed - len) % U64 == minUsed - len;
  }

  /** What vma_map returns on failure. */
  const MAP_FAILED: int := -1

  predicate ArgsOk(startAddr: nat, len: nat, offset: int)
  {
    startAddr == 0 && offset == 0 && len != 0 && len % PGSIZE == 0
  }

  /** The file's open mode allows the requested protection: reading needs a
      readable file, and writing through a shared mapping a writable one. */
  predicate Permits(f: File, prot: bv32, flags: bv32)
  {
    && (prot & PROT_READ != 0 ==> f.readable)
    && (prot & PROT_WRITE != 0 && flags & MAP_PRIVATE == 0 ==> f.writable)
  }

  /** The region vma_map records for a new mapping at a. */
  function NewVma(a: nat, len: nat, prot: bv32, flags: bv32, f: File): Vma
  {
    Vma(a, len, prot, flags, Some(f), a)
  }

  /** vma_map: validate the request, place it directly below the lowest live
      region, and record it in a free slot. Returns the address, or -1. */
  function VmaMap(t: seq<Vma>, ofile: seq<Option<File>>, startAddr: u64, len: u64,
                  prot: bv32, flags: bv32, fd: int, offset: int): (r: Outcome<(int, seq<Vma>)>)
    requires |t| == VMA_COUNT && |ofile| == NOFILE
    // rejected arguments leave the table untouched
    ensures !ArgsOk(startAddr, len, offset) ==> r == Done((MAP_FAILED, t))
    ensures r.Done? && r.value.0 == MAP_FAILED ==> r.value.1 == t
    // no room between VMA_MIN and the lowest live region is fatal
    ensures ArgsOk(startAddr, len, offset) && (forall a :: !RoomAt(a, len, MinUsed(t))) ==> r.Panic?
    ensures r.Panic? ==> ArgsOk(startAddr, len, offset)
    ensures r.Panic? && (exists a :: RoomAt(a, len, MinUsed(t))) ==>
              (exists i :: 0 <= i < |t| && !t[i].Live()) && 0 <= fd < NOFILE && ofile[fd].None?
    // resource and permission failures
    ensures r.Done? && (forall i :: 0 <= i < |t| ==> t[i].Live()) ==> r.value.0 == MAP_FAILED
    ensures r.Done? && !(0 <= fd < NOFILE) ==> r.value.0 == MAP_FAILED
    ensures r.Done? && 0 <= fd < NOFILE && ofile[fd].Some? && !Permits(ofile[fd].value, prot, flags) ==> r.value.0 == MAP_FAILED
    // success: one empty slot takes the region, directly below every live one
    ensures r.Done? && r.value.0 != MAP_FAILED ==>
              && 0 <= fd < NOFILE && ofile[fd].Some? && Permits(ofile[fd].value, prot, flags)
              && 0 <= r.value.0
              && var a: nat := r.value.0;
                 && RoomAt(a, len, MinUsed(t)) && MinUsed(t) < a + len + PGSIZE
                 && (forall j :: 0 <= j < |t| && t[j].Live() ==> a + len <= t[j].addr)
                 && exists i :: 0 <= i < |t| && !t[i].Live() &&
                      r.value.1 == t[i := NewVma(a, len, prot, flags, ofile[fd].value)]
    // and every request that passes all checks succeeds
    ensures ArgsOk(startAddr, len, offset) && (exists a :: RoomAt(a, len, MinUsed(t)))
            && (exists i :: 0 <= i < |t| && !t[i].Live())
            && 0 <= fd < NOFILE && ofile[fd].Some? && Permits(ofile[fd].value, prot, flags)
            ==> r.Done? && r.value.0 != MAP_FAILED
  {
    if startAddr % PGSIZE != 0 || len % PGSIZE != 0 || startAddr != 0 || offset != 0 || len == 0 then
      Done((MAP_FAILED, t))
    else
      var minUsed := MinUsed(t);
      var free := FreeSlot(t);
      match Placement(minUsed, len)
      case None => Panic("vma_map: no space to map")
      case Some(a) =>
        if free == -1 then Done((MAP_FAILED, t))
        else if fd >= NOFILE || fd < 0 then Done((MAP_FAILED, t))
        else if ofile[fd].None? then Panic("vma_map: empty file descriptor")
        else
          var f := ofile[fd].value;
          if !f.readable && prot & PROT_READ != 0 then Done((MAP_FAILED, t))
          else if flags & MAP_PRIVATE == 0 && !f.writable && prot & PROT_WRITE != 0 then Done((MAP_FAILED, t))
          else Done((a as int, t[free := NewVma(a, len, prot, flags, f)]))
  }

  /** A successful map keeps the table well formed; in particular the new
      region overlaps no live one. */
  lemma VmaMapPreservesWellFormed(t: seq<Vma>, ofile: seq<Option<File>>, startAddr: u64, len: u64,
                                  prot: bv32, flags: bv32, fd: int, offset: int)
    requires WellFormed(t) && |ofile| == NOFILE
    requires VmaMap(t, ofile, startAddr, len, prot, flags, fd, offset).Done?
    ensures WellFormed(VmaMap(t, ofile, startAddr, len, prot, flags, fd, offset).value.1)
  {
    var r := VmaMap(t, ofile, startAddr, len, prot, flags, fd, offset);
    if r.value.0 != MAP_FAILED {
      var a := r.value.0;
      var i :| 0 <= i < |t| && !t[i].Live() && r.value.1 == t[i := NewVma(a, len, prot, flags, ofile[fd].value)];
      var t' := r.value.1;
      forall j, k | 0 <= j < |t'| && 0 <= k < |t'| && j != k && t'[j].Live() && t'[k].Live()
        ensures Disjoint(t'[j], t'[k])
      {
        if j == i {
          assert a + len <= t[k].addr;
        } else if k == i {
          assert a + len <= t[j].addr;
        }
      }
    }
  }

  // ---------------------------------------------------------------------------
  // clamping of the bytes moved between a page and the file

  /** The number of bytes of the page at a that lie both below end and inside
      the file [base, base + fsize), at most one page: the length of the read
      at fault-in and of the write at write-back. */
  function Clamp(a: nat, end: nat, base: nat, fsize: nat): (n: nat)
    ensures n <= PGSIZE
    ensures n == 0 || (a + n <= end && a + n <= base + fsize)
    ensures n < PGSIZE ==> a + n >= end || a + n >= base + fsize
  {
    var lim := if base + fsize < end then base + fsize else end;
    if lim <= a then 0
    else if PGSIZE < lim - a then PGSIZE
    else lim - a
  }

  /** The same computation as the C writes it: `end - a` is unsigned, so a
      page that starts beyond the end of the file wraps to a huge size, which
      the PGSIZE cap then turns into a whole page. */
  function ClampAsWritten(a: u64, end: u64, base: u64, fsize: u64): nat
  {
    var lim := if base + fsize < end then base + fsize else end;
    var d := (lim - a) % U64;
    if PGSIZE < d then PGSIZE else d
  }

  /** A two-page mapping of a 100-byte file: faulting in the second page asks
      for a whole page at file offset 4096, all of it past the end of file. */
  lemma ClampAsWrittenPastEof()
    ensures var base := VMA_MIN;
            && ClampAsWritten(base + PGSIZE, base + 2 * PGSIZE, base, 100) == PGSIZE
            && (base + PGSIZE) - base > 100
            && Clamp(base + PGSIZE, base + 2 * PGSIZE, base, 100) == 0
  {
    var base := VMA_MIN;
    assert (base + 100 - (base + PGSIZE)) % U64 == U64 - PGSIZE + 100;
  }

  /** For pages that start inside the file the two computations agree. */
  lemma ClampAgrees(a: u64, end: u64, base: u64, fsize: u64)
    requires a <= base + fsize && a <= end
    ensures ClampAsWritten(a, end, base, fsize) == Clamp(a, end, base, fsize)
  {
    var lim := if base + fsize < end then base + fsize else end;
    assert (lim - a) % U64 == lim - a;
  }

  // ---------------------------------------------------------------------------
  // vma_unmap_range

  /** A write-back of `size` bytes from the frame to the file at `offset`. */
  datatype Write = Write(frame: nat, offset: nat, size: nat)

  /** What an unmap leaves: the new page table, the write-backs issued in
      order, and the frames handed to kfree in order. */
  datatype Effects = Effects(pt: PageTable, writes: seq<Write>, freed: seq<nat>)

  /** x is one of the pages the sweep from a to end visits. */
  predicate Swept(x: nat, a: nat, end: nat)
  {
    Aligned(x) && a <= x < end
  }

  /** The write-back of the dirty page at x, whose region maps file offset 0 at base. */
  function WriteOf(p: Pte, x: nat, base: nat, end: nat, fsize: nat): Write
    requires base <= x
  {
    Write(p.Pa(), x - base, Clamp(x, end, base, fsize))
  }

  /** No entry is an interior (non-leaf) page-table entry. */
  predicate NoNonLeaf(pt: PageTable)
  {
    forall x :: x in pt ==> pt[x].flags != PTE_V
  }

  /** The loop of vma_unmap_range from page a up to end: skip absent and
      invalid entries, write back dirty pages when asked, free every valid
      page and zero its entry. */
  function UnmapPages(pt: PageTable, base: nat, a: nat, end: nat, writeback: bool, fsize: nat): (r: Outcome<Effects>)
    requires Aligned(a) && base <= a
    decreases if a < end then end - a else 0
    ensures r.Panic? <==> exists x :: x in pt && Swept(x, a, end) && pt[x].flags == PTE_V
    ensures r.Done? ==> r.value.pt.Keys == pt.Keys
    ensures r.Done? ==> forall x :: x in pt && !(Swept(x, a, end) && pt[x].Valid()) ==> r.value.pt[x] == pt[x]
    ensures r.Done? ==> forall x :: x in pt && Swept(x, a, end) && pt[x].Valid() ==> r.value.pt[x] == ZeroPte
  {
    PagesApart(a);
    if end <= a then Done(Effects(pt, [], []))
    else if a !in pt || !pt[a].Valid() then UnmapPages(pt, base, a + PGSIZE, end, writeback, fsize)
    else if pt[a].flags == PTE_V then Panic("vma_unmap_range: not a leaf")
    else
      var w := if writeback && pt[a].Dirty() then [WriteOf(pt[a], a, base, end, fsize)] else [];
      var pt' := pt[a := ZeroPte];
      assert forall x :: x in pt && Swept(x, a, end) && x != a ==> Swept(x, a + PGSIZE, end) && x in pt' && pt'[x] == pt[x];
      match UnmapPages(pt', base, a + PGSIZE, end, writeback, fsize)
      case Panic(m) => Panic(m)
      case Done(e) => Done(Effects(e.pt, w + e.writes, [pt[a].Pa()] + e.freed))
  }

  /** The sweep steps over an absent or invalid entry. */
  lemma UnmapPagesSkip(pt: PageTable, base: nat, a: nat, end: nat, writeback: bool, fsize: nat)
    requires Aligned(a) && base <= a && a < end && (a !in pt || !pt[a].Valid())
    ensures Aligned(a + PGSIZE)
    ensures UnmapPages(pt, base, a, end, writeback, fsize) == UnmapPages(pt, base, a + PGSIZE, end, writeback, fsize)
  {
    PagesApart(a);
  }

  /** The sweep unmaps a valid leaf entry, frees its frame and writes it back
      when asked and dirty, then goes on from the next page. */
  lemma UnmapPagesTake(pt: PageTable, base: nat, a: nat, end: nat, writeback: bool, fsize: nat)
    requires Aligned(a) && base <= a && a < end && a in pt && pt[a].Valid()
    requires UnmapPages(pt, base, a, end, writeback, fsize).Done?
    ensures Aligned(a + PGSIZE) && UnmapPages(pt[a := ZeroPte], base, a + PGSIZE, end, writeback, fsize).Done?
    ensures var e := UnmapPages(pt[a := ZeroPte], base, a + PGSIZE, end, writeback, fsize).value;
            var w := if writeback && pt[a].Dirty() then [WriteOf(pt[a], a, base, end, fsize)] else [];
            UnmapPages(pt, base, a, end, writeback, fsize).value == Effects(e.pt, w + e.writes, [pt[a].Pa()] + e.freed)
  {
    PagesApart(a);
  }

  /** The frames the sweep frees are exactly those of the valid entries it visits. */
  lemma UnmapPagesFrees(pt: PageTable, base: nat, a: nat, end: nat, writeback: bool, fsize: nat)
    requires Aligned(a) && base <= a
    requires UnmapPages(pt, base, a, end, writeback, fsize).Done?
    ensures var e := UnmapPages(pt, base, a, end, writeback, fsize).value;
            && (forall x :: x in pt && Swept(x, a, end) && pt[x].Valid() ==> pt[x].Pa() in e.freed)
            && (forall f :: f in e.freed ==> exists x :: x in pt && Swept(x, a, end) && pt[x].Valid() && pt[x].Pa() == f)
  {
    UnmapPagesFreesAll(pt, base, a, end, writeback, fsize);
    UnmapPagesFreesOnly(pt, base, a, end, writeback, fsize);
  }

  lemma {:induction false} UnmapPagesFreesAll(pt: PageTable, base: nat, a: nat, end: nat, writeback: bool, fsize: nat)
    requires Aligned(a) && base <= a
    requires UnmapPages(pt, base, a, end, writeback, fsize).Done?
    decreases if a < end then end - a else 0
    ensures var e := UnmapPages(pt, base, a, end, writeback, fsize).value;
            forall x :: x in pt && Swept(x, a, end) && pt[x].Valid() ==> pt[x].Pa() in e.freed
  {
    if end <= a {
    } else if a !in pt || !pt[a].Valid() {
      UnmapPagesSkip(pt, base, a, end, writeback, fsize);
      UnmapPagesFreesAll(pt, base, a + PGSIZE, end, writeback, fsize);
      var e := UnmapPages(pt, base, a + PGSIZE, end, writeback, fsize).value;
      forall x | x in pt && Swept(x, a, end) && pt[x].Valid()
        ensures pt[x].Pa() in e.freed
      {
        assert Swept(x, a + PGSIZE, end);
      }
    } else {
      var pt' := pt[a := ZeroPte];
      UnmapPagesTake(pt, base, a, end, writeback, fsize);
      UnmapPagesFreesAll(pt', base, a + PGSIZE, end, writeback, fsize);
      var e := UnmapPages(pt', base, a + PGSIZE, end, writeback, fsize).value;
      FreedNarrow(pt, a, end, pt', e.freed);
    }
  }

  /** Every frame the rest of the sweep owes, and page a's, are freed. */
  lemma FreedNarrow(pt: PageTable, a: nat, end: nat, pt': PageTable, freed: seq<nat>)
    requires Aligned(a) && a in pt && pt' == pt[a := ZeroPte]
    requires forall x :: x in pt' && Swept(x, a + PGSIZE, end) && pt'[x].Valid() ==> pt'[x].Pa() in freed
    ensures forall x :: x in pt && Swept(x, a, end) && pt[x].Valid() ==> pt[x].Pa() in [pt[a].Pa()] + freed
  {
    PagesApart(a);
    forall x | x in pt && Swept(x, a, end) && pt[x].Valid()
      ensures pt[x].Pa() in [pt[a].Pa()] + freed
    {
      if x != a {
        assert Swept(x, a + PGSIZE, end) && x in pt' && pt'[x] == pt[x];
      }
    }
  }

  lemma {:induction false} UnmapPagesFreesOnly(pt: PageTable, base: nat, a: nat, end: nat, writeback: bool, fsize: nat)
    requires Aligned(a) && base <= a
    requires UnmapPages(pt, base, a, end, writeback, fsize).Done?
    decreases if a < end then end - a else 0
    ensures var e := UnmapPages(pt, base, a, end, writeback, fsize).value;
            forall f :: f in e.freed ==> exists x :: x in pt && Swept(x, a, end) && pt[x].Valid() && pt[x].Pa() == f
  {
    if end <= a {
    } else if a !in pt || !pt[a].Valid() {
      UnmapPagesSkip(pt, base, a, end, writeback, fsize);
      UnmapPagesFreesOnly(pt, base, a + PGSIZE, end, writeback, fsize);
    } else {
      var pt' := pt[a := ZeroPte];
      UnmapPagesTake(pt, base, a, end, writeback, fsize);
      UnmapPagesFreesOnly(pt', base, a + PGSIZE, end, writeback, fsize);
      var e := UnmapPages(pt', base, a + PGSIZE, end, writeback, fsize).value;
      FreedWiden(pt, a, end, pt', e.freed);
    }
  }

  /** A frame freed further along the sweep is one of the original table's. */
  lemma FreedWiden(pt: PageTable, a: nat, end: nat, pt': PageTable, freed: seq<nat>)
    requires pt' == pt[a := ZeroPte]
    requires forall f :: f in freed ==> exists x :: x in pt' && Swept(x, a + PGSIZE, end) && pt'[x].Valid() && pt'[x].Pa() == f
    ensures forall f :: f in freed ==> exists x :: x in pt && Swept(x, a, end) && pt[x].Valid() && pt[x].Pa() == f
  {
    forall f | f in freed
      ensures exists x :: x in pt && Swept(x, a, end) && pt[x].Valid() && pt[x].Pa() == f
    {
      var x :| x in pt' && Swept(x, a + PGSIZE, end) && pt'[x].Valid() && pt'[x].Pa() == f;
      assert x in pt && Swept(x, a, end) && pt[x].Valid() && pt[x].Pa() == f;
    }
  }

  /** With write-back on, the sweep writes back exactly the dirty valid pages
      it visits; with it off, nothing. */
  lemma UnmapPagesWrites(pt: PageTable, base: nat, a: nat, end: nat, writeback: bool, fsize: nat)
    requires Aligned(a) && base <= a
    requires UnmapPages(pt, base, a, end, writeback, fsize).Done?
    ensures var e := UnmapPages(pt, base, a, end, writeback, fsize).value;
            && (forall x :: x in pt && Swept(x, a, end) && pt[x].Valid() && pt[x].Dirty() && writeback ==>
                  WriteOf(pt[x], x, base, end, fsize) in e.writes)
            && (forall w :: w in e.writes ==>
                  writeback && exists x :: x in pt && Swept(x, a, end) && pt[x].Valid() && pt[x].Dirty() &&
                                           w == WriteOf(pt[x], x, base, end, fsize))
  {
    UnmapPagesWritesAll(pt, base, a, end, writeback, fsize);
    UnmapPagesWritesOnly(pt, base, a, end, writeback, fsize);
  }

  lemma {:induction false} UnmapPagesWritesAll(pt: PageTable, base: nat, a: nat, end: nat, writeback: bool, fsize: nat)
    requires Aligned(a) && base <= a
    requires UnmapPages(pt, base, a, end, writeback, fsize).Done?
    decreases if a < end then end - a else 0
    ensures var e := UnmapPages(pt, base, a, end, writeback, fsize).value;
            forall x :: x in pt && Swept(x, a, end) && pt[x].Valid() && pt[x].Dirty() && writeback ==>
              WriteOf(pt[x], x, base, end, fsize) in e.writes
  {
    if end <= a {
    } else if a !in pt || !pt[a].Valid() {
      UnmapPagesSkip(pt, base, a, end, writeback, fsize);
      UnmapPagesWritesAll(pt, base, a + PGSIZE, end, writeback, fsize);
      var e := UnmapPages(pt, base, a + PGSIZE, end, writeback, fsize).value;
      forall x | x in pt && Swept(x, a, end) && pt[x].Valid() && pt[x].Dirty() && writeback
        ensures WriteOf(pt[x], x, base, end, fsize) in e.writes
      {
        assert Swept(x, a + PGSIZE, end);
      }
    } else {
      var pt' := pt[a := ZeroPte];
      UnmapPagesTake(pt, base, a, end, writeback, fsize);
      UnmapPagesWritesAll(pt', base, a + PGSIZE, end, writeback, fsize);
      var e := UnmapPages(pt', base, a + PGSIZE, end, writeback, fsize).value;
      WritesNarrow(pt, base, a, end, writeback, fsize, pt', e.writes);
    }
  }

  /** Every dirty page the rest of the sweep owes a write-back, and page a, are written back. */
  lemma WritesNarrow(pt: PageTable, base: nat, a: nat, end: nat, writeback: bool, fsize: nat, pt': PageTable, writes: seq<Write>)
    requires Aligned(a) && base <= a && a in pt && pt' == pt[a := ZeroPte]
    requires forall x :: x in pt' && Swept(x, a + PGSIZE, end) && pt'[x].Valid() && pt'[x].Dirty() && writeback ==>
               WriteOf(pt'[x], x, base, end, fsize) in writes
    ensures var w0 := if writeback && pt[a].Dirty() then [WriteOf(pt[a], a, base, end, fsize)] else [];
            forall x :: x in pt && Swept(x, a, end) && pt[x].Valid() && pt[x].Dirty() && writeback ==>
              WriteOf(pt[x], x, base, end, fsize) in w0 + writes
  {
    PagesApart(a);
    var w0 := if writeback && pt[a].Dirty() then [WriteOf(pt[a], a, base, end, fsize)] else [];
    forall x | x in pt && Swept(x, a, end) && pt[x].Valid() && pt[x].Dirty() && writeback
      ensures WriteOf(pt[x], x, base, end, fsize) in w0 + writes
    {
      if x != a {
        assert Swept(x, a + PGSIZE, end) && x in pt' && pt'[x] == pt[x];
      }
    }
  }

  lemma {:induction false} UnmapPagesWritesOnly(pt: PageTable, base: nat, a: nat, end: nat, writeback: bool, fsize: nat)
    requires Aligned(a) && base <= a
    requires UnmapPages(pt, base, a, end, writeback, fsize).Done?
    decreases if a < end then end - a else 0
    ensures var e := UnmapPages(pt, base, a, end, writeback, fsize).value;
            forall w :: w in e.writes ==>
              writeback && exists x :: x in pt && Swept(x, a, end) && pt[x].Valid() && pt[x].Dirty() &&
                                       w == WriteOf(pt[x], x, base, end, fsize)
  {
    if end <= a {
    } else if a !in pt || !pt[a].Valid() {
      UnmapPagesSkip(pt, base, a, end, writeback, fsize);
      UnmapPagesWritesOnly(pt, base, a + PGSIZE, end, writeback, fsize);
    } else {
      var pt' := pt[a := ZeroPte];
      UnmapPagesTake(pt, base, a, end, writeback, fsize);
      UnmapPagesWritesOnly(pt', base, a + PGSIZE, end, writeback, fsize);
      var e := UnmapPages(pt', base, a + PGSIZE, end, writeback, fsize).value;
      WritesWiden(pt, base, a, end, writeback, fsize, pt', e.writes);
    }
  }

  /** A write-back made further along the sweep is one of the original table's. */
  lemma WritesWiden(pt: PageTable, base: nat, a: nat, end: nat, writeback: bool, fsize: nat, pt': PageTable, writes: seq<Write>)
    requires base <= a && pt' == pt[a := ZeroPte]
    requires forall w :: w in writes ==>
               writeback && exists x :: x in pt' && Swept(x, a + PGSIZE, end) && pt'[x].Valid() && pt'[x].Dirty() &&
                                        w == WriteOf(pt'[x], x, base, end, fsize)
    ensures forall w :: w in writes ==>
              writeback && exists x :: x in pt && Swept(x, a, end) && pt[x].Valid() && pt[x].Dirty() &&
                                       w == WriteOf(pt[x], x, base, end, fsize)
  {
    forall w | w in writes
      ensures writeback && exists x :: x in pt && Swept(x, a, end) && pt[x].Valid() && pt[x].Dirty() &&
                                       w == WriteOf(pt[x], x, base, end, fsize)
    {
      var x :| x in pt' && Swept(x, a + PGSIZE, end) && pt'[x].Valid() && pt'[x].Dirty() &&
               w == WriteOf(pt'[x], x, base, end, fsize);
      assert x in pt && Swept(x, a, end) && pt[x] == pt'[x];
    }
  }

  /** No page in [a, end) is mapped. */
  predicate Untouched(pt: PageTable, a: nat, end: nat)
  {
    forall x :: x in pt && InRange(x, a, end) ==> !pt[x].Valid()
  }

  /** A sweep over pages none of which is mapped changes nothing and issues
      no write-back and no free. */
  lemma {:induction false} UnmapPagesNothing(pt: PageTable, base: nat, a: nat, end: nat, writeback: bool, fsize: nat)
    requires Aligned(a) && base <= a
    requires Untouched(pt, a, end)
    decreases if a < end then end - a else 0
    ensures UnmapPages(pt, base, a, end, writeback, fsize) == Done(Effects(pt, [], []))
  {
    if a < end {
      UnmapPagesNothing(pt, base, a + PGSIZE, end, writeback, fsize);
    }
  }

  /** vma_unmap_range: an unaligned start is fatal; otherwise the sweep above
      over [va, va + len). */
  function VmaUnmapRange(pt: PageTable, base: nat, va: nat, len: nat, writeback: bool, fsize: nat): (r: Outcome<Effects>)
    requires base <= va
    ensures !Aligned(va) ==> r.Panic?
    ensures Aligned(va) ==> r == UnmapPages(pt, base, va, va + len, writeback, fsize)
  {
    if va % PGSIZE != 0 then Panic("vma_unmap: not aligned")
    else UnmapPages(pt, base, va, va + len, writeback, fsize)
  }

  // ---------------------------------------------------------------------------
  // vma_unmap

  /** The intersection test of vma_unmap: slot v is live and meets [start, reqEnd). */
  predicate Meets(v: Vma, start: nat, reqEnd: nat)
  {
    v.Live() && start < v.End() && v.addr < reqEnd
  }

  /** The indices of the slots that meet the request, in ascending order. */
  function Hits(t: seq<Vma>, start: nat, reqEnd: nat): (hs: seq<nat>)
    ensures forall k :: 0 <= k < |hs| ==> hs[k] < |t| && Meets(t[hs[k]], start, reqEnd)
    ensures forall i :: 0 <= i < |t| && Meets(t[i], start, reqEnd) ==> i in hs
    ensures forall k, l :: 0 <= k < l < |hs| ==> hs[k] < hs[l]
  {
    if |t| == 0 then []
    else
      var hs := Hits(t[..|t| - 1], start, reqEnd);
      if Meets(t[|t| - 1], start, reqEnd) then hs + [|t| - 1] else hs
  }

  /** The new (addr, len) of the region hit by munmap(start, len), as the C
      computes it: `len - len` is unsigned and wraps. */
  function TrimAsWritten(v: Vma, start: nat, len: nat, reqEnd: nat): Option<(nat, nat)>
  {
    if start == v.addr then Some((v.addr + len, (v.len - len) % U64))
    else if reqEnd == v.End() then Some((v.addr, (v.len - len) % U64))
    else None
  }

  /** Unmapping two pages from the start of a one-page region: the region
      survives with a length just below 2^64 instead of being removed. */
  lemma TrimAsWrittenWraps()
    ensures var v := NewVma(VMA_MAX - PGSIZE, PGSIZE, PROT_READ, MAP_SHARED, File(0, true, true, 0));
            && TrimAsWritten(v, v.addr, 2 * PGSIZE, v.addr + 2 * PGSIZE) == Some((VMA_MAX + PGSIZE, U64 - PGSIZE))
            && Trim(v, v.addr, 2 * PGSIZE, v.addr + 2 * PGSIZE).None?
  {
    assert (PGSIZE - 2 * PGSIZE) % U64 == U64 - PGSIZE;
  }

  /** The part of region v that survives munmap(start, len) when the request
      lies inside v and touches one of its edges; None otherwise. */
  function Trim(v: Vma, start: nat, len: nat, reqEnd: nat): (r: Option<(nat, nat)>)
    requires v.End() < U64 && start < U64 && len < U64 && reqEnd == (start + len) % U64
    ensures r.Some? ==> reqEnd == start + len && v.addr <= start && start + len <= v.End()
    ensures r.Some? ==> r.value.0 == v.addr || r.value.0 + r.value.1 == v.End()
    ensures r.Some? ==> forall x :: InRange(x, r.value.0, r.value.0 + r.value.1) <==>
                                    InRange(x, v.addr, v.End()) && !InRange(x, start, start + len)
    ensures r.None? <==> len > v.len || (start != v.addr && reqEnd != v.End())
  {
    if len > v.len then None
    else if start == v.addr then Some((v.addr + len, v.len - len))
    else if reqEnd == v.End() then Some((v.addr, v.len - len))
    else None
  }

  /** When the request does not run past the region the two agree. */
  lemma TrimAgrees(v: Vma, start: u64, len: u64, reqEnd: nat)
    requires v.End() < U64 && reqEnd == (start + len) % U64 && len <= v.len
    ensures TrimAsWritten(v, start, len, reqEnd) == Trim(v, start, len, reqEnd)
  {
    assert (v.len - len) % U64 == v.len - len;
  }

  /** The slot that replaces v once [start, start + len) is cut from it:
      the zeroed slot when nothing remains. */
  function Shrink(v: Vma, na: nat, nl: nat): Vma
  {
    if nl == 0 then EmptyVma else v.(addr := na, len := nl)
  }


  /** w is what remains of region v once [start, start + len) is cut from one
      of its edges: the same region over the remaining addresses, or the zeroed
      slot when nothing remains. */
  ghost predicate CutFrom(v: Vma, w: Vma, start: nat, len: nat)
  {
    && v.addr <= start && start + len <= v.End()
    && (start == v.addr || start + len == v.End())
    && (forall x :: InRange(x, w.addr, w.End()) <==> InRange(x, v.addr, v.End()) && !InRange(x, start, start + len))
    && (w.Live() ==> w == v.(addr := w.addr, len := w.len))
    && (!w.Live() ==> w == EmptyVma)
  }

  lemma CutInside(v: Vma, w: Vma, start: nat, len: nat)
    requires CutFrom(v, w, start, len) && w.Live()
    ensures v.addr <= w.addr && w.End() <= v.End()
  {
    assert InRange(w.addr, w.addr, w.End());
    assert InRange(w.End() - 1, w.addr, w.End());
  }

  /** The slot of the one live region that meets [start, reqEnd): Panic when
      two do, None when none does. */
  function SoleHit(t: seq<Vma>, start: nat, reqEnd: nat): (r: Outcome<Option<nat>>)
    ensures r.Panic? <==> exists i, j :: 0 <= i < j < |t| && Meets(t[i], start, reqEnd) && Meets(t[j], start, reqEnd)
    ensures r == Done(None) <==> forall i :: 0 <= i < |t| ==> !Meets(t[i], start, reqEnd)
    ensures r.Done? && r.value.Some? ==>
              && r.value.value < |t| && Meets(t[r.value.value], start, reqEnd)
              && forall j :: 0 <= j < |t| && Meets(t[j], start, reqEnd) ==> j == r.value.value
  {
    var hs := Hits(t, start, reqEnd);
    if |hs| >= 2 then
      assert Meets(t[hs[0]], start, reqEnd) && Meets(t[hs[1]], start, reqEnd);
      Panic("vma_unmap: intersecting mappings")
    else if |hs| == 0 then Done(None)
    else
      assert forall j :: 0 <= j < |t| && Meets(t[j], start, reqEnd) ==> j == hs[0];
      Done(Some(hs[0]))
  }

  /** What Trim leaves of a region is an edge cut of it. */
  lemma TrimCuts(v: Vma, start: nat, len: nat, reqEnd: nat)
    requires v.End() < U64 && start < U64 && len < U64 && reqEnd == (start + len) % U64
    requires v.Live() && Trim(v, start, len, reqEnd).Some?
    ensures var (na, nl) := Trim(v, start, len, reqEnd).value;
            CutFrom(v, Shrink(v, na, nl), start, len)
  {
    var (na, nl) := Trim(v, start, len, reqEnd).value;
    var w := Shrink(v, na, nl);
    assert reqEnd == start + len && len <= v.len;
    assert nl == v.len - len;
    assert start == v.addr ==> na == start + len;
    assert start != v.addr ==> start + len == v.End() && na == v.addr;
    forall x
      ensures InRange(x, w.addr, w.End()) <==> InRange(x, v.addr, v.End()) && !InRange(x, start, start + len)
    {
      if nl == 0 {
        assert w.addr == 0 && w.End() == 0;
      } else {
        assert w.addr == na && w.End() == na + nl;
      }
    }
  }

  /** The table half of vma_unmap for a non-empty request: Panic when two
      live regions meet it, None when none does or when the one it meets would
      lose an interior range or more than its length, and otherwise the slot
      and what remains of its region. */
  function UnmapPlan(t: seq<Vma>, start: u64, len: u64): (r: Outcome<Option<(nat, Vma)>>)
    requires WellFormed(t) && len != 0
    ensures r.Panic? <==> exists i, j :: 0 <= i < j < |t| && Meets(t[i], start, (start + len) % U64) &&
                                         Meets(t[j], start, (start + len) % U64)
    ensures (forall i :: 0 <= i < |t| ==> !Meets(t[i], start, (start + len) % U64)) ==> r == Done(None)
    ensures forall i :: 0 <= i < |t| && r.Done? && Meets(t[i], start, (start + len) % U64) ==>
              (r.value.None? <==> len > t[i].len || (start != t[i].addr && (start + len) % U64 != t[i].End()))
    ensures r.Done? && r.value.Some? ==>
              && r.value.value.0 < |t|
              && Meets(t[r.value.value.0], start, start + len)
              && CutFrom(t[r.value.value.0], r.value.value.1, start, len)
  {
    var reqEnd := (start + len) % U64;
    match SoleHit(t, start, reqEnd)
    case Panic(m) => Panic(m)
    case Done(None) => Done(None)
    case Done(Some(i)) =>
      var v := t[i];
      match Trim(v, start, len, reqEnd)
      case None => Done(None)
      case Some((na, nl)) =>
        TrimCuts(v, start, len, reqEnd);
        Done(Some((i, Shrink(v, na, nl))))
  }

  /** vma_unmap: find the one live region the request meets, cut the request
      from one of its edges, and unmap the pages of the request. */
  function VmaUnmap(t: seq<Vma>, pt: PageTable, start: u64, len: u64): (r: Outcome<(int, seq<Vma>, Effects)>)
    requires WellFormed(t)
    ensures len == 0 ==> r == Done((0, t, Effects(pt, [], [])))
    ensures r.Done? ==> |r.value.1| == |t|
    ensures r.Done? && r.value.0 == -1 ==> r.value.1 == t && r.value.2 == Effects(pt, [], [])
    // nothing to unmap
    ensures len != 0 && (forall i :: 0 <= i < |t| ==> !Meets(t[i], start, (start + len) % U64)) ==>
              r == Done((-1, t, Effects(pt, [], [])))
    // two regions meeting one request means the table was corrupt
    ensures (len != 0 && exists i, j :: 0 <= i < j < |t| && Meets(t[i], start, (start + len) % U64) &&
                                         Meets(t[j], start, (start + len) % U64)) ==> r.Panic?
    // requests that carve out the interior, or run past the region, are refused
    ensures forall i :: 0 <= i < |t| && r.Done? && len != 0 && Meets(t[i], start, (start + len) % U64) &&
                        (len > t[i].len || (start != t[i].addr && (start + len) % U64 != t[i].End())) ==>
                        r.value.0 == -1
    // success: the region hit loses exactly the requested range from one edge,
    // and the pages of the request are unmapped
    ensures r.Done? ==> r.value.0 == 0 || r.value.0 == -1
    ensures r.Done? && r.value.0 == 0 && len != 0 ==>
              exists i :: && 0 <= i < |t| && Meets(t[i], start, start + len)
                          && r.value.1 == t[i := r.value.1[i]]
                          && CutFrom(t[i], r.value.1[i], start, len)
                          && VmaUnmapRange(pt, t[i].fileBase, start, len, t[i].Shared(), t[i].file.value.size) == Done(r.value.2)
  {
    if len == 0 then Done((0, t, Effects(pt, [], [])))
    else
      match UnmapPlan(t, start, len)
      case Panic(m) => Panic(m)
      case Done(None) => Done((-1, t, Effects(pt, [], [])))
      case Done(Some((i, w))) =>
        var v := t[i];
        match VmaUnmapRange(pt, v.fileBase, start, len, v.Shared(), v.file.value.size)
        case Panic(m) => Panic(m)
        case Done(e) =>
          assert t[i := w][i] == w;
          Done((0, t[i := w], e))
  }

  /** A request for exactly a live region meets that region alone. */
  lemma WholeHit(t: seq<Vma>, i: nat)
    requires WellFormed(t) && i < |t| && t[i].Live()
    ensures (t[i].addr + t[i].len) % U64 == t[i].End()
    ensures SoleHit(t, t[i].addr, t[i].End()) == Done(Some(i))
  {
    assert forall j :: 0 <= j < |t| && Meets(t[j], t[i].addr, t[i].End()) ==> j == i;
  }

  /** A request for exactly a live region removes it, slot and all. */
  lemma WholePlan(t: seq<Vma>, i: nat)
    requires WellFormed(t) && i < |t| && t[i].Live()
    ensures t[i].addr < U64 && t[i].len < U64
    ensures UnmapPlan(t, t[i].addr, t[i].len) == Done(Some((i, EmptyVma)))
  {
    WholeHit(t, i);
    assert Trim(t[i], t[i].addr, t[i].len, t[i].End()) == Some((t[i].End(), 0));
  }

  /** Unmapping the whole of a live, page-aligned region none of whose pages
      is mapped empties its slot and has no effect on memory. */
  lemma UnmapWholeRegion(t: seq<Vma>, i: nat, pt: PageTable)
    requires WellFormed(t) && i < |t| && t[i].Live() && Aligned(t[i].addr)
    requires Untouched(pt, t[i].addr, t[i].End())
    ensures t[i].addr < U64 && t[i].len < U64
    ensures VmaUnmap(t, pt, t[i].addr, t[i].len) == Done((0, t[i := EmptyVma], Effects(pt, [], [])))
  {
    var v := t[i];
    WholePlan(t, i);
    UnmapPagesNothing(pt, v.fileBase, v.addr, v.End(), v.Shared(), v.file.value.size);
  }

  /** Unmapping a region just mapped, before any of its pages was touched,
      succeeds, restores the table, and has no effect on memory. */
  lemma MapThenUnmap(t: seq<Vma>, ofile: seq<Option<File>>, len: u64, prot: bv32, flags: bv32, fd: int, pt: PageTable)
    requires WellFormed(t) && |ofile| == NOFILE
    requires VmaMap(t, ofile, 0, len, prot, flags, fd, 0).Done?
    requires VmaMap(t, ofile, 0, len, prot, flags, fd, 0).value.0 != MAP_FAILED
    requires Untouched(pt, VmaMap(t, ofile, 0, len, prot, flags, fd, 0).value.0,
                       VmaMap(t, ofile, 0, len, prot, flags, fd, 0).value.0 + len)
    ensures var (a, t') := VmaMap(t, ofile, 0, len, prot, flags, fd, 0).value;
            && 0 <= a < U64 && WellFormed(t')
            && VmaUnmap(t', pt, a as nat, len) == Done((0, t, Effects(pt, [], [])))
  {
    var i := MappedSlot(t, ofile, len, prot, flags, fd);
    var t' := VmaMap(t, ofile, 0, len, prot, flags, fd, 0).value.1;
    UnmapWholeRegion(t', i, pt);
  }

  /** The slot a successful map fills, which was empty before. */
  lemma MappedSlot(t: seq<Vma>, ofile: seq<Option<File>>, len: u64, prot: bv32, flags: bv32, fd: int) returns (i: nat)
    requires WellFormed(t) && |ofile| == NOFILE
    requires VmaMap(t, ofile, 0, len, prot, flags, fd, 0).Done?
    requires VmaMap(t, ofile, 0, len, prot, flags, fd, 0).value.0 != MAP_FAILED
    ensures var (a, t') := VmaMap(t, ofile, 0, len, prot, flags, fd, 0).value;
            && i < |t| && t[i] == EmptyVma && WellFormed(t') && t'[i].Live()
            && t'[i].addr == a && t'[i].len == len && Aligned(a) && t'[i := EmptyVma] == t
  {
    var (a, t') := VmaMap(t, ofile, 0, len, prot, flags, fd, 0).value;
    VmaMapPreservesWellFormed(t, ofile, 0, len, prot, flags, fd, 0);
    i :| 0 <= i < |t| && !t[i].Live() && t' == t[i := NewVma(a, len, prot, flags, ofile[fd].value)];
    assert t'[i := EmptyVma] == t;
  }

  /** A successful unmap keeps the table well formed. */
  lemma VmaUnmapPreservesWellFormed(t: seq<Vma>, pt: PageTable, start: u64, len: u64)
    requires WellFormed(t)
    requires VmaUnmap(t, pt, start, len).Done?
    ensures WellFormed(VmaUnmap(t, pt, start, len).value.1)
  {
    var r := VmaUnmap(t, pt, start, len);
    if r.value.0 == 0 && len != 0 {
      var i :| 0 <= i < |t| && Meets(t[i], start, start + len) && r.value.1 == t[i := r.value.1[i]] && CutFrom(t[i], r.value.1[i], start, len);
      CutPreservesWellFormed(t, i, r.value.1[i], start, len);
    }
  }

  /** Replacing a live region by what remains of it after an edge cut keeps
      the table well formed. */
  lemma CutPreservesWellFormed(t: seq<Vma>, i: nat, w: Vma, start: nat, len: nat)
    requires WellFormed(t) && i < |t| && t[i].Live() && CutFrom(t[i], w, start, len)
    ensures WellFormed(t[i := w])
  {
    if w.Live() {
      CutInside(t[i], w, start, len);
      var t' := t[i := w];
      forall j, k | 0 <= j < |t'| && 0 <= k < |t'| && j != k && t'[j].Live() && t'[k].Live()
        ensures Disjoint(t'[j], t'[k])
      {
        assert Disjoint(t[j], t[k]);
      }
    }
  }

  // ---------------------------------------------------------------------------
  // vma_access

  /** The first live slot from i on that covers address a, or -1. */
  function FirstCovering(t: seq<Vma>, a: nat, i: nat): (r: int)
    requires i <= |t|
    decreases |t| - i
    ensures r == -1 ==> forall j :: i <= j < |t| ==> !t[j].Covers(a)
    ensures r != -1 ==> i <= r < |t| && t[r].Covers(a)
  {
    if i == |t| then -1
    else if t[i].Covers(a) then i
    else FirstCovering(t, a, i + 1)
  }

  /** In a well-formed table at most one live region covers an address. */
  lemma CoverUnique(t: seq<Vma>, a: nat, i: nat)
    requires WellFormed(t) && i < |t| && t[i].Covers(a)
    ensures forall j :: 0 <= j < |t| && t[j].Covers(a) ==> j == i
  {
  }

  /** The flags vma_access installs: valid, user, and prot shifted onto R/W/X.
      The model keeps these ten flag bits apart from the page number; the
      bits of `prot << 1` above them, which the C code ORs into the page
      number, are dropped. */
  function Perm(prot: bv32): (f: PteFlags)
    ensures f & PTE_V != 0 && f & PTE_U != 0
    ensures (f & PTE_R != 0) <==> (prot & PROT_READ != 0)
    ensures (f & PTE_W != 0) <==> (prot & PROT_WRITE != 0)
    ensures (f & PTE_X != 0) <==> (prot & PROT_EXEC != 0)
    ensures f & PTE_D == 0 <== prot & 64 == 0
  {
    (((prot << 1) & 0x3FF) as bv10) | PTE_V | PTE_U
  }

  /** A read of `size` bytes at file `offset` into the frame; the remaining
      PGSIZE - size bytes of the frame are zero-filled. */
  datatype PageIn = PageIn(frame: nat, offset: nat, size: nat)
  {
    function ZeroFilled(): nat
      requires size <= PGSIZE
    {
      PGSIZE - size
    }
  }

  /** The fault of kind `kind` on page `page` of live region v: refused when
      v's protection lacks the access or no frame was available, fatal when the
      page is already mapped, and otherwise the page is mapped to the frame
      with v's protection and filled from the file. */
  function FaultIn(v: Vma, pt: PageTable, page: nat, kind: bv32, frame: nat): (r: Outcome<(int, PageTable, Option<PageIn>)>)
    requires v.Covers(page) && InBounds(v) && Aligned(frame)
    ensures v.prot & kind == 0 || frame == 0 ==> r == Done((-1, pt, None))
    ensures r.Panic? <==> v.prot & kind != 0 && frame != 0 && page in pt && pt[page].Valid()
    ensures r.Done? ==> r.value.0 == 0 || r == Done((-1, pt, None))
    ensures r.Done? && r.value.0 == 0 ==>
              && v.prot & kind != 0 && frame != 0
              && r.value.1 == pt[page := MakePte(frame, Perm(v.prot))]
              && r.value.2 == Some(PageIn(frame, page - v.fileBase, Clamp(page, v.End(), v.fileBase, v.file.value.size)))
  {
    if v.prot & kind == 0 then Done((-1, pt, None))
    else if frame == 0 then Done((-1, pt, None))
    else if page in pt && pt[page].Valid() then Panic("mappages: remap")
    else
      var f := v.file.value;
      Done((0, pt[page := MakePte(frame, Perm(v.prot))],
            Some(PageIn(frame, page - v.fileBase, Clamp(page, v.End(), v.fileBase, f.size)))))
  }

  /** vma_access: service a fault of kind `kind` (1 read, 2 write) at addr.
      `frame` is what kalloc() returned, 0 when memory ran out. */
  function VmaAccess(t: seq<Vma>, pt: PageTable, addr: u64, kind: bv32, frame: nat): (r: Outcome<(int, PageTable, Option<PageIn>)>)
    requires WellFormed(t)
    requires Aligned(frame)
    // no covering region, a forbidden access, or no memory: -1 and nothing changes
    ensures (forall i :: 0 <= i < |t| ==> !t[i].Covers(PgRoundDown(addr))) ==> r == Done((-1, pt, None))
    ensures frame == 0 ==> r == Done((-1, pt, None))
    ensures r.Done? && r.value.0 == -1 ==> r.value.1 == pt && r.value.2 == None
    ensures r.Done? ==> r.value.0 == 0 || r.value.0 == -1
    // the fault is served by whichever region covers the page
    ensures forall i :: 0 <= i < |t| && t[i].Covers(PgRoundDown(addr)) ==>
              r == FaultIn(t[i], pt, PgRoundDown(addr), kind, frame)
  {
    var page := PgRoundDown(addr);
    var i := FirstCovering(t, page, 0);
    if i == -1 then Done((-1, pt, None))
    else
      CoverUnique(t, page, i);
      FaultIn(t[i], pt, page, kind, frame)
  }

  /** After a successful fault the page is mapped to the frame with the
      region's permissions and nothing else in the table changes; the read it
      asks for starts at the page's file offset, stays within the region and,
      when it reads anything, within the file, and stops short of a whole page
      only at the end of one or the other. */
  lemma FaultMapsPage(v: Vma, pt: PageTable, page: nat, kind: bv32, frame: nat)
    requires v.Covers(page) && InBounds(v) && Aligned(frame)
    requires FaultIn(v, pt, page, kind, frame).Done? && FaultIn(v, pt, page, kind, frame).value.0 == 0
    ensures var pt' := FaultIn(v, pt, page, kind, frame).value.1;
            && pt'.Keys == pt.Keys + {page}
            && pt'[page].Valid() && pt'[page].Pa() == frame && pt'[page].flags != PTE_V
            && (pt'[page].flags & PTE_R != 0 <==> v.prot & PROT_READ != 0)
            && (pt'[page].flags & PTE_W != 0 <==> v.prot & PROT_WRITE != 0)
            && forall x :: x in pt && x != page ==> pt'[x] == pt[x]
    ensures var pi := FaultIn(v, pt, page, kind, frame).value.2;
            var fsize := v.file.value.size;
            && pi.Some? && pi.value.frame == frame && v.fileBase + pi.value.offset == page
            && pi.value.size <= PGSIZE && page + pi.value.size <= v.End()
            && (pi.value.size == 0 <==> pi.value.offset >= fsize)
            && (pi.value.size > 0 ==> pi.value.offset + pi.value.size <= fsize)
            && (pi.value.size < PGSIZE ==> page + pi.value.size == v.End() || pi.value.offset + pi.value.size >= fsize)
  {
  }

  /** Faulting the same page again, with an access the region allows and a
      frame to spare, hits the remap panic. */
  lemma FaultTwicePanics(v: Vma, pt: PageTable, page: nat, kind: bv32, frame: nat, kind2: bv32, frame2: nat)
    requires v.Covers(page) && InBounds(v) && Aligned(frame) && Aligned(frame2)
    requires FaultIn(v, pt, page, kind, frame).Done? && FaultIn(v, pt, page, kind, frame).value.0 == 0
    requires v.prot & kind2 != 0 && frame2 != 0
    ensures FaultIn(v, FaultIn(v, pt, page, kind, frame).value.1, page, kind2, frame2).Panic?
  {
    FaultMapsPage(v, pt, page, kind, frame);
  }

  /** vma_access twice on the same page with the same kind of access: once
      the first fault succeeded, the second one panics. */
  lemma AccessTwicePanics(t: seq<Vma>, pt: PageTable, addr: u64, kind: bv32, frame: nat, addr2: u64, frame2: nat)
    requires WellFormed(t) && Aligned(frame) && Aligned(frame2) && frame2 != 0
    requires VmaAccess(t, pt, addr, kind, frame).Done? && VmaAccess(t, pt, addr, kind, frame).value.0 == 0
    requires PgRoundDown(addr2) == PgRoundDown(addr)
    ensures VmaAccess(t, VmaAccess(t, pt, addr, kind, frame).value.1, addr2, kind, frame2).Panic?
  {
    var page := PgRoundDown(addr);
    assert exists i :: 0 <= i < |t| && t[i].Covers(page);
    var i :| 0 <= i < |t| && t[i].Covers(page);
    FaultTwicePanics(t[i], pt, page, kind, frame, kind, frame2);
  }

  /** A region none of whose pages was mapped, after one fault: unmapping it
      clears exactly the faulted page, frees exactly its frame, and writes it
      back exactly when the region is shared and the page dirty. */
  lemma FaultThenUnmap(v: Vma, pt: PageTable, page: nat, kind: bv32, frame: nat)
    requires v.Covers(page) && InBounds(v) && Aligned(frame) && Aligned(page) && Aligned(v.addr)
    requires Untouched(pt, v.addr, v.End())
    requires FaultIn(v, pt, page, kind, frame).Done? && FaultIn(v, pt, page, kind, frame).value.0 == 0
    ensures var pt' := FaultIn(v, pt, page, kind, frame).value.1;
            var r := UnmapPages(pt', v.fileBase, v.addr, v.End(), v.Shared(), v.file.value.size);
            && r.Done?
            && r.value.pt == pt'[page := ZeroPte]
            && (forall f :: f in r.value.freed <==> f == frame)
            && (forall w :: w in r.value.writes <==>
                  v.Shared() && pt'[page].Dirty() && w == WriteOf(pt'[page], page, v.fileBase, v.End(), v.file.value.size))
  {
    FaultMapsPage(v, pt, page, kind, frame);
    var pt' := FaultIn(v, pt, page, kind, frame).value.1;
    var fsize := v.file.value.size;
    forall x | x in pt' && Swept(x, v.addr, v.End()) && x != page
      ensures !pt'[x].Valid()
    {
      assert InRange(x, v.addr, v.End());
    }
    var r := UnmapPages(pt', v.fileBase, v.addr, v.End(), v.Shared(), fsize);
    assert Swept(page, v.addr, v.End());
    assert r.Done?;
    UnmapPagesFrees(pt', v.fileBase, v.addr, v.End(), v.Shared(), fsize);
    UnmapPagesWrites(pt', v.fileBase, v.addr, v.End(), v.Shared(), fsize);
    assert r.value.pt == pt'[page := ZeroPte];
  }

  // ---------------------------------------------------------------------------
  // vma_copy, vma_free, vma_init

  /** The copy loop of vma_copy from slot i on. */
  function CopyFrom(parent: seq<Vma>, child: seq<Vma>, i: nat): (r: Outcome<seq<Vma>>)
    requires |parent| == |child| && i <= |child|
    decreases |child| - i
    ensures r.Panic? <==> exists j :: i <= j < |child| && child[j].Live()
    ensures r.Done? ==> |r.value| == |child|
    ensures r.Done? ==> forall j :: 0 <= j < |child| ==>
              r.value[j] == (if i <= j && parent[j].Live() then parent[j] else child[j])
  {
    if i == |child| then Done(child)
    else if child[i].Live() then Panic("vma_copy: copying into unempty slot")
    else CopyFrom(parent, if parent[i].Live() then child[i := parent[i]] else child, i + 1)
  }

  /** vma_copy: at fork, every live slot of the parent goes verbatim into the
      same slot of the child, whose slots must all be empty. */
  function VmaCopy(parent: seq<Vma>, child: seq<Vma>): (r: Outcome<seq<Vma>>)
    requires |parent| == VMA_COUNT && |child| == VMA_COUNT
    ensures r.Panic? <==> exists j :: 0 <= j < |child| && child[j].Live()
    ensures r.Done? ==> |r.value| == VMA_COUNT
    ensures r.Done? ==> forall j :: 0 <= j < |child| ==> r.value[j] == (if parent[j].Live() then parent[j] else child[j])
  {
    CopyFrom(parent, child, 0)
  }

  /** Forking a process with a well-formed table into an empty one yields an
      identical table. */
  lemma VmaCopyClones(parent: seq<Vma>, child: seq<Vma>)
    requires WellFormed(parent) && |child| == VMA_COUNT
    requires forall j :: 0 <= j < |child| ==> child[j] == EmptyVma
    ensures VmaCopy(parent, child) == Done(parent)
  {
    var r := VmaCopy(parent, child);
    assert r.Done?;
    assert r.value == parent;
  }

  /** pt' is pt with the valid pages of the live regions from slot i on
      unmapped and every other entry as it was. */
  ghost predicate TornDown(t: seq<Vma>, i: nat, pt: PageTable, pt': PageTable)
  {
    && pt'.Keys == pt.Keys
    && (forall x :: x in pt && (forall j :: i <= j < |t| && t[j].Live() ==> !Swept(x, t[j].addr, t[j].End())) ==>
          pt'[x] == pt[x])
    && (forall x, j :: i <= j < |t| && t[j].Live() && x in pt && Swept(x, t[j].addr, t[j].End()) ==>
          !pt'[x].Valid())
    && (forall x :: x in pt && !pt[x].Valid() ==> pt'[x] == pt[x])
  }

  /** A sweep zeroes only valid entries, so it leaves no non-leaf entry behind. */
  lemma SweepKeepsLeaves(pt: PageTable, a: nat, end: nat, mid: PageTable)
    requires mid.Keys == pt.Keys
    requires forall x :: x in pt && !(Swept(x, a, end) && pt[x].Valid()) ==> mid[x] == pt[x]
    requires forall x :: x in pt && Swept(x, a, end) && pt[x].Valid() ==> mid[x] == ZeroPte
    ensures NoNonLeaf(pt) ==> NoNonLeaf(mid)
  {
    forall x | NoNonLeaf(pt) && x in mid
      ensures mid[x].flags != PTE_V
    {
      if Swept(x, a, end) && pt[x].Valid() {
        assert mid[x] == ZeroPte;
      }
    }
  }

  /** Sweeping live region i and then tearing down from slot i + 1 tears down from slot i. */
  lemma TornDownStep(t: seq<Vma>, i: nat, pt: PageTable, mid: PageTable, fin: PageTable)
    requires WellFormed(t) && i < |t| && t[i].Live() && mid.Keys == pt.Keys
    requires forall x :: x in pt && !(Swept(x, t[i].addr, t[i].End()) && pt[x].Valid()) ==> mid[x] == pt[x]
    requires forall x :: x in pt && Swept(x, t[i].addr, t[i].End()) && pt[x].Valid() ==> mid[x] == ZeroPte
    requires TornDown(t, i + 1, mid, fin)
    ensures TornDown(t, i, pt, fin)
  {
    forall x, j | i <= j < |t| && t[j].Live() && x in pt && Swept(x, t[j].addr, t[j].End())
      ensures !fin[x].Valid()
    {
      if j == i && !pt[x].Valid() {
        assert mid[x] == pt[x];
      }
    }
  }

  /** The teardown loop of vma_free from slot i on: unmap every live region
      in full, writing back shared ones. */
  function FreeFrom(t: seq<Vma>, pt: PageTable, i: nat): (r: Outcome<Effects>)
    requires WellFormed(t) && i <= |t|
    decreases |t| - i
    ensures NoNonLeaf(pt) && (forall j :: i <= j < |t| && t[j].Live() ==> Aligned(t[j].addr)) ==> r.Done?
    ensures r.Done? ==> TornDown(t, i, pt, r.value.pt)
  {
    if i == |t| then Done(Effects(pt, [], []))
    else if !t[i].Live() then FreeFrom(t, pt, i + 1)
    else
      var v := t[i];
      match VmaUnmapRange(pt, v.fileBase, v.addr, v.len, v.Shared(), v.file.value.size)
      case Panic(m) => Panic(m)
      case Done(e) =>
        SweepKeepsLeaves(pt, v.addr, v.End(), e.pt);
        match FreeFrom(t, e.pt, i + 1)
        case Panic(m) => Panic(m)
        case Done(e') =>
          TornDownStep(t, i, pt, e.pt, e'.pt);
          Done(Effects(e'.pt, e.writes + e'.writes, e.freed + e'.freed))
  }

  /** At exit, live region j frees the frame f of the valid page x it covers. */
  predicate FreesAt(t: seq<Vma>, pt: PageTable, j: nat, x: nat, f: nat)
    requires j < |t|
  {
    t[j].Live() && x in pt && Swept(x, t[j].addr, t[j].End()) && pt[x].Valid() && pt[x].Pa() == f
  }

  /** At exit, live region j writes w back for its dirty page x; only a shared
      region writes back. */
  predicate WritesAt(t: seq<Vma>, pt: PageTable, j: nat, x: nat, w: Write)
    requires j < |t|
  {
    && t[j].Live() && t[j].Shared() && t[j].file.Some? && t[j].fileBase <= x
    && x in pt && Swept(x, t[j].addr, t[j].End()) && pt[x].Valid() && pt[x].Dirty()
    && w == WriteOf(pt[x], x, t[j].fileBase, t[j].End(), t[j].file.value.size)
  }

  /** Unmapping live region i leaves the entries of every other live region
      as they were: the regions are disjoint. */
  lemma OtherRegionsKept(t: seq<Vma>, pt: PageTable, i: nat, pt': PageTable)
    requires WellFormed(t) && i < |t| && t[i].Live()
    requires pt'.Keys == pt.Keys
    requires forall x :: x in pt && !(Swept(x, t[i].addr, t[i].End()) && pt[x].Valid()) ==> pt'[x] == pt[x]
    ensures forall j, x :: 0 <= j < |t| && j != i && t[j].Live() && x in pt && Swept(x, t[j].addr, t[j].End()) ==>
              x in pt' && pt'[x] == pt[x]
  {
    forall j, x | 0 <= j < |t| && j != i && t[j].Live() && x in pt && Swept(x, t[j].addr, t[j].End())
      ensures pt'[x] == pt[x]
    {
      assert Disjoint(t[i], t[j]);
    }
  }

  /** The sweep of live region i over the table pt, when the teardown from i succeeds. */
  function SweepOf(t: seq<Vma>, pt: PageTable, i: nat): Outcome<Effects>
    requires WellFormed(t) && i < |t| && t[i].Live() && Aligned(t[i].addr)
  {
    UnmapPages(pt, t[i].fileBase, t[i].addr, t[i].End(), t[i].Shared(), t[i].file.value.size)
  }

  /** The teardown passes over an empty slot. */
  lemma FreeFromSkip(t: seq<Vma>, pt: PageTable, i: nat)
    requires WellFormed(t) && i < |t| && !t[i].Live()
    ensures FreeFrom(t, pt, i) == FreeFrom(t, pt, i + 1)
  {
  }

  /** One step of the teardown: a live region is swept, then the later slots are
      torn down from the table the sweep left, which the later regions see unchanged. */
  lemma FreeFromLive(t: seq<Vma>, pt: PageTable, i: nat)
    requires WellFormed(t) && i < |t| && t[i].Live() && FreeFrom(t, pt, i).Done?
    ensures Aligned(t[i].addr) && SweepOf(t, pt, i).Done?
    ensures var e := SweepOf(t, pt, i).value;
            && FreeFrom(t, e.pt, i + 1).Done?
            && FreeFrom(t, pt, i).value.freed == e.freed + FreeFrom(t, e.pt, i + 1).value.freed
            && FreeFrom(t, pt, i).value.writes == e.writes + FreeFrom(t, e.pt, i + 1).value.writes
            && e.pt.Keys == pt.Keys && KeptForLater(t, pt, i, e.pt)
  {
    var v := t[i];
    assert Aligned(v.addr);
    var e := SweepOf(t, pt, i).value;
    assert VmaUnmapRange(pt, v.fileBase, v.addr, v.len, v.Shared(), v.file.value.size) == Done(e);
    OtherRegionsKept(t, pt, i, e.pt);
  }

  /** freed holds exactly the frames the live regions from slot i on free. */
  ghost predicate FreesExactly(t: seq<Vma>, pt: PageTable, i: nat, freed: seq<nat>)
  {
    forall f :: f in freed <==> exists j, x :: i <= j < |t| && FreesAt(t, pt, j, x, f)
  }

  /** writes holds exactly the write-backs of the live regions from slot i on. */
  ghost predicate WritesExactly(t: seq<Vma>, pt: PageTable, i: nat, writes: seq<Write>)
  {
    forall w :: w in writes <==> exists j, x :: i <= j < |t| && WritesAt(t, pt, j, x, w)
  }

  /** The later regions see the table the sweep of region i left as they saw pt. */
  ghost predicate KeptForLater(t: seq<Vma>, pt: PageTable, i: nat, pt': PageTable)
  {
    forall j, x :: i < j < |t| && t[j].Live() && x in pt && Swept(x, t[j].addr, t[j].End()) ==>
      x in pt' && pt'[x] == pt[x]
  }

  lemma FreesStep(t: seq<Vma>, pt: PageTable, i: nat, e: Effects, rest: seq<nat>)
    requires i < |t| && t[i].Live() && pt.Keys == e.pt.Keys && KeptForLater(t, pt, i, e.pt)
    requires forall x :: x in pt && Swept(x, t[i].addr, t[i].End()) && pt[x].Valid() ==> pt[x].Pa() in e.freed
    requires forall f :: f in e.freed ==> exists x :: x in pt && Swept(x, t[i].addr, t[i].End()) && pt[x].Valid() && pt[x].Pa() == f
    requires FreesExactly(t, e.pt, i + 1, rest)
    ensures FreesExactly(t, pt, i, e.freed + rest)
  {
    forall f
      ensures f in e.freed + rest <==> exists j, x :: i <= j < |t| && FreesAt(t, pt, j, x, f)
    {
      if f in e.freed {
        var x :| x in pt && Swept(x, t[i].addr, t[i].End()) && pt[x].Valid() && pt[x].Pa() == f;
        assert FreesAt(t, pt, i, x, f);
      }
      if f in rest {
        var j, x :| i + 1 <= j < |t| && FreesAt(t, e.pt, j, x, f);
        assert FreesAt(t, pt, j, x, f);
      }
      if exists j, x :: i <= j < |t| && FreesAt(t, pt, j, x, f) {
        var j, x :| i <= j < |t| && FreesAt(t, pt, j, x, f);
        if j != i {
          assert FreesAt(t, e.pt, j, x, f);
        }
      }
    }
  }

  lemma WritesStep(t: seq<Vma>, pt: PageTable, i: nat, e: Effects, rest: seq<Write>)
    requires i < |t| && t[i].Live() && t[i].file.Some? && t[i].fileBase <= t[i].addr
    requires pt.Keys == e.pt.Keys && KeptForLater(t, pt, i, e.pt)
    requires forall x :: x in pt && Swept(x, t[i].addr, t[i].End()) && pt[x].Valid() && pt[x].Dirty() && t[i].Shared() ==>
               WriteOf(pt[x], x, t[i].fileBase, t[i].End(), t[i].file.value.size) in e.writes
    requires forall w :: w in e.writes ==>
               t[i].Shared() && exists x :: x in pt && Swept(x, t[i].addr, t[i].End()) && pt[x].Valid() && pt[x].Dirty() &&
                                            w == WriteOf(pt[x], x, t[i].fileBase, t[i].End(), t[i].file.value.size)
    requires WritesExactly(t, e.pt, i + 1, rest)
    ensures WritesExactly(t, pt, i, e.writes + rest)
  {
    forall w
      ensures w in e.writes + rest <==> exists j, x :: i <= j < |t| && WritesAt(t, pt, j, x, w)
    {
      if w in e.writes {
        var x :| x in pt && Swept(x, t[i].addr, t[i].End()) && pt[x].Valid() && pt[x].Dirty() &&
                 w == WriteOf(pt[x], x, t[i].fileBase, t[i].End(), t[i].file.value.size);
        assert WritesAt(t, pt, i, x, w);
      }
      if w in rest {
        var j, x :| i + 1 <= j < |t| && WritesAt(t, e.pt, j, x, w);
        assert WritesAt(t, pt, j, x, w);
      }
      if exists j, x :: i <= j < |t| && WritesAt(t, pt, j, x, w) {
        var j, x :| i <= j < |t| && WritesAt(t, pt, j, x, w);
        if j != i {
          assert WritesAt(t, e.pt, j, x, w);
        }
      }
    }
  }

  /** The teardown from slot i on frees exactly the frames of the valid pages
      of the live regions from slot i on. */
  lemma {:induction false} FreeFromFrees(t: seq<Vma>, pt: PageTable, i: nat)
    requires WellFormed(t) && i <= |t| && FreeFrom(t, pt, i).Done?
    decreases |t| - i, 1
    ensures FreesExactly(t, pt, i, FreeFrom(t, pt, i).value.freed)
  {
    if i == |t| {
    } else if !t[i].Live() {
      SkipFrees(t, pt, i);
    } else {
      LiveFrees(t, pt, i);
    }
  }

  /** The step of FreeFromFrees for an empty slot i. */
  lemma {:induction false} SkipFrees(t: seq<Vma>, pt: PageTable, i: nat)
    requires WellFormed(t) && i < |t| && !t[i].Live() && FreeFrom(t, pt, i).Done?
    decreases |t| - i, 0
    ensures FreesExactly(t, pt, i, FreeFrom(t, pt, i).value.freed)
  {
    FreeFromSkip(t, pt, i);
    FreeFromFrees(t, pt, i + 1);
  }

  /** The step of FreeFromFrees for a live slot i. */
  lemma {:induction false} LiveFrees(t: seq<Vma>, pt: PageTable, i: nat)
    requires WellFormed(t) && i < |t| && t[i].Live() && FreeFrom(t, pt, i).Done?
    decreases |t| - i, 0
    ensures FreesExactly(t, pt, i, FreeFrom(t, pt, i).value.freed)
  {
    FreeFromLive(t, pt, i);
    var v := t[i];
    var e := SweepOf(t, pt, i).value;
    UnmapPagesFrees(pt, v.fileBase, v.addr, v.End(), v.Shared(), v.file.value.size);
    FreeFromFrees(t, e.pt, i + 1);
    FreesStep(t, pt, i, e, FreeFrom(t, e.pt, i + 1).value.freed);
  }

  /** The teardown from slot i on writes back exactly the dirty valid pages
      of the shared live regions from slot i on. */
  lemma {:induction false} FreeFromWrites(t: seq<Vma>, pt: PageTable, i: nat)
    requires WellFormed(t) && i <= |t| && FreeFrom(t, pt, i).Done?
    decreases |t| - i, 1
    ensures WritesExactly(t, pt, i, FreeFrom(t, pt, i).value.writes)
  {
    if i == |t| {
    } else if !t[i].Live() {
      SkipWrites(t, pt, i);
    } else {
      LiveWrites(t, pt, i);
    }
  }

  /** The step of FreeFromWrites for an empty slot i. */
  lemma {:induction false} SkipWrites(t: seq<Vma>, pt: PageTable, i: nat)
    requires WellFormed(t) && i < |t| && !t[i].Live() && FreeFrom(t, pt, i).Done?
    decreases |t| - i, 0
    ensures WritesExactly(t, pt, i, FreeFrom(t, pt, i).value.writes)
  {
    FreeFromSkip(t, pt, i);
    FreeFromWrites(t, pt, i + 1);
  }

  /** The step of FreeFromWrites for a live slot i. */
  lemma {:induction false} LiveWrites(t: seq<Vma>, pt: PageTable, i: nat)
    requires WellFormed(t) && i < |t| && t[i].Live() && FreeFrom(t, pt, i).Done?
    decreases |t| - i, 0
    ensures WritesExactly(t, pt, i, FreeFrom(t, pt, i).value.writes)
  {
    FreeFromLive(t, pt, i);
    var v := t[i];
    var e := SweepOf(t, pt, i).value;
    UnmapPagesWrites(pt, v.fileBase, v.addr, v.End(), v.Shared(), v.file.value.size);
    FreeFromWrites(t, e.pt, i + 1);
    WritesStep(t, pt, i, e, FreeFrom(t, e.pt, i + 1).value.writes);
  }

  /** vma_free: at exit, unmap every live region and zero the whole table. */
  function VmaFree(t: seq<Vma>, pt: PageTable): (r: Outcome<(seq<Vma>, Effects)>)
    requires WellFormed(t)
    ensures NoNonLeaf(pt) && (forall j :: 0 <= j < |t| && t[j].Live() ==> Aligned(t[j].addr)) ==> r.Done?
    ensures r.Done? ==> |r.value.0| == VMA_COUNT && forall j :: 0 <= j < VMA_COUNT ==> r.value.0[j] == EmptyVma
    ensures r.Done? ==> r.value.1.pt.Keys == pt.Keys
    ensures r.Done? ==> forall x, j :: 0 <= j < |t| && t[j].Live() && x in pt && Swept(x, t[j].addr, t[j].End()) ==>
              !r.value.1.pt[x].Valid()
    ensures r.Done? ==> forall x :: x in pt && (forall j :: 0 <= j < |t| && t[j].Live() ==> !Swept(x, t[j].addr, t[j].End())) ==>
              r.value.1.pt[x] == pt[x]
    // every resident frame is freed, and every dirty page of a shared region written back
    ensures r.Done? ==> FreesExactly(t, pt, 0, r.value.1.freed) && WritesExactly(t, pt, 0, r.value.1.writes)
  {
    match FreeFrom(t, pt, 0)
    case Panic(m) => Panic(m)
    case Done(e) =>
      FreeFromFrees(t, pt, 0);
      FreeFromWrites(t, pt, 0);
      Done((seq(VMA_COUNT, _ => EmptyVma), e))
  }

  /** vma_init: a new process must start with an empty table. */
  function VmaInit(t: seq<Vma>): (r: Outcome<int>)
    ensures r.Done? <==> forall i :: 0 <= i < |t| ==> !t[i].Live()
    ensures r.Done? ==> r.value == 0
  {
    if exists i :: 0 <= i < |t| && t[i].Live() then Panic("vma_init: vma_range is not empty")
    else Done(0)
  }
}
