/** Page geometry and the Sv39 page-table entry (section 4.4 of the RISC-V
    Privileged Architecture specification). */
module Riscv {

  const PGSIZE: nat := 4096

  /** 2^64: values of C's uint64 lie below it. */
  const U64: nat := 0x1_0000_0000_0000_0000

  type u64 = x: nat | x < U64

  predicate Aligned(a: nat)
  {
    a % PGSIZE == 0
  }

  /** The nearest page boundary at or above a (PGROUNDUP). */
  function PgRoundUp(a: nat): (r: nat)
    ensures Aligned(r) && a <= r < a + PGSIZE
  {
    if a % PGSIZE == 0 then a else a + (PGSIZE - a % PGSIZE)
  }

  /** The nearest page boundary at or below a (PGROUNDDOWN). */
  function PgRoundDown(a: nat): (r: nat)
    ensures Aligned(r) && r <= a < r + PGSIZE
  {
    a - a % PGSIZE
  }

  /** An aligned address at or below x is at or below x rounded down. */
  lemma AlignedBelow(b: nat, x: nat)
    requires Aligned(b) && b <= x
    ensures b <= PgRoundDown(x)
  {
    assert b / PGSIZE <= x / PGSIZE;
  }

  /** Two distinct aligned addresses are at least a page apart. */
  lemma PagesApart(a: nat)
    requires Aligned(a)
    ensures forall x: nat :: Aligned(x) && a < x ==> a + PGSIZE <= x
  {
    forall x: nat | Aligned(x) && a < x
      ensures a + PGSIZE <= x
    {
      assert a / PGSIZE < x / PGSIZE;
    }
  }

  /** The ten flag bits of an Sv39 entry. */
  type PteFlags = bv10

  const PTE_V: PteFlags := 1
  const PTE_R: PteFlags := 2
  const PTE_W: PteFlags := 4
  const PTE_X: PteFlags := 8
  const PTE_U: PteFlags := 16
  const PTE_D: PteFlags := 128

  /** A leaf entry: physical page number and flags. The all-zero entry is
      what `*pte = 0` leaves behind. */
  datatype Pte = Pte(ppn: nat, flags: PteFlags)
  {
    predicate Valid()
    {
      flags & PTE_V != 0
    }

    predicate Dirty()
    {
      flags & PTE_D != 0
    }

    /** PTE2PA */
    function Pa(): nat
    {
      ppn * PGSIZE
    }
  }

  const ZeroPte := Pte(0, 0)

  /** PA2PTE(pa) | flags */
  function MakePte(pa: nat, flags: PteFlags): (p: Pte)
    requires Aligned(pa)
    ensures p.Pa() == pa && p.flags == flags
  {
    Pte(pa / PGSIZE, flags)
  }

  /** The leaf entries of one address space, keyed by page address. A missing
      key is an address for which walk() finds no page-table page. */
  type PageTable = map<nat, Pte>
}
