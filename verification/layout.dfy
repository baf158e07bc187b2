/** The physical memory layout the allocator manages and the page-number
    arithmetic derived from it (WHICHPG, PGROUNDUP, kfree's address guard). */
module MemLayout {

  /** KERNBASE, PHYSTOP, PGSIZE and the linker symbol `end` (the first
      address after the kernel image), taken as parameters. */
  datatype Layout = Layout(kernbase: nat, phystop: nat, pgsize: nat, kernelEnd: nat) {

    /** The ordering the allocator relies on. xv6 has KERNBASE = 0x80000000,
        PHYSTOP = KERNBASE + 128 MiB and PGSIZE = 4096, so all of these hold;
        `UnalignedPhystopOverrunsTable` shows why PHYSTOP must be aligned, and a
        non-zero KERNBASE keeps kalloc's 0 ("no page") apart from every page. */
    predicate Valid() {
      && 0 < kernbase
      && 0 < pgsize
      && kernbase % pgsize == 0
      && phystop % pgsize == 0
      && kernbase <= kernelEnd <= phystop
    }

    /** Length of the `refcounts` array: one slot per page from KERNBASE to PHYSTOP. */
    function NPages(): nat
      requires Valid()
    {
      (phystop - kernbase) / pgsize
    }

    /** Addresses on which WHICHPG yields an index into `refcounts`. */
    predicate Managed(pa: nat) {
      kernbase <= pa < phystop
    }

    /** kfree's guard: page aligned, not inside the kernel image, below PHYSTOP. */
    predicate Freeable(pa: nat)
      requires Valid()
    {
      pa % pgsize == 0 && kernelEnd <= pa && pa < phystop
    }

    /** WHICHPG's formula, `(pa - KERNBASE) / PGSIZE`, for any address at or
        above KERNBASE; freerange's loop also takes it at PHYSTOP itself. */
    function PageIndex(pa: nat): nat
      requires Valid() && kernbase <= pa
    {
      (pa - kernbase) / pgsize
    }

    /** WHICHPG: the `refcounts` slot of the page holding `pa`. */
    function WhichPg(pa: nat): (i: nat)
      requires Valid() && Managed(pa)
      ensures i < NPages()
      ensures kernbase + i * pgsize <= pa < kernbase + (i + 1) * pgsize
    {
      var q := PageIndex(pa);
      WhichPgFacts(pa, q);
      q
    }

    lemma WhichPgFacts(pa: nat, q: nat)
      requires Valid() && Managed(pa) && q == PageIndex(pa)
      ensures q < NPages()
      ensures kernbase + q * pgsize <= pa < kernbase + (q + 1) * pgsize
    {
      DivBounds(pa - kernbase, pgsize);
      NPagesExact();
      DivBelowMultiple(pa - kernbase, pgsize, NPages());
    }

    /** The pages from KERNBASE to PHYSTOP fill the range exactly. */
    lemma NPagesExact()
      requires Valid()
      ensures kernbase + NPages() * pgsize == phystop
    {
      AlignedDifference(phystop, kernbase, pgsize);
      DivBounds(phystop - kernbase, pgsize);
    }

    /** PGROUNDUP: the least page boundary at or above `a`. */
    function PgRoundUp(a: nat): (r: nat)
      requires Valid()
      ensures r % pgsize == 0
      ensures a <= r < a + pgsize
    {
      RoundUpFacts(a, pgsize);
      (a + pgsize - 1) / pgsize * pgsize
    }

    /** Every address kfree accepts indexes `refcounts` within bounds. */
    lemma FreeableIndexInBounds(pa: nat)
      requires Valid() && Freeable(pa)
      ensures Managed(pa)
      ensures WhichPg(pa) < NPages()
      ensures pa == kernbase + WhichPg(pa) * pgsize
    {
      var i := WhichPg(pa);
      var k := (pa - kernbase) / pgsize;
      DivBounds(pa - kernbase, pgsize);
      assert (pa - kernbase) % pgsize == 0 by { AlignedDifference(pa, kernbase, pgsize); }
    }

    /** Distinct page-aligned addresses occupy distinct `refcounts` slots. */
    lemma WhichPgInjective(a: nat, b: nat)
      requires Valid() && Managed(a) && Managed(b)
      requires a % pgsize == 0 && b % pgsize == 0
      ensures WhichPg(a) == WhichPg(b) <==> a == b
    {
      if WhichPg(a) == WhichPg(b) {
        AlignedDifference(a, kernbase, pgsize);
        AlignedDifference(b, kernbase, pgsize);
        DivBounds(a - kernbase, pgsize);
        DivBounds(b - kernbase, pgsize);
      }
    }

    /** Stepping `k` whole pages up moves the slot up by `k`. */
    lemma WhichPgStep(pa: nat, k: nat)
      requires Valid() && Managed(pa) && Managed(pa + k * pgsize)
      ensures WhichPg(pa + k * pgsize) == WhichPg(pa) + k
    {
      DivShiftMultiple(pa - kernbase, pgsize, k);
      assert pa + k * pgsize - kernbase == (pa - kernbase) + k * pgsize;
    }
  }

  /** Without PHYSTOP % PGSIZE == 0 the guard admits an address whose
      WHICHPG equals the array length: KERNBASE = 4, PHYSTOP = 10, PGSIZE = 4,
      `end` = 4 sizes `refcounts` to one slot, yet kfree(8) passes the guard
      and touches slot 1. */
  lemma UnalignedPhystopOverrunsTable()
    ensures var L := Layout(4, 10, 4, 4);
      && 0 < L.kernbase && 0 < L.pgsize && L.kernbase % L.pgsize == 0
      && L.kernbase <= L.kernelEnd <= L.phystop
      && 8 % L.pgsize == 0 && L.kernelEnd <= 8 < L.phystop
      && (8 - L.kernbase) / L.pgsize == (L.phystop - L.kernbase) / L.pgsize
  {
  }

  // Arithmetic helpers.

  lemma DivBounds(a: nat, m: nat)
    requires 0 < m
    ensures (a / m) * m <= a < (a / m + 1) * m
    ensures a % m == 0 ==> a == (a / m) * m
  {
  }

  lemma DivBelowMultiple(a: nat, m: nat, n: nat)
    requires 0 < m && a < n * m
    ensures a / m < n
  {
    DivBounds(a, m);
    if a / m >= n {
      MulMono(n, a / m, m);
    }
  }

  lemma MulMono(x: nat, y: nat, m: nat)
    requires x <= y
    ensures x * m <= y * m
  {
  }

  lemma MultipleMod(q: nat, m: nat)
    requires 0 < m
    ensures (q * m) % m == 0
  {
    DivModUnique(q * m, m, q, 0);
  }

  lemma DivModUnique(a: int, m: int, q: int, r: int)
    requires 0 < m && 0 <= r < m && a == q * m + r
    ensures a / m == q && a % m == r
  {
    var d := q - a / m;
    assert d * m == a % m - r;
  }

  lemma RoundUpFacts(a: nat, m: nat)
    requires 0 < m
    ensures ((a + m - 1) / m * m) % m == 0
    ensures a <= (a + m - 1) / m * m < a + m
  {
    var q := (a + m - 1) / m;
    DivBounds(a + m - 1, m);
    assert (q + 1) * m == q * m + m;
    MultipleMod(q, m);
  }

  lemma AlignedDifference(a: nat, b: nat, m: nat)
    requires 0 < m && b <= a && a % m == 0 && b % m == 0
    ensures (a - b) % m == 0
  {
    DivBounds(a, m);
    DivBounds(b, m);
    assert a - b == (a / m - b / m) * m;
    MultipleMod(a / m - b / m, m);
  }

  lemma DivShiftMultiple(a: nat, m: nat, k: nat)
    requires 0 < m
    ensures (a + k * m) / m == a / m + k
  {
    var q, r := a / m, a % m;
    assert a + k * m == (q + k) * m + r;
    DivModUnique(a + k * m, m, q + k, r);
  }

  lemma DivUnique(a: nat, m: nat, q: nat)
    requires 0 < m && q * m <= a < (q + 1) * m
    ensures a / m == q
  {
    DivBounds(a, m);
    if a / m < q {
      MulMono(a / m + 1, q, m);
    } else if a / m > q {
      MulMono(q + 1, a / m, m);
    }
  }
}
