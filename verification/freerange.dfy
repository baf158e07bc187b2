/** Seeding the pool: freerange calls kfree on every whole page of a range,
    lowest address first, and kinit runs it from `end` to PHYSTOP on a table
    of zero counts. */
module PoolSeeding {
  import opened MemLayout
  import opened Results
  import opened PageAllocator
  import opened FreeListInvariant

  /** The loop of freerange from the page boundary `p` on: kfree each page
      while a whole page fits below `paEnd`; a panicking kfree ends it. */
  function FreeFrom(L: Layout, s: State, p: nat, paEnd: nat): (r: Result<State>)
    requires Wf(L, s)
    ensures r.Ok? ==> Wf(L, r.value)
    ensures r.Panic? ==> r.msg == "kfree"
    decreases paEnd - p
  {
    if p + L.pgsize <= paEnd then
      match Kfree(L, s, p)
      case Panic(m) => Panic(m)
      case Ok(t) => FreeFrom(L, t, p + L.pgsize, paEnd)
    else
      Ok(s)
  }

  /** freerange(pa_start, pa_end): the loop from PGROUNDUP(pa_start). */
  function FreeRange(L: Layout, s: State, paStart: nat, paEnd: nat): (r: Result<State>)
    requires Wf(L, s)
    ensures r.Ok? ==> Wf(L, r.value)
    ensures r.Panic? ==> r.msg == "kfree"
  {
    FreeFrom(L, s, L.PgRoundUp(paStart), paEnd)
  }

  /** The state before kinit: no free pages and every count zero (the
      `refcounts` array is zero-initialised); page contents are whatever
      memory held at boot. */
  function Boot(L: Layout, content: seq<PageContent>): (s: State)
    requires L.Valid() && |content| == L.NPages()
    ensures Wf(L, s)
  {
    State([], seq(L.NPages(), _ => 0), content)
  }

  /** kinit: freerange(end, PHYSTOP) on the boot state. It never panics. */
  function Kinit(L: Layout, content: seq<PageContent>): (r: Result<State>)
    requires L.Valid() && |content| == L.NPages()
    ensures r.Ok? && Wf(L, r.value)
  {
    FreeRangeWithinBounds(L, Boot(L, content), L.kernelEnd, L.phystop);
    FreeRange(L, Boot(L, content), L.kernelEnd, L.phystop)
  }

  /** How many pages the loop from `p` visits: those with p + PGSIZE <= paEnd. */
  function PageCount(L: Layout, p: nat, paEnd: nat): nat
    requires L.Valid()
  {
    if paEnd < p then 0 else (paEnd - p) / L.pgsize
  }

  /** Slot `i` belongs to one of the pages the loop from `p` visits. */
  predicate Visited(L: Layout, p: nat, paEnd: nat, i: nat)
    requires L.Valid() && L.kernbase <= p
  {
    L.PageIndex(p) <= i < L.PageIndex(p) + PageCount(L, p, paEnd)
  }

  /** One loop iteration: a page fits, and the rest of the loop visits one
      page fewer, starting one slot higher. */
  lemma LoopStep(L: Layout, p: nat, paEnd: nat)
    requires L.Valid() && L.kernbase <= p
    ensures p + L.pgsize <= paEnd <==> PageCount(L, p, paEnd) > 0
    ensures p + L.pgsize <= paEnd ==>
      && PageCount(L, p + L.pgsize, paEnd) == PageCount(L, p, paEnd) - 1
      && L.PageIndex(p + L.pgsize) == L.PageIndex(p) + 1
  {
    var m := L.pgsize;
    DivShiftMultiple(p - L.kernbase, m, 1);
    assert p + m - L.kernbase == (p - L.kernbase) + 1 * m;
    if p + m <= paEnd {
      DivShiftMultiple(paEnd - p - m, m, 1);
      assert paEnd - p == (paEnd - p - m) + 1 * m;
    } else if p <= paEnd {
      DivUnique(paEnd - p, m, 0);
    }
  }

  /** The `k`-th visited address is a page boundary below `paEnd` when `p` is one. */
  lemma VisitedAddress(L: Layout, p: nat, paEnd: nat, k: nat)
    requires L.Valid() && p % L.pgsize == 0 && k < PageCount(L, p, paEnd)
    ensures (p + k * L.pgsize) % L.pgsize == 0
    ensures p + (k + 1) * L.pgsize <= paEnd
  {
    var m := L.pgsize;
    DivBounds(p, m);
    assert p + k * m == (p / m + k) * m;
    MultipleMod(p / m + k, m);
    var n := PageCount(L, p, paEnd);
    DivBounds(paEnd - p, m);
    MulMono(k + 1, n, m);
  }

  /** The addresses freerange hands to kfree from `p` on, in call order. */
  function Visits(L: Layout, p: nat, paEnd: nat): seq<nat>
    requires L.Valid()
    decreases paEnd - p
  {
    if p + L.pgsize <= paEnd then [p] + Visits(L, p + L.pgsize, paEnd) else []
  }

  function Reverse(xs: seq<nat>): (r: seq<nat>)
    ensures |r| == |xs|
    ensures forall k :: 0 <= k < |xs| ==> r[k] == xs[|xs| - 1 - k]
  {
    if xs == [] then [] else Reverse(xs[1..]) + [xs[0]]
  }

  /** The visited addresses are the consecutive pages p, p + PGSIZE, ...
      that fit below `paEnd`, occupying consecutive slots. */
  lemma {:induction false} VisitsShape(L: Layout, p: nat, paEnd: nat)
    requires L.Valid() && L.kernbase <= p
    ensures |Visits(L, p, paEnd)| == PageCount(L, p, paEnd)
    ensures forall k :: 0 <= k < |Visits(L, p, paEnd)| ==> Visits(L, p, paEnd)[k] == p + k * L.pgsize
    ensures forall k :: 0 <= k < |Visits(L, p, paEnd)| ==> Visits(L, p, paEnd)[k] + L.pgsize <= paEnd
    decreases paEnd - p
  {
    var m := L.pgsize;
    LoopStep(L, p, paEnd);
    if p + m <= paEnd {
      VisitsShape(L, p + m, paEnd);
      var vs, rest := Visits(L, p, paEnd), Visits(L, p + m, paEnd);
      forall k | 0 <= k < |vs|
        ensures vs[k] == p + k * m
      {
        if k > 0 {
          assert vs[k] == rest[k - 1];
          assert p + m + (k - 1) * m == p + k * m;
        }
      }
    }
  }

  /** Under a valid range each visited address is a managed page boundary
      whose slot is `PageIndex(p) + k`, and the visited slots are exactly the
      `Visited` ones. */
  lemma VisitsSlots(L: Layout, p: nat, paEnd: nat, k: nat)
    requires L.Valid() && L.kernbase <= p && p % L.pgsize == 0 && paEnd <= L.phystop
    requires k < |Visits(L, p, paEnd)|
    ensures L.Managed(Visits(L, p, paEnd)[k])
    ensures Visits(L, p, paEnd)[k] % L.pgsize == 0
    ensures L.WhichPg(Visits(L, p, paEnd)[k]) == L.PageIndex(p) + k
  {
    VisitsShape(L, p, paEnd);
    VisitedAddress(L, p, paEnd, k);
    VisitedAddress(L, p, paEnd, 0);
    assert p + 0 * L.pgsize == p;
    L.WhichPgStep(p, k);
  }

  /** freerange panics exactly when one of the addresses it visits fails
      kfree's guard. */
  lemma {:induction false} FreeFromOkIff(L: Layout, s: State, p: nat, paEnd: nat)
    requires Wf(L, s)
    ensures FreeFrom(L, s, p, paEnd).Ok? <==> AllFreeable(L, Visits(L, p, paEnd))
    decreases paEnd - p
  {
    var m := L.pgsize;
    if p + m <= paEnd {
      var rest := Visits(L, p + m, paEnd);
      assert Visits(L, p, paEnd) == [p] + rest;
      AllFreeableCons(L, p, rest);
      var r := Kfree(L, s, p);
      if r.Ok? {
        FreeFromOkIff(L, r.value, p + m, paEnd);
      }
    }
  }

  /** Every address in `xs` passes kfree's guard. */
  predicate AllFreeable(L: Layout, xs: seq<nat>)
    requires L.Valid()
  {
    forall k :: 0 <= k < |xs| ==> L.Freeable(xs[k])
  }

  lemma AllFreeableCons(L: Layout, x: nat, xs: seq<nat>)
    requires L.Valid()
    ensures AllFreeable(L, [x] + xs) <==> L.Freeable(x) && AllFreeable(L, xs)
  {
    var ys := [x] + xs;
    if L.Freeable(x) && AllFreeable(L, xs) {
      forall k | 0 <= k < |ys|
        ensures L.Freeable(ys[k])
      {
        if k > 0 {
          assert ys[k] == xs[k - 1];
        }
      }
    }
    if AllFreeable(L, ys) {
      assert L.Freeable(ys[0]);
      forall k | 0 <= k < |xs|
        ensures L.Freeable(xs[k])
      {
        assert ys[k + 1] == xs[k];
      }
    }
  }

  /** freerange over a sub-range of [end, PHYSTOP) never panics. */
  lemma FreeRangeWithinBounds(L: Layout, s: State, paStart: nat, paEnd: nat)
    requires Wf(L, s) && L.kernelEnd <= paStart && paEnd <= L.phystop
    ensures FreeRange(L, s, paStart, paEnd).Ok?
  {
    var p := L.PgRoundUp(paStart);
    var vs := Visits(L, p, paEnd);
    VisitsShape(L, p, paEnd);
    forall k | 0 <= k < |vs|
      ensures L.Freeable(vs[k])
    {
      VisitedAddress(L, p, paEnd, k);
    }
    assert AllFreeable(L, vs);
    FreeFromOkIff(L, s, p, paEnd);
  }

  /** freerange from a page boundary at or above `end`, on pages holding at
      most one reference: every visited page is freed, so its count drops by
      one, it is junk-filled, and it is pushed, so the free list gains the
      visited addresses in reverse order, the highest at the head; nothing
      else changes. */
  lemma FreeFromCoverage(L: Layout, s: State, p: nat, paEnd: nat)
    requires Wf(L, s)
    requires p % L.pgsize == 0 && L.kernelEnd <= p && paEnd <= L.phystop
    requires forall i :: 0 <= i < |s.refc| && Visited(L, p, paEnd, i) ==> s.refc[i] <= 1
    ensures FreeFrom(L, s, p, paEnd).Ok?
    ensures var t := FreeFrom(L, s, p, paEnd).value;
      && t.freelist == Reverse(Visits(L, p, paEnd)) + s.freelist
      && (forall i :: 0 <= i < |s.refc| ==>
            t.refc[i] == if Visited(L, p, paEnd, i) then s.refc[i] - 1 else s.refc[i])
      && (forall i :: 0 <= i < |s.content| ==>
            t.content[i] == if Visited(L, p, paEnd, i) then Junk1 else s.content[i])
  {
    CoverageOnSlots(L, s, p, paEnd, L.PageIndex(p), PageCount(L, p, paEnd));
    CoverageList(L, s, p, paEnd, L.PageIndex(p), PageCount(L, p, paEnd));
  }

  /** The counts and contents half of FreeFromCoverage, with the visited
      slots given as the interval [lo, lo + n), which keeps division out of
      the induction. */
  lemma {:induction false} CoverageOnSlots(L: Layout, s: State, p: nat, paEnd: nat, lo: nat, n: nat)
    requires Wf(L, s)
    requires p % L.pgsize == 0 && L.kernelEnd <= p && paEnd <= L.phystop
    requires lo == L.PageIndex(p) && n == PageCount(L, p, paEnd)
    requires forall i :: 0 <= i < |s.refc| && lo <= i < lo + n ==> s.refc[i] <= 1
    ensures FreeFrom(L, s, p, paEnd).Ok?
    ensures var t := FreeFrom(L, s, p, paEnd).value;
      && (forall i :: 0 <= i < |s.refc| ==>
            t.refc[i] == if lo <= i < lo + n then s.refc[i] - 1 else s.refc[i])
      && (forall i :: 0 <= i < |s.content| ==>
            t.content[i] == if lo <= i < lo + n then Junk1 else s.content[i])
    decreases paEnd - p
  {
    var m := L.pgsize;
    LoopStep(L, p, paEnd);
    if p + m <= paEnd {
      var i0 := L.WhichPg(p);
      assert i0 == lo;
      var t1 := State([p] + s.freelist, s.refc[i0 := s.refc[i0] - 1], s.content[i0 := Junk1]);
      FreeStep(L, s, p, paEnd);
      NextPageAligned(L, p);
      CoverageOnSlots(L, t1, p + m, paEnd, lo + 1, n - 1);
    }
  }

  /** The free-list half of FreeFromCoverage: the visited pages are pushed
      in visiting order, so they end up on top of the old list reversed. */
  lemma {:induction false} CoverageList(L: Layout, s: State, p: nat, paEnd: nat, lo: nat, n: nat)
    requires Wf(L, s)
    requires p % L.pgsize == 0 && L.kernelEnd <= p && paEnd <= L.phystop
    requires lo == L.PageIndex(p) && n == PageCount(L, p, paEnd)
    requires forall i :: 0 <= i < |s.refc| && lo <= i < lo + n ==> s.refc[i] <= 1
    requires FreeFrom(L, s, p, paEnd).Ok?
    ensures FreeFrom(L, s, p, paEnd).value.freelist == Reverse(Visits(L, p, paEnd)) + s.freelist
    decreases paEnd - p
  {
    var m := L.pgsize;
    LoopStep(L, p, paEnd);
    if p + m <= paEnd {
      var i0 := L.WhichPg(p);
      assert i0 == lo;
      var t1 := State([p] + s.freelist, s.refc[i0 := s.refc[i0] - 1], s.content[i0 := Junk1]);
      FreeStep(L, s, p, paEnd);
      NextPageAligned(L, p);
      forall i | 0 <= i < |t1.refc| && lo + 1 <= i < lo + n
        ensures t1.refc[i] <= 1
      {
        assert t1.refc[i] == s.refc[i];
      }
      CoverageList(L, t1, p + m, paEnd, lo + 1, n - 1);
      ListStep(L, s, p, paEnd);
    } else {
      assert Visits(L, p, paEnd) == [];
      assert Reverse(Visits(L, p, paEnd)) + s.freelist == s.freelist;
    }
  }

  /** One iteration of the loop on a page with at most one reference: the
      page is pushed and junk-filled, and the loop goes on from the next page. */
  lemma FreeStep(L: Layout, s: State, p: nat, paEnd: nat)
    requires Wf(L, s) && L.Freeable(p) && p + L.pgsize <= paEnd && s.refc[L.WhichPg(p)] <= 1
    ensures var i := L.WhichPg(p);
      FreeFrom(L, s, p, paEnd) ==
      FreeFrom(L, State([p] + s.freelist, s.refc[i := s.refc[i] - 1], s.content[i := Junk1]), p + L.pgsize, paEnd)
  {
  }

  /** One iteration of the loop, for the free list alone: if the rest of
      the loop stacks the later pages on top of the list with `p` pushed,
      the whole loop stacks all visited pages on top of the old list. */
  lemma ListStep(L: Layout, s: State, p: nat, paEnd: nat)
    requires Wf(L, s) && L.Freeable(p) && p + L.pgsize <= paEnd && s.refc[L.WhichPg(p)] <= 1
    requires var i := L.WhichPg(p);
      var t1 := State([p] + s.freelist, s.refc[i := s.refc[i] - 1], s.content[i := Junk1]);
      && FreeFrom(L, t1, p + L.pgsize, paEnd).Ok?
      && FreeFrom(L, t1, p + L.pgsize, paEnd).value.freelist
         == Reverse(Visits(L, p + L.pgsize, paEnd)) + t1.freelist
    ensures FreeFrom(L, s, p, paEnd).Ok?
    ensures FreeFrom(L, s, p, paEnd).value.freelist == Reverse(Visits(L, p, paEnd)) + s.freelist
  {
    FreeStep(L, s, p, paEnd);
    ReverseVisitsStep(L, p, paEnd);
    var rest := Reverse(Visits(L, p + L.pgsize, paEnd));
    assert rest + ([p] + s.freelist) == (rest + [p]) + s.freelist;
  }

  /** Reversed, the visits from `p` are the visits from the next page
      followed by `p`. */
  lemma ReverseVisitsStep(L: Layout, p: nat, paEnd: nat)
    requires L.Valid() && p + L.pgsize <= paEnd
    ensures Reverse(Visits(L, p, paEnd)) == Reverse(Visits(L, p + L.pgsize, paEnd)) + [p]
  {
    var rest := Visits(L, p + L.pgsize, paEnd);
    assert Visits(L, p, paEnd) == [p] + rest;
    assert ([p] + rest)[1..] == rest;
  }

  lemma NextPageAligned(L: Layout, p: nat)
    requires L.Valid() && p % L.pgsize == 0
    ensures (p + L.pgsize) % L.pgsize == 0
  {
    var m := L.pgsize;
    MultipleMod(p / m + 1, m);
    DivBounds(p, m);
    assert p + m == (p / m + 1) * m;
  }

  /** kinit leaves every page from PGROUNDUP(end) up to PHYSTOP on the free
      list with count -1, highest address first, and no other page; the
      resulting state satisfies the free-list invariant. */
  lemma KinitPool(L: Layout, content: seq<PageContent>)
    requires L.Valid() && |content| == L.NPages()
    ensures Kinit(L, content).Ok?
    ensures var t, p := Kinit(L, content).value, L.PgRoundUp(L.kernelEnd);
      && Inv(L, t)
      && t.freelist == Reverse(Visits(L, p, L.phystop))
      && (forall k :: 0 <= k < |t.freelist| ==> Count(L, t, t.freelist[k]) == -1)
      && (forall i :: 0 <= i < L.NPages() ==> t.refc[i] == if Visited(L, p, L.phystop, i) then -1 else 0)
  {
    var s := Boot(L, content);
    var p := L.PgRoundUp(L.kernelEnd);
    FreeFromCoverage(L, s, p, L.phystop);
    var t := Kinit(L, content).value;
    assert t.freelist == Reverse(Visits(L, p, L.phystop));
    assert forall i :: 0 <= i < L.NPages() ==> t.refc[i] == if Visited(L, p, L.phystop, i) then -1 else 0;
    ListedCounts(L, t, p);
    ReverseVisitsNoDup(L, p, L.phystop);
  }

  /** A state whose free list is the reversed visits from `p` to PHYSTOP and
      whose visited slots hold -1 has every listed page at count -1. */
  lemma ListedCounts(L: Layout, t: State, p: nat)
    requires Wf(L, t) && p % L.pgsize == 0 && L.kernelEnd <= p
    requires t.freelist == Reverse(Visits(L, p, L.phystop))
    requires forall i :: 0 <= i < L.NPages() && Visited(L, p, L.phystop, i) ==> t.refc[i] == -1
    ensures forall k :: 0 <= k < |t.freelist| ==> Count(L, t, t.freelist[k]) == -1
  {
    var vs := Visits(L, p, L.phystop);
    var n := |vs|;
    VisitsShape(L, p, L.phystop);
    forall k | 0 <= k < n
      ensures Count(L, t, t.freelist[k]) == -1
    {
      VisitsSlots(L, p, L.phystop, n - 1 - k);
      assert t.freelist[k] == vs[n - 1 - k];
      assert Visited(L, p, L.phystop, L.WhichPg(vs[n - 1 - k]));
    }
  }

  /** freerange visits each address once, so the pushed list has no duplicates. */
  lemma ReverseVisitsNoDup(L: Layout, p: nat, paEnd: nat)
    requires L.Valid() && L.kernbase <= p
    ensures NoDup(Reverse(Visits(L, p, paEnd)))
  {
    var vs := Visits(L, p, paEnd);
    var rs := Reverse(vs);
    var n := |vs|;
    VisitsShape(L, p, paEnd);
    forall j, k | 0 <= j < k < n
      ensures rs[j] != rs[k]
    {
      assert rs[j] == p + (n - 1 - j) * L.pgsize;
      assert rs[k] == p + (n - 1 - k) * L.pgsize;
      OffsetsDistinct(p, n - 1 - k, n - 1 - j, L.pgsize);
    }
  }

  lemma OffsetsDistinct(p: nat, a: nat, b: nat, m: nat)
    requires 0 < m && a < b
    ensures p + a * m < p + b * m
  {
    MulMono(a + 1, b, m);
    assert (a + 1) * m == a * m + m;
  }

  /** `n` successive calls of kalloc: the addresses returned, in order, and
      the state afterwards. */
  function KallocN(L: Layout, s: State, n: nat): (r: (seq<nat>, State))
    requires Wf(L, s)
    ensures Wf(L, r.1)
    ensures |r.0| == n
    decreases n
  {
    if n == 0 then ([], s)
    else
      var before := KallocN(L, s, n - 1);
      var a := Kalloc(L, before.1);
      (before.0 + [a.page], a.state)
  }

  /** Draining the pool: `n` calls of kalloc return the first `n` free-list
      entries in order and leave the rest. */
  lemma {:induction false} KallocDrain(L: Layout, s: State, n: nat)
    requires Wf(L, s) && n <= |s.freelist|
    ensures KallocN(L, s, n).0 == s.freelist[..n]
    ensures KallocN(L, s, n).1.freelist == s.freelist[n..]
  {
    if n > 0 {
      KallocDrain(L, s, n - 1);
      assert s.freelist[..n] == s.freelist[..n - 1] + [s.freelist[n - 1]];
    }
  }

  /** Once the whole free list has been handed out, kalloc returns 0. */
  lemma KallocExhausted(L: Layout, s: State)
    requires Wf(L, s)
    ensures KallocN(L, s, |s.freelist| + 1).0 == s.freelist + [0]
  {
    KallocDrain(L, s, |s.freelist|);
    assert s.freelist[..|s.freelist|] == s.freelist;
  }

  /** Four managed pages: kinit, four allocations return four distinct
      addresses, a fifth returns 0, and after one of the four is freed the
      next allocation returns it. */
  lemma FourPageScenario(content: seq<PageContent>)
    requires |content| == 5
    ensures var L := Layout(4, 24, 4, 6);
      && Kinit(L, content).Ok?
      && var allocs := KallocN(L, Kinit(L, content).value, 5);
      && allocs.0 == [20, 16, 12, 8, 0]
      && Kfree(L, allocs.1, 12).Ok?
      && Kalloc(L, Kfree(L, allocs.1, 12).value).page == 12
  {
    var L := Layout(4, 24, 4, 6);
    assert L.Valid();
    assert L.PgRoundUp(6) == 8;
    KinitPool(L, content);
    var t := Kinit(L, content).value;
    assert Visits(L, 8, 24) == [8, 12, 16, 20];
    assert t.freelist == [20, 16, 12, 8];
    KallocDrain(L, t, 4);
    KallocExhausted(L, t);
    var allocs := KallocN(L, t, 5);
    assert allocs.1 == Kalloc(L, KallocN(L, t, 4).1).state;
    KallocInv(L, KallocN(L, t, 4).1);
    assert Count(L, allocs.1, 12) == 1;
    KfreeThenKalloc(L, allocs.1, 12);
  }
}
