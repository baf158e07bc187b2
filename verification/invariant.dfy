/** The invariant tying the free list to the reference counts, which pages
    on the list are unowned, and the operations that keep it. */
module FreeListInvariant {
  import opened MemLayout
  import opened Results
  import opened PageAllocator

  /** No address is on the free list twice. kfree does not check this. */
  predicate NoDup(fl: seq<nat>) {
    forall j, k :: 0 <= j < k < |fl| ==> fl[j] != fl[k]
  }

  /** Every page on the free list has a count of at most zero. */
  predicate ListedUnowned(L: Layout, s: State)
    requires Wf(L, s)
  {
    forall k :: 0 <= k < |s.freelist| ==> Count(L, s, s.freelist[k]) <= 0
  }

  /** The page holding `pa` is on the free list. */
  predicate OnFreeList(L: Layout, s: State, pa: nat)
    requires Wf(L, s) && L.Managed(pa)
  {
    exists k :: 0 <= k < |s.freelist| && L.WhichPg(s.freelist[k]) == L.WhichPg(pa)
  }

  predicate Inv(L: Layout, s: State) {
    Wf(L, s) && NoDup(s.freelist) && ListedUnowned(L, s)
  }

  /** For a page boundary, sharing a slot with a listed address is being
      listed: the two notions of "on the free list" agree. */
  lemma OnFreeListIff(L: Layout, s: State, pa: nat)
    requires Wf(L, s) && L.Managed(pa) && pa % L.pgsize == 0
    ensures OnFreeList(L, s, pa) <==> pa in s.freelist
  {
    if OnFreeList(L, s, pa) {
      var k :| 0 <= k < |s.freelist| && L.WhichPg(s.freelist[k]) == L.WhichPg(pa);
      L.WhichPgInjective(s.freelist[k], pa);
    }
    if pa in s.freelist {
      var k :| 0 <= k < |s.freelist| && s.freelist[k] == pa;
      assert L.WhichPg(s.freelist[k]) == L.WhichPg(pa);
    }
  }

  /** Under the invariant, an owned page is not on the free list. */
  lemma OwnedNotListed(L: Layout, s: State, pa: nat)
    requires Inv(L, s) && L.Managed(pa) && Count(L, s, pa) > 0
    ensures !OnFreeList(L, s, pa)
    ensures pa !in s.freelist
  {
  }

  /** Two different addresses on the free list use different slots. */
  lemma ListedSlotsDistinct(L: Layout, s: State, j: nat, k: nat)
    requires Wf(L, s) && NoDup(s.freelist)
    requires j < |s.freelist| && k < |s.freelist| && j != k
    ensures L.WhichPg(s.freelist[j]) != L.WhichPg(s.freelist[k])
  {
    L.WhichPgInjective(s.freelist[j], s.freelist[k]);
  }

  /** kfree keeps the invariant exactly when the page is not already on the
      free list; freeing a listed page (a double free) pushes it again. */
  lemma KfreeInv(L: Layout, s: State, pa: nat)
    requires Inv(L, s) && L.Freeable(pa)
    ensures Kfree(L, s, pa).Ok?
    ensures Inv(L, Kfree(L, s, pa).value) <==> pa !in s.freelist
  {
    var t := Kfree(L, s, pa).value;
    var i := L.WhichPg(pa);
    if pa in s.freelist {
      var k :| 0 <= k < |s.freelist| && s.freelist[k] == pa;
      assert Count(L, s, s.freelist[k]) <= 0;
      assert t.freelist[0] == t.freelist[k + 1];
    } else {
      forall k | 0 <= k < |t.freelist|
        ensures Count(L, t, t.freelist[k]) <= 0
      {
        var e := t.freelist[k];
        if L.WhichPg(e) != i {
          assert Count(L, t, e) == Count(L, s, e);
          assert e in s.freelist;
        }
      }
      if s.refc[i] <= 1 {
        forall j, k | 0 <= j < k < |t.freelist|
          ensures t.freelist[j] != t.freelist[k]
        {
          if j == 0 {
            assert t.freelist[k] == s.freelist[k - 1];
          } else {
            assert t.freelist[j] == s.freelist[j - 1] && t.freelist[k] == s.freelist[k - 1];
          }
        }
      }
    }
  }

  /** kalloc keeps the invariant and never hands out a page that is still
      on the free list afterwards. */
  lemma KallocInv(L: Layout, s: State)
    requires Inv(L, s)
    ensures Inv(L, Kalloc(L, s).state)
    ensures Kalloc(L, s).page != 0 ==> Kalloc(L, s).page !in Kalloc(L, s).state.freelist
  {
    if s.freelist != [] {
      var a := Kalloc(L, s);
      var t := a.state;
      forall k | 0 <= k < |t.freelist|
        ensures Count(L, t, t.freelist[k]) <= 0
      {
        assert t.freelist[k] == s.freelist[k + 1];
        ListedSlotsDistinct(L, s, 0, k + 1);
        assert Count(L, s, s.freelist[k + 1]) <= 0;
      }
    }
  }

  /** ref_down keeps the invariant: counts only go down. */
  lemma RefDownInv(L: Layout, s: State, pa: nat)
    requires Inv(L, s) && L.Managed(pa)
    ensures Inv(L, RefDown(L, s, pa))
  {
    var t := RefDown(L, s, pa);
    forall k | 0 <= k < |t.freelist|
      ensures Count(L, t, t.freelist[k]) <= 0
    {
      assert Count(L, s, s.freelist[k]) <= 0;
    }
  }

  /** ref_up keeps the invariant exactly when the page is not on the free
      list or its count stays non-positive. */
  lemma RefUpInv(L: Layout, s: State, pa: nat)
    requires Inv(L, s) && L.Managed(pa)
    ensures Inv(L, RefUp(L, s, pa)) <==> !OnFreeList(L, s, pa) || Count(L, s, pa) < 0
  {
    var t := RefUp(L, s, pa);
    var i := L.WhichPg(pa);
    if !OnFreeList(L, s, pa) || Count(L, s, pa) < 0 {
      forall k | 0 <= k < |t.freelist|
        ensures Count(L, t, t.freelist[k]) <= 0
      {
        assert Count(L, s, s.freelist[k]) <= 0;
      }
    } else {
      var k :| 0 <= k < |s.freelist| && L.WhichPg(s.freelist[k]) == i;
      assert Count(L, s, s.freelist[k]) <= 0;
      assert Count(L, t, t.freelist[k]) == 1;
    }
  }

  /** On a shared page, under the invariant, cowallloc copies into a page
      different from `pa`: the former free-list head, now owned once, holding
      the contents of `pa`, while `pa` loses one reference. */
  lemma CowalllocShared(L: Layout, s: State, pa: nat)
    requires Inv(L, s) && L.Managed(pa) && pa % L.pgsize == 0
    requires Count(L, s, pa) > 1 && s.freelist != []
    ensures Cowallloc(L, s, pa).Ok?
    ensures var a := Cowallloc(L, s, pa).value;
      && a.page == s.freelist[0]
      && a.page != pa
      && a.state.freelist == s.freelist[1..]
      && Count(L, a.state, a.page) == 1
      && Count(L, a.state, pa) == Count(L, s, pa) - 1
      && a.state.content[L.WhichPg(a.page)] == s.content[L.WhichPg(pa)]
      && (forall i :: 0 <= i < |s.refc| && i != L.WhichPg(pa) && i != L.WhichPg(a.page) ==>
            a.state.refc[i] == s.refc[i] && a.state.content[i] == s.content[i])
  {
    assert Count(L, s, s.freelist[0]) <= 0;
  }

  /** cowallloc keeps the invariant whenever it returns. */
  lemma CowalllocInv(L: Layout, s: State, pa: nat)
    requires Inv(L, s) && L.Managed(pa) && pa % L.pgsize == 0
    requires Cowallloc(L, s, pa).Ok?
    ensures Inv(L, Cowallloc(L, s, pa).value.state)
  {
    if Count(L, s, pa) > 1 {
      var t := Cowallloc(L, s, pa).value.state;
      var i := L.WhichPg(pa);
      assert Count(L, s, s.freelist[0]) <= 0;
      forall k | 0 <= k < |t.freelist|
        ensures Count(L, t, t.freelist[k]) <= 0
      {
        assert t.freelist[k] == s.freelist[k + 1];
        ListedSlotsDistinct(L, s, 0, k + 1);
        assert Count(L, s, s.freelist[k + 1]) <= 0;
      }
    }
  }

  /** LIFO: a kfree that releases the last reference of a page not already
      listed, followed by kalloc, hands the same page back with the free list
      as it was before. */
  lemma KfreeThenKalloc(L: Layout, s: State, pa: nat)
    requires Wf(L, s) && L.Freeable(pa) && Count(L, s, pa) <= 1 && pa !in s.freelist
    ensures Kfree(L, s, pa).Ok?
    ensures var i := L.WhichPg(pa);
      Kalloc(L, Kfree(L, s, pa).value) == Alloc(State(s.freelist, s.refc[i := 1], s.content[i := Junk5]), pa)
  {
    var i := L.WhichPg(pa);
    var t := Kfree(L, s, pa).value;
    assert t.freelist[1..] == s.freelist;
    assert t.refc[i := 1] == s.refc[i := 1];
    assert t.content[i := Junk5] == s.content[i := Junk5];
  }

  /** The other way round: freeing a freshly allocated page puts it back at
      the head of the free list with a count of zero. */
  lemma KallocThenKfree(L: Layout, s: State)
    requires Wf(L, s) && s.freelist != []
    ensures var a := Kalloc(L, s);
      var i := L.WhichPg(a.page);
      Kfree(L, a.state, a.page) == Ok(State(s.freelist, s.refc[i := 0], s.content[i := Junk1]))
  {
    var a := Kalloc(L, s);
    var i := L.WhichPg(a.page);
    assert [a.page] + a.state.freelist == s.freelist;
    assert a.state.refc[i := 0] == s.refc[i := 0];
    assert a.state.content[i := Junk1] == s.content[i := Junk1];
  }
}
