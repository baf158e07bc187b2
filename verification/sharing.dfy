/** Copy-on-write sharing as the virtual-memory layer drives it: extra
    references taken with ref_up, released with kfree, and what happens when
    the callers break the discipline the allocator does not check. */
module CowSharing {
  import opened MemLayout
  import opened Results
  import opened PageAllocator
  import opened FreeListInvariant

  /** `n` calls of ref_up on `pa`. */
  function RefUpTimes(L: Layout, s: State, pa: nat, n: nat): (r: State)
    requires Wf(L, s) && L.Managed(pa)
    ensures Wf(L, r)
    decreases n
  {
    if n == 0 then s else RefUpTimes(L, RefUp(L, s, pa), pa, n - 1)
  }

  /** `n` calls of kfree on `pa`, stopping at the first panic. */
  function KfreeTimes(L: Layout, s: State, pa: nat, n: nat): (r: Result<State>)
    requires Wf(L, s)
    ensures r.Ok? ==> Wf(L, r.value)
    decreases n
  {
    if n == 0 then Ok(s)
    else
      match Kfree(L, s, pa)
      case Panic(m) => Panic(m)
      case Ok(t) => KfreeTimes(L, t, pa, n - 1)
  }

  /** ref_up `n` times raises the count by `n` and touches nothing else. */
  lemma {:induction false} RefUpTimesCount(L: Layout, s: State, pa: nat, n: nat)
    requires Wf(L, s) && L.Managed(pa)
    ensures var i := L.WhichPg(pa);
      RefUpTimes(L, s, pa, n) == s.(refc := s.refc[i := s.refc[i] + n])
    decreases n
  {
    if n > 0 {
      var i := L.WhichPg(pa);
      var s1 := RefUp(L, s, pa);
      RefUpTimesCount(L, s1, pa, n - 1);
      assert s1.refc[i := s1.refc[i] + (n - 1)] == s.refc[i := s.refc[i] + n];
    }
  }

  /** Releasing the `n + 1` references of an unlisted page held `n + 1` times: the
      first `n` kfree calls only count down, the last one junk-fills the page
      and pushes it, once, onto the free list with a count of zero. */
  lemma {:induction false} KfreeTimesRelease(L: Layout, s: State, pa: nat, n: nat)
    requires Wf(L, s) && L.Freeable(pa) && Count(L, s, pa) == n + 1 && pa !in s.freelist
    ensures var i := L.WhichPg(pa);
      KfreeTimes(L, s, pa, n + 1) == Ok(State([pa] + s.freelist, s.refc[i := 0], s.content[i := Junk1]))
    decreases n
  {
    var i := L.WhichPg(pa);
    var t := Kfree(L, s, pa).value;
    if n > 0 {
      assert t == State(s.freelist, s.refc[i := n], s.content);
      KfreeTimesRelease(L, t, pa, n - 1);
      assert t.refc[i := 0] == s.refc[i := 0];
    }
  }

  /** An owned page shared `n` more times and then freed `n + 1` times goes
      back to the pool exactly once, keeps the invariant, and is the next
      page kalloc returns. */
  lemma ShareThenRelease(L: Layout, s: State, pa: nat, n: nat)
    requires Inv(L, s) && L.Freeable(pa) && Count(L, s, pa) == 1
    ensures KfreeTimes(L, RefUpTimes(L, s, pa, n), pa, n + 1).Ok?
    ensures var t := KfreeTimes(L, RefUpTimes(L, s, pa, n), pa, n + 1).value;
      && t.freelist == [pa] + s.freelist
      && Count(L, t, pa) == 0
      && Inv(L, t)
      && Kalloc(L, t).page == pa
  {
    var i := L.WhichPg(pa);
    RefUpTimesCount(L, s, pa, n);
    var s1 := RefUpTimes(L, s, pa, n);
    OwnedNotListed(L, s, pa);
    KfreeTimesRelease(L, s1, pa, n);
    assert s1.refc[i := 0] == s.refc[i := 0];
    KfreeInv(L, s, pa);
    assert Kfree(L, s, pa).value == KfreeTimes(L, s1, pa, n + 1).value;
  }

  /** Without the invariant, cowallloc can copy a page onto itself: if a
      shared page's address is still the free-list head (ref_up on a free
      page), kalloc returns that same page, junk-fills it, and the decrement
      leaves it with count 0 while the caller believes it owns it. */
  lemma CowalllocOnListedHead(L: Layout, s: State, pa: nat)
    requires Wf(L, s) && L.Managed(pa) && pa % L.pgsize == 0
    requires s.freelist != [] && s.freelist[0] == pa && Count(L, s, pa) > 1
    ensures Cowallloc(L, s, pa).Ok?
    ensures var a := Cowallloc(L, s, pa).value;
      && a.page == pa
      && Count(L, a.state, pa) == 0
      && a.state.content[L.WhichPg(pa)] == Junk5
  {
  }
}
