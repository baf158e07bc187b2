/** The allocator's sequential state and its operations: ref_up, ref_down,
    kfree, kalloc and cowallloc, each as a pure transition on an immutable
    state. Locks are left out; every operation is its effect as one step. */
module PageAllocator {
  import opened MemLayout
  import opened Results

  /** What a page holds, abstractly: the fill byte kfree writes (1), the fill
      byte kalloc writes (5), or data some owner wrote into it. */
  datatype PageContent = Junk1 | Junk5 | Data(id: nat)

  /** `freelist` is kmem.freelist read from the head; `refc` is `refcounts`;
      `content` is the contents of each page, by the same index. */
  datatype State = State(freelist: seq<nat>, refc: seq<int>, content: seq<PageContent>)

  /** A result of kalloc: the state afterwards and the returned address,
      0 when the pool was empty. */
  datatype Alloc = Alloc(state: State, page: nat)

  /** The shape every reachable state has: both tables have one slot per
      page, and everything on the free list got there through kfree's guard. */
  predicate Wf(L: Layout, s: State) {
    && L.Valid()
    && |s.refc| == L.NPages()
    && |s.content| == L.NPages()
    && forall k :: 0 <= k < |s.freelist| ==> L.Freeable(s.freelist[k])
  }

  /** The reference count of the page holding `pa`. */
  function Count(L: Layout, s: State, pa: nat): int
    requires Wf(L, s) && L.Managed(pa)
  {
    s.refc[L.WhichPg(pa)]
  }

  /** ref_up: one more owner of the page holding `pa`. The source does not
      range-check `pa`, so the caller must pass a managed address. */
  function RefUp(L: Layout, s: State, pa: nat): (r: State)
    requires Wf(L, s) && L.Managed(pa)
    ensures Wf(L, r)
    ensures Count(L, r, pa) == Count(L, s, pa) + 1
    ensures forall i :: 0 <= i < |s.refc| && i != L.WhichPg(pa) ==> r.refc[i] == s.refc[i]
    ensures r.freelist == s.freelist && r.content == s.content
  {
    var i := L.WhichPg(pa);
    s.(refc := s.refc[i := s.refc[i] + 1])
  }

  /** ref_down: one owner fewer. It never frees the page, even at zero. */
  function RefDown(L: Layout, s: State, pa: nat): (r: State)
    requires Wf(L, s) && L.Managed(pa)
    ensures Wf(L, r)
    ensures Count(L, r, pa) == Count(L, s, pa) - 1
    ensures forall i :: 0 <= i < |s.refc| && i != L.WhichPg(pa) ==> r.refc[i] == s.refc[i]
    ensures r.freelist == s.freelist && r.content == s.content
  {
    var i := L.WhichPg(pa);
    s.(refc := s.refc[i := s.refc[i] - 1])
  }

  /** kfree: panics on an address outside its guard; otherwise drops one
      reference and, when none is left, junk-fills the page and pushes it. */
  function Kfree(L: Layout, s: State, pa: nat): (r: Result<State>)
    requires Wf(L, s)
    ensures r.Panic? <==> !L.Freeable(pa)
    ensures r.Panic? ==> r.msg == "kfree"
    ensures r.Ok? ==> Wf(L, r.value)
    ensures r.Ok? ==>
      var i := L.WhichPg(pa);
      && r.value.refc == s.refc[i := s.refc[i] - 1]
      && (if s.refc[i] <= 1
          then r.value.freelist == [pa] + s.freelist && r.value.content == s.content[i := Junk1]
          else r.value.freelist == s.freelist && r.value.content == s.content)
  {
    if !L.Freeable(pa) then
      Panic("kfree")
    else
      var i := L.WhichPg(pa);
      var refc := s.refc[i := s.refc[i] - 1];
      if refc[i] <= 0 then
        Ok(State([pa] + s.freelist, refc, s.content[i := Junk1]))
      else
        Ok(State(s.freelist, refc, s.content))
  }

  /** kalloc: pops the head of the free list, junk-fills it and sets its
      count to 1, whatever stale value it held; 0 when the pool is empty. */
  function Kalloc(L: Layout, s: State): (r: Alloc)
    requires Wf(L, s)
    ensures Wf(L, r.state)
    ensures r.page == 0 <==> s.freelist == []
    ensures s.freelist == [] ==> r.state == s
    ensures s.freelist != [] ==>
      && r.page == s.freelist[0]
      && r.state.freelist == s.freelist[1..]
      && Count(L, r.state, r.page) == 1
      && r.state.refc == s.refc[L.WhichPg(r.page) := 1]
      && r.state.content == s.content[L.WhichPg(r.page) := Junk5]
  {
    if s.freelist == [] then
      Alloc(s, 0)
    else
      var p := s.freelist[0];
      var i := L.WhichPg(p);
      Alloc(State(s.freelist[1..], s.refc[i := 1], s.content[i := Junk5]), p)
  }

  /** cowallloc (the source's spelling): a page the caller may write
      privately. An unshared page is returned as is; a shared one is copied
      into a fresh page from kalloc and loses one reference. Running out of
      pages panics. The caller passes a page-aligned address. */
  function Cowallloc(L: Layout, s: State, pa: nat): (r: Result<Alloc>)
    requires Wf(L, s) && L.Managed(pa) && pa % L.pgsize == 0
    ensures r.Panic? <==> Count(L, s, pa) > 1 && s.freelist == []
    ensures r.Panic? ==> r.msg == "oom!"
    ensures Count(L, s, pa) <= 1 ==> r == Ok(Alloc(s, pa))
    ensures r.Ok? ==> Wf(L, r.value.state)
    ensures r.Ok? && Count(L, s, pa) > 1 ==>
      && r.value.page == s.freelist[0]
      && r.value.state.freelist == s.freelist[1..]
    ensures r.Ok? && Count(L, s, pa) > 1 ==>
      var i, j := L.WhichPg(pa), L.WhichPg(s.freelist[0]);
      i != j ==>
        && r.value.state.refc == s.refc[j := 1][i := s.refc[i] - 1]
        && r.value.state.content == s.content[j := s.content[i]]
  {
    var i := L.WhichPg(pa);
    if s.refc[i] <= 1 then
      Ok(Alloc(s, pa))
    else
      var a := Kalloc(L, s);
      if a.page == 0 then
        Panic("oom!")
      else
        var j := L.WhichPg(a.page);
        var t := a.state;
        Ok(Alloc(State(t.freelist, t.refc[i := t.refc[i] - 1], t.content[j := t.content[i]]), a.page))
  }
}
