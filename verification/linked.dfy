/** The free list as the C code keeps it: kmem.freelist points at the first
    free page, and the first word of every free page (the `next` field of
    `struct run`) points at the following one, NULL (0) at the end. kfree and
    kalloc overwrite that word with their memsets. This module shows that the
    sequence PageAllocator keeps is exactly the chain those words spell out,
    as long as no page already on the list is freed again, and what the
    words do when one is. */
module LinkedFreeList {
  import opened MemLayout
  import opened Results
  import opened PageAllocator
  import opened FreeListInvariant
  import opened PoolSeeding

  /** The first word of a page after kalloc's memset(r, 5, PGSIZE). */
  const Fill5: nat := 0x0505_0505_0505_0505

  /** kmem.freelist, the first 8-byte word of every page (by `refcounts`
      slot), and the counts and contents as PageAllocator keeps them. */
  datatype Mem = Mem(head: nat, word: seq<nat>, refc: seq<int>, content: seq<PageContent>)

  /** What kalloc does when it follows the head: the state afterwards and the
      page returned (0 for NULL), or `Wild(a)` when the head `a` is not a page
      boundary in [KERNBASE, PHYSTOP), so the `next` word it reads is memory
      this model does not track (the C behaviour there is undefined). */
  datatype Taken = Got(mem: Mem, page: nat) | Wild(addr: nat)

  predicate MemWf(L: Layout, m: Mem) {
    && L.Valid()
    && |m.word| == L.NPages()
    && |m.refc| == L.NPages()
    && |m.content| == L.NPages()
  }

  /** A page boundary whose first word the model tracks. */
  predicate Tracked(L: Layout, a: nat)
    requires L.Valid()
  {
    L.Managed(a) && a % L.pgsize == 0
  }

  /** kfree on the linked state: the memset and then `r->next = kmem.freelist`
      store the old head in the page's first word. */
  function LinkedKfree(L: Layout, m: Mem, pa: nat): (r: Result<Mem>)
    requires MemWf(L, m)
    ensures r.Panic? <==> !L.Freeable(pa)
    ensures r.Ok? ==> MemWf(L, r.value)
    ensures r.Ok? && r.value.head != m.head ==> r.value.head == pa
  {
    if !L.Freeable(pa) then
      Panic("kfree")
    else
      var i := L.WhichPg(pa);
      var refc := m.refc[i := m.refc[i] - 1];
      if refc[i] <= 0 then
        Ok(Mem(pa, m.word[i := m.head], refc, m.content[i := Junk1]))
      else
        Ok(m.(refc := refc))
  }

  /** kalloc on the linked state: `kmem.freelist = r->next` reads the head
      page's first word before the memset overwrites it with `Fill5`. */
  function LinkedKalloc(L: Layout, m: Mem): (r: Taken)
    requires MemWf(L, m)
    ensures r.Wild? <==> m.head != 0 && !Tracked(L, m.head)
    ensures r.Got? ==> MemWf(L, r.mem)
    ensures r.Got? ==> r.page == m.head
    ensures r.Got? && r.page != 0 ==> Tracked(L, r.page)
  {
    if m.head == 0 then
      Got(m, 0)
    else if !Tracked(L, m.head) then
      Wild(m.head)
    else
      var i := L.WhichPg(m.head);
      Got(Mem(m.word[i], m.word[i := Fill5], m.refc[i := 1], m.content[i := Junk5]), m.head)
  }

  /** cowallloc on the linked state: the page-sized memmove copies the first
      word along with the rest of the page. */
  function LinkedCowallloc(L: Layout, m: Mem, pa: nat): (r: Result<Taken>)
    requires MemWf(L, m) && L.Managed(pa) && pa % L.pgsize == 0
    ensures r.Panic? ==> r.msg == "oom!"
    ensures m.refc[L.WhichPg(pa)] <= 1 ==> r == Ok(Got(m, pa))
    ensures r.Ok? && r.value.Got? ==> MemWf(L, r.value.mem)
  {
    var i := L.WhichPg(pa);
    if m.refc[i] <= 1 then
      Ok(Got(m, pa))
    else
      match LinkedKalloc(L, m)
      case Wild(a) => Ok(Wild(a))
      case Got(t, page) =>
        if page == 0 then
          Panic("oom!")
        else
          var j := L.WhichPg(page);
          Ok(Got(Mem(t.head, t.word[j := t.word[i]], t.refc[i := t.refc[i] - 1], t.content[j := t.content[i]]), page))
  }

  /** The loop of freerange on the linked state. */
  function LinkedFreeFrom(L: Layout, m: Mem, p: nat, paEnd: nat): (r: Result<Mem>)
    requires MemWf(L, m)
    ensures r.Ok? ==> MemWf(L, r.value)
    ensures r.Panic? ==> r.msg == "kfree"
    decreases paEnd - p
  {
    if p + L.pgsize <= paEnd then
      match LinkedKfree(L, m, p)
      case Panic(e) => Panic(e)
      case Ok(t) => LinkedFreeFrom(L, t, p + L.pgsize, paEnd)
    else
      Ok(m)
  }

  /** kinit on the linked state: kmem.freelist starts NULL, every count 0,
      and the first words of the pages hold whatever memory held at boot. */
  function LinkedKinit(L: Layout, word: seq<nat>, content: seq<PageContent>): (r: Result<Mem>)
    requires L.Valid() && |word| == L.NPages() && |content| == L.NPages()
    ensures r.Ok? ==> MemWf(L, r.value)
    ensures r.Panic? ==> r.msg == "kfree"
  {
    LinkedFreeFrom(L, Mem(0, word, seq(L.NPages(), _ => 0), content), L.PgRoundUp(L.kernelEnd), L.phystop)
  }

  /** The first `n` addresses reached from `a` by following first words,
      stopping at NULL or at an address the model does not track. */
  function Walk(L: Layout, word: seq<nat>, a: nat, n: nat): seq<nat>
    requires L.Valid() && |word| == L.NPages()
    decreases n
  {
    if n == 0 || a == 0 || !Tracked(L, a) then [] else [a] + Walk(L, word, word[L.WhichPg(a)], n - 1)
  }

  /** `fl` is the list the words spell out: the head is its first entry (NULL
      when empty), and each entry's first word holds the next entry, the
      last one NULL. */
  predicate Chain(L: Layout, head: nat, word: seq<nat>, fl: seq<nat>)
    requires L.Valid() && |word| == L.NPages()
  {
    && (forall k :: 0 <= k < |fl| ==> L.Freeable(fl[k]))
    && head == At(fl, 0)
    && (forall k :: 0 <= k < |fl| ==> word[L.WhichPg(fl[k])] == At(fl, k + 1))
  }

  /** The linked state `m` is the sequence state `s` with its list laid out
      in memory. */
  predicate Represents(L: Layout, m: Mem, s: State) {
    && MemWf(L, m)
    && Wf(L, s)
    && m.refc == s.refc
    && m.content == s.content
    && Chain(L, m.head, m.word, s.freelist)
  }

  /** `c` is a closed loop of pages: each one's first word holds the next,
      and the last one's holds the first. */
  predicate Loop(L: Layout, word: seq<nat>, c: seq<nat>)
    requires L.Valid() && |word| == L.NPages()
  {
    && c != []
    && (forall j :: 0 <= j < |c| ==> Tracked(L, c[j]))
    && (forall j :: 0 <= j < |c| ==> word[L.WhichPg(c[j])] == c[Succ(c, j)])
  }

  /** The position after `j` around a loop of length |c|. */
  function Succ(c: seq<nat>, j: nat): (r: nat)
    requires j < |c|
    ensures r < |c|
  {
    if j + 1 < |c| then j + 1 else 0
  }

  /** The entry at position `j` of `fl`, NULL past the end. */
  function At(fl: seq<nat>, j: nat): nat {
    if j < |fl| then fl[j] else 0
  }

  /** Following the words from the head reads back exactly the chain and then
      stops at NULL: the chain is the list the C code walks. */
  lemma ChainIsWalk(L: Layout, head: nat, word: seq<nat>, fl: seq<nat>)
    requires L.Valid() && |word| == L.NPages() && Chain(L, head, word, fl)
    ensures Walk(L, word, head, |fl| + 1) == fl
  {
    ChainSuffixWalk(L, head, word, fl, 0, |fl| + 1);
  }

  lemma {:induction false} ChainSuffixWalk(L: Layout, head: nat, word: seq<nat>, fl: seq<nat>, j: nat, n: nat)
    requires L.Valid() && |word| == L.NPages() && Chain(L, head, word, fl)
    requires j <= |fl| && |fl| - j < n
    ensures Walk(L, word, At(fl, j), n) == fl[j..]
    decreases |fl| - j
  {
    if j < |fl| {
      var a := fl[j];
      assert L.Freeable(a);
      assert word[L.WhichPg(a)] == At(fl, j + 1);
      ChainSuffixWalk(L, head, word, fl, j + 1, n - 1);
      assert fl[j..] == [a] + fl[j + 1..];
    }
  }

  /** A walk that starts on a loop never leaves it. */
  lemma {:induction false} WalkStaysInLoop(L: Layout, word: seq<nat>, c: seq<nat>, j: nat, n: nat)
    requires L.Valid() && |word| == L.NPages() && Loop(L, word, c) && j < |c|
    ensures forall x :: x in Walk(L, word, c[j], n) ==> x in c
    decreases n
  {
    if n > 0 {
      assert Tracked(L, c[j]);
      assert word[L.WhichPg(c[j])] == c[Succ(c, j)];
      WalkStaysInLoop(L, word, c, Succ(c, j), n - 1);
    }
  }

  /** Writing the first word of a page that is not on the chain keeps the chain. */
  lemma ChainWriteElsewhere(L: Layout, head: nat, word: seq<nat>, fl: seq<nat>, i: nat, w: nat)
    requires L.Valid() && |word| == L.NPages() && Chain(L, head, word, fl) && i < |word|
    requires forall k :: 0 <= k < |fl| ==> L.WhichPg(fl[k]) != i
    ensures Chain(L, head, word[i := w], fl)
  {
  }

  /** kfree's push: an unlisted page whose first word takes the old head
      becomes the new head of the chain. */
  lemma ChainPush(L: Layout, head: nat, word: seq<nat>, fl: seq<nat>, pa: nat)
    requires L.Valid() && |word| == L.NPages() && Chain(L, head, word, fl)
    requires L.Freeable(pa)
    requires forall k :: 0 <= k < |fl| ==> L.WhichPg(fl[k]) != L.WhichPg(pa)
    ensures Chain(L, pa, word[L.WhichPg(pa) := head], [pa] + fl)
  {
    var fl' := [pa] + fl;
    var word' := word[L.WhichPg(pa) := head];
    forall k | 0 <= k < |fl'|
      ensures L.Freeable(fl'[k]) && word'[L.WhichPg(fl'[k])] == At(fl', k + 1)
    {
      if k > 0 {
        assert fl'[k] == fl[k - 1];
      }
    }
  }

  /** kalloc's pop: reading the head's first word yields the chain of the
      tail, and overwriting that word afterwards does not disturb it. */
  lemma ChainPop(L: Layout, head: nat, word: seq<nat>, s: State, w: nat)
    requires Wf(L, s) && |word| == L.NPages() && Chain(L, head, word, s.freelist)
    requires NoDup(s.freelist) && s.freelist != []
    ensures Chain(L, word[L.WhichPg(s.freelist[0])], word[L.WhichPg(s.freelist[0]) := w], s.freelist[1..])
  {
    var fl := s.freelist;
    var i := L.WhichPg(fl[0]);
    forall k | 0 <= k < |fl| - 1
      ensures L.WhichPg(fl[1..][k]) != i
      ensures word[L.WhichPg(fl[1..][k])] == At(fl[1..], k + 1)
    {
      ListedSlotsDistinct(L, s, 0, k + 1);
      assert fl[1..][k] == fl[k + 1];
    }
    assert Chain(L, word[i], word, fl[1..]);
    ChainWriteElsewhere(L, word[i], word, fl[1..], i, w);
  }

  /** Unlisted pages use slots no listed page uses. */
  lemma UnlistedSlot(L: Layout, s: State, pa: nat)
    requires Wf(L, s) && L.Freeable(pa) && pa !in s.freelist
    ensures forall k :: 0 <= k < |s.freelist| ==> L.WhichPg(s.freelist[k]) != L.WhichPg(pa)
  {
    forall k | 0 <= k < |s.freelist|
      ensures L.WhichPg(s.freelist[k]) != L.WhichPg(pa)
    {
      L.WhichPgInjective(s.freelist[k], pa);
    }
  }

  /** kfree of a page not on the list: the pointers follow the sequence. */
  lemma KfreeRefines(L: Layout, m: Mem, s: State, pa: nat)
    requires Represents(L, m, s) && pa !in s.freelist
    ensures LinkedKfree(L, m, pa).Ok? <==> Kfree(L, s, pa).Ok?
    ensures Kfree(L, s, pa).Ok? ==> Represents(L, LinkedKfree(L, m, pa).value, Kfree(L, s, pa).value)
  {
    if L.Freeable(pa) {
      var i := L.WhichPg(pa);
      var t := LinkedKfree(L, m, pa).value;
      var u := Kfree(L, s, pa).value;
      assert t.refc == u.refc && t.content == u.content;
      if s.refc[i] <= 1 {
        UnlistedSlot(L, s, pa);
        ChainPush(L, m.head, m.word, s.freelist, pa);
        assert t.head == pa && t.word == m.word[i := m.head] && u.freelist == [pa] + s.freelist;
      } else {
        assert t.head == m.head && t.word == m.word && u.freelist == s.freelist;
      }
    }
  }

  /** kalloc, on a list without repeats: the pointers follow the sequence. */
  lemma KallocRefines(L: Layout, m: Mem, s: State)
    requires Represents(L, m, s) && NoDup(s.freelist)
    ensures LinkedKalloc(L, m).Got?
    ensures LinkedKalloc(L, m).page == Kalloc(L, s).page
    ensures Represents(L, LinkedKalloc(L, m).mem, Kalloc(L, s).state)
  {
    if s.freelist != [] {
      assert L.Freeable(s.freelist[0]);
      ChainPop(L, m.head, m.word, s, Fill5);
    }
  }

  /** cowallloc, on a list without repeats: the pointers follow the sequence,
      including the `next` word the memmove copies into the new page. */
  lemma CowalllocRefines(L: Layout, m: Mem, s: State, pa: nat)
    requires Represents(L, m, s) && NoDup(s.freelist) && L.Managed(pa) && pa % L.pgsize == 0
    ensures LinkedCowallloc(L, m, pa).Panic? <==> Cowallloc(L, s, pa).Panic?
    ensures Cowallloc(L, s, pa).Ok? ==>
      && LinkedCowallloc(L, m, pa).value.Got?
      && LinkedCowallloc(L, m, pa).value.page == Cowallloc(L, s, pa).value.page
      && Represents(L, LinkedCowallloc(L, m, pa).value.mem, Cowallloc(L, s, pa).value.state)
  {
    var i := L.WhichPg(pa);
    if s.refc[i] > 1 && s.freelist != [] {
      assert L.Freeable(s.freelist[0]);
      var j := L.WhichPg(s.freelist[0]);
      ChainPop(L, m.head, m.word, s, m.word[i := Fill5][i]);
      assert m.word[j := Fill5][j := m.word[j := Fill5][i]] == m.word[j := m.word[j := Fill5][i]];
    }
  }

  /** The freerange loop from `p`, over a list of pages all below `p`: every
      page it frees is new to the list, so the pointers follow the sequence. */
  lemma {:induction false} FreeFromRefines(L: Layout, m: Mem, s: State, p: nat, paEnd: nat)
    requires Represents(L, m, s)
    requires forall k :: 0 <= k < |s.freelist| ==> s.freelist[k] < p
    ensures LinkedFreeFrom(L, m, p, paEnd).Ok? <==> FreeFrom(L, s, p, paEnd).Ok?
    ensures FreeFrom(L, s, p, paEnd).Ok? ==>
      Represents(L, LinkedFreeFrom(L, m, p, paEnd).value, FreeFrom(L, s, p, paEnd).value)
    decreases paEnd - p
  {
    LoopUnfold(L, m, s, p, paEnd);
    if p + L.pgsize <= paEnd {
      AboveAllNotListed(s.freelist, p);
      KfreeRefines(L, m, s, p);
      if L.Freeable(p) {
        var t := LinkedKfree(L, m, p).value;
        var u := Kfree(L, s, p).value;
        BelowAfterPush(s.freelist, u.freelist, p, L.pgsize);
        FreeFromRefines(L, t, u, p + L.pgsize, paEnd);
      }
    }
  }

  /** One step of both loops: they stop together, panic together, or both
      go on from the page after `p`. */
  lemma LoopUnfold(L: Layout, m: Mem, s: State, p: nat, paEnd: nat)
    requires MemWf(L, m) && Wf(L, s)
    ensures paEnd < p + L.pgsize ==> LinkedFreeFrom(L, m, p, paEnd) == Ok(m) && FreeFrom(L, s, p, paEnd) == Ok(s)
    ensures p + L.pgsize <= paEnd && !L.Freeable(p) ==>
      LinkedFreeFrom(L, m, p, paEnd).Panic? && FreeFrom(L, s, p, paEnd).Panic?
    ensures p + L.pgsize <= paEnd && L.Freeable(p) ==>
      && LinkedFreeFrom(L, m, p, paEnd) == LinkedFreeFrom(L, LinkedKfree(L, m, p).value, p + L.pgsize, paEnd)
      && FreeFrom(L, s, p, paEnd) == FreeFrom(L, Kfree(L, s, p).value, p + L.pgsize, paEnd)
  {
  }

  lemma AboveAllNotListed(fl: seq<nat>, p: nat)
    requires forall k :: 0 <= k < |fl| ==> fl[k] < p
    ensures p !in fl
  {
  }

  /** kfree leaves the list as it was or pushes `p`: if every entry was below
      `p`, every entry is now below the next page. */
  lemma BelowAfterPush(fl: seq<nat>, fl': seq<nat>, p: nat, m: nat)
    requires fl' == fl || fl' == [p] + fl
    requires forall k :: 0 <= k < |fl| ==> fl[k] < p
    requires 0 < m
    ensures forall k :: 0 <= k < |fl'| ==> fl'[k] < p + m
  {
    if fl' != fl {
      forall k | 0 <= k < |fl'|
        ensures fl'[k] < p + m
      {
        if k > 0 {
          assert fl'[k] == fl[k - 1];
        }
      }
    }
  }

  /** kinit builds in memory exactly the list the sequence model gives, from
      any boot contents, and walking it from the head reads that list. */
  lemma KinitRefines(L: Layout, word: seq<nat>, content: seq<PageContent>)
    requires L.Valid() && |word| == L.NPages() && |content| == L.NPages()
    ensures LinkedKinit(L, word, content).Ok?
    ensures var m, s := LinkedKinit(L, word, content).value, Kinit(L, content).value;
      && Represents(L, m, s)
      && Walk(L, m.word, m.head, |s.freelist| + 1) == s.freelist
  {
    var m0 := Mem(0, word, seq(L.NPages(), _ => 0), content);
    var s0 := Boot(L, content);
    var p := L.PgRoundUp(L.kernelEnd);
    assert Chain(L, m0.head, m0.word, s0.freelist);
    assert Represents(L, m0, s0);
    FreeFromRefines(L, m0, s0, p, L.phystop);
    assert LinkedKinit(L, word, content) == LinkedFreeFrom(L, m0, p, L.phystop);
    assert Kinit(L, content) == FreeFrom(L, s0, p, L.phystop);
    var m, s := LinkedKinit(L, word, content).value, Kinit(L, content).value;
    ChainIsWalk(L, m.head, m.word, s.freelist);
  }

  /** Freeing the last reference of a page that is already on the list, at
      position `k`: `r->next = kmem.freelist` closes the loop
      pa -> l0 -> ... -> l(k-1) -> pa, so no walk from the head ever reaches
      the entries after `pa` again; they are lost to the allocator. */
  lemma RefreeMakesLoop(L: Layout, m: Mem, s: State, k: nat)
    requires Represents(L, m, s) && NoDup(s.freelist) && k < |s.freelist|
    requires Count(L, s, s.freelist[k]) <= 1
    ensures LinkedKfree(L, m, s.freelist[k]).Ok?
    ensures var t := LinkedKfree(L, m, s.freelist[k]).value;
      var c := [s.freelist[k]] + s.freelist[..k];
      && t.head == s.freelist[k]
      && Loop(L, t.word, c)
      && (forall n: nat, x :: x in Walk(L, t.word, t.head, n) ==> x in c)
      && (forall n: nat, j :: k < j < |s.freelist| ==> s.freelist[j] !in Walk(L, t.word, t.head, n))
  {
    var fl := s.freelist;
    var pa := fl[k];
    assert L.Freeable(pa);
    var i := L.WhichPg(pa);
    var t := LinkedKfree(L, m, pa).value;
    var c := [pa] + fl[..k];
    LoopAfterRefree(L, m.head, m.word, s, k);
    forall n: nat
      ensures forall x :: x in Walk(L, t.word, t.head, n) ==> x in c
    {
      WalkStaysInLoop(L, t.word, c, 0, n);
    }
    forall j | k < j < |fl|
      ensures fl[j] !in c
    {
    }
  }

  /** The word writes of RefreeMakesLoop, on their own. */
  lemma LoopAfterRefree(L: Layout, head: nat, word: seq<nat>, s: State, k: nat)
    requires Wf(L, s) && |word| == L.NPages() && Chain(L, head, word, s.freelist)
    requires NoDup(s.freelist) && k < |s.freelist|
    ensures Loop(L, word[L.WhichPg(s.freelist[k]) := head], [s.freelist[k]] + s.freelist[..k])
  {
    var fl := s.freelist;
    assert L.Freeable(fl[k]);
    var i := L.WhichPg(fl[k]);
    var c := [fl[k]] + fl[..k];
    var word' := word[i := head];
    forall j | 0 <= j < |c|
      ensures Tracked(L, c[j])
      ensures word'[L.WhichPg(c[j])] == c[Succ(c, j)]
    {
      if j == 0 {
        assert c[Succ(c, 0)] == fl[0];
      } else {
        var e := fl[j - 1];
        assert c[j] == e && L.Freeable(e);
        ListedSlotsDistinct(L, s, j - 1, k);
        assert word[L.WhichPg(e)] == At(fl, j);
        assert c[Succ(c, j)] == fl[j];
      }
    }
  }

  /** There is no double-free check. Freeing an owned page's only reference
      twice leaves the page's first word pointing at itself, so whatever list
      there was is lost and the count is -1. The next two kallocs both return
      the page, and the second leaves kmem.freelist holding kalloc's junk
      word. On a layout that ends below that junk value, which includes
      xv6's, a third kalloc dereferences a wild pointer. */
  lemma DoubleFreeHandsOutTwice(L: Layout, m: Mem, pa: nat)
    requires MemWf(L, m) && L.Freeable(pa) && m.refc[L.WhichPg(pa)] == 1
    ensures LinkedKfree(L, m, pa).Ok? && LinkedKfree(L, LinkedKfree(L, m, pa).value, pa).Ok?
    ensures var t := LinkedKfree(L, LinkedKfree(L, m, pa).value, pa).value;
      var i := L.WhichPg(pa);
      && t.head == pa
      && t.word[i] == pa
      && t.refc[i] == -1
      && (forall n: nat, x :: x in Walk(L, t.word, t.head, n) ==> x == pa)
      && LinkedKalloc(L, t).Got?
      && LinkedKalloc(L, t).page == pa
      && LinkedKalloc(L, LinkedKalloc(L, t).mem).Got?
      && LinkedKalloc(L, LinkedKalloc(L, t).mem).page == pa
      && LinkedKalloc(L, LinkedKalloc(L, t).mem).mem.head == Fill5
      && (L.phystop <= Fill5 ==> LinkedKalloc(L, LinkedKalloc(L, LinkedKalloc(L, t).mem).mem) == Wild(Fill5))
  {
    var i := L.WhichPg(pa);
    var m1 := LinkedKfree(L, m, pa).value;
    assert m1.head == pa && m1.refc[i] == 0;
    var t := LinkedKfree(L, m1, pa).value;
    assert t.head == pa && t.word[i] == pa && t.refc[i] == -1;
    assert Loop(L, t.word, [pa]);
    forall n: nat
      ensures forall x :: x in Walk(L, t.word, t.head, n) ==> x in [pa]
    {
      WalkStaysInLoop(L, t.word, [pa], 0, n);
    }
    SelfLoopKallocs(L, t, pa);
  }

  /** kalloc on a head page whose first word points at itself: it returns the
      page and leaves it the head; kalloc again returns it once more and
      leaves the junk word `Fill5` as the head. */
  lemma SelfLoopKallocs(L: Layout, t: Mem, pa: nat)
    requires MemWf(L, t) && Tracked(L, pa) && t.head == pa && t.word[L.WhichPg(pa)] == pa
    ensures var a1 := LinkedKalloc(L, t);
      && a1.Got? && a1.page == pa && a1.mem.head == pa
      && LinkedKalloc(L, a1.mem).Got?
      && LinkedKalloc(L, a1.mem).page == pa
      && LinkedKalloc(L, a1.mem).mem.head == Fill5
      && (L.phystop <= Fill5 ==> LinkedKalloc(L, LinkedKalloc(L, a1.mem).mem) == Wild(Fill5))
  {
    var i := L.WhichPg(pa);
    var a1 := LinkedKalloc(L, t);
    assert a1.mem.word[i] == Fill5;
  }
}
