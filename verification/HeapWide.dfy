/** The heap as a whole: several regions, searched in slot order. */
module HeapWide {
  import opened Machine
  import opened HeapSpec
  import opened HeapLaws

  /** Same slots, covering the same bytes. */
  ghost predicate SameSlots(h: Heap, h': Heap)
  {
    |h| == |h'| && forall i :: 0 <= i < |h| ==>
      h'[i].addr == h[i].addr && Sum(h'[i].cells) == Sum(h[i].cells)
  }

  lemma AscendingKept(h: Heap, h': Heap)
    requires Ascending(h) && SameSlots(h, h')
    ensures Ascending(h')
  {
  }

  function FreeSizes(h: Heap): nat
  {
    if h == [] then 0 else h[0].freeSize + FreeSizes(h[1..])
  }

  lemma HeapInvParts(h: Heap)
    requires HeapInv(h) && h != []
    ensures RegionInv(h[0]) && HeapInv(h[1..])
  {
  }

  lemma HeapInvCons(r: Region, r': Region, t: Heap, t': Heap)
    requires HeapInv([r] + t) && RegionInv(r') && HeapInv(t') && SameSlots(t, t')
    requires r'.addr == r.addr && Sum(r'.cells) == Sum(r.cells)
    ensures HeapInv([r'] + t') && SameSlots([r] + t, [r'] + t')
  {
    AscendingKept([r] + t, [r'] + t');
  }

  // ----- live blocks of all regions

  lemma {:induction false} LiveInSomeRegion(h: Heap, q: int)
    requires HeapInv(h) && q in HeapLive(h)
    ensures exists i :: 0 <= i < |h| && h[i].addr != NULL && q in Live(h[i].cells, h[i].addr) &&
              HeapLive(h)[q] == Live(h[i].cells, h[i].addr)[q]
  {
    HeapInvParts(h);
    if q in HeapLive(h[1..]) {
      LiveInSomeRegion(h[1..], q);
      var i :| 0 <= i < |h[1..]| && h[1..][i].addr != NULL &&
               q in Live(h[1..][i].cells, h[1..][i].addr) &&
               HeapLive(h[1..])[q] == Live(h[1..][i].cells, h[1..][i].addr)[q];
      assert h[1..][i] == h[i + 1];
    } else {
      assert q in Live(h[0].cells, h[0].addr);
    }
  }

  /** Everything live in the first region ends before anything live in a later one starts. */
  lemma FirstBelowRest(h: Heap)
    requires HeapInv(h) && h != []
    ensures forall p, q :: p in Live(h[0].cells, h[0].addr) && q in HeapLive(h[1..]) ==>
              p + Live(h[0].cells, h[0].addr)[p] <= q && p < q
  {
    hide Live, HeapLive, Sum;
    HeapInvParts(h);
    var l := Live(h[0].cells, h[0].addr);
    forall p, q | p in l && q in HeapLive(h[1..])
      ensures p + l[p] <= q && p < q
    {
      LiveInSomeRegion(h[1..], q);
      var i :| 0 <= i < |h[1..]| && h[1..][i].addr != NULL &&
               q in Live(h[1..][i].cells, h[1..][i].addr);
      assert h[1..][i] == h[i + 1];
      LiveIntervals(h[i + 1].cells, h[i + 1].addr);
      EmptyIsNotLive(h[0]);
      LiveIntervals(h[0].cells, h[0].addr);
    }
  }

  lemma EmptyIsNotLive(r: Region)
    requires RegionInv(r)
    ensures r.addr == NULL ==> Live(r.cells, r.addr) == map[]
    ensures Tidy(r.cells)
  {
  }

  /** Live blocks of a sound heap: non-null, non-empty, inside one region, and disjoint. */
  lemma {:induction false} HeapIntervals(h: Heap)
    requires HeapInv(h)
    ensures forall p :: p in HeapLive(h) ==>
              0 < p && 0 < HeapLive(h)[p] && p + HeapLive(h)[p] < 0x1_0000_0000
    ensures forall p, q :: p in HeapLive(h) && q in HeapLive(h) && p < q ==>
              p + HeapLive(h)[p] <= q
  {
    if h != [] {
      HeapInvParts(h);
      HeapIntervals(h[1..]);
      FirstBelowRest(h);
      EmptyIsNotLive(h[0]);
      LiveIntervals(h[0].cells, h[0].addr);
    }
  }

  // ----- mem_alloc

  /** The slot `mem_alloc` serves a request from: the first one whose `free_size` covers it. */
  function FirstFit(h: Heap, size: Word): (i: nat)
    ensures i < |h| ==> h[i].addr != NULL && h[i].freeSize >= size
  {
    if h == [] then 0
    else if h[0].addr != NULL && h[0].freeSize >= size then 0
    else 1 + FirstFit(h[1..], size)
  }

  /** What one call of `mem_alloc` does to a sound heap. */
  ghost predicate Grants(h: Heap, h': Heap, p: Word, size: Word)
  {
    HeapInv(h') && SameSlots(h, h') &&
    if p == NULL then
      HeapLive(h') == HeapLive(h) && TotalFree(h') == TotalFree(h) && FreeSizes(h') == FreeSizes(h)
    else
      p !in HeapLive(h) && HeapLive(h') == HeapLive(h)[p := size] &&
      TotalFree(h') == TotalFree(h) - size && FreeSizes(h') == FreeSizes(h) - size
  }

  lemma GrantsLater(r: Region, t: Heap, t': Heap, p: Word, size: Word)
    requires HeapInv([r] + t) && Grants(t, t', p, size)
    ensures Grants([r] + t, [r] + t', p, size)
  {
    hide Live, Sum, TotalFreeCells;
    var h, h' := [r] + t, [r] + t';
    assert h[1..] == t && h'[1..] == t';
    HeapInvParts(h);
    HeapInvCons(r, r, t, t');
    FirstBelowRest(h');
    if p != NULL {
      assert p in HeapLive(t') && p !in Live(r.cells, r.addr);
      assert HeapLive(h') == HeapLive(h)[p := size];
    }
  }

  lemma GrantsHere(r: Region, t: Heap, size: Word)
    requires HeapInv([r] + t) && r.addr != NULL && 0 < size <= r.freeSize
    ensures var (r', done, p) := AllocIn(r, size);
            done && Grants([r] + t, [r'] + t, p, size)
  {
    hide Live, Sum, TotalFreeCells, AllocIn, FixAt;
    var (r', done, p) := AllocIn(r, size);
    var h, h' := [r] + t, [r'] + t;
    assert h[1..] == t && h'[1..] == t;
    HeapInvParts(h);
    AllocInRegion(r, size);
    var e, e' := ExtentOf(r.cells, r.addr), ExtentOf(r'.cells, r.addr);
    assert e'.sum == e.sum && (p == NULL ==> e'.live == e.live && e'.free == e.free) &&
           (p != NULL ==> e'.live == e.live[p := size] && e'.free == e.free - size);
    HeapInvCons(r, r', t, t);
    FirstBelowRest(h');
    if p != NULL {
      assert p in Live(r'.cells, r'.addr);
      assert HeapLive(h') == HeapLive(h)[p := size];
    }
  }

  /** `mem_alloc` on a sound heap: it stays sound, and either nothing changes for its callers or
      one new block of exactly the requested size is theirs. */
  lemma {:induction false} AllocGrants(h: Heap, size: Word)
    requires HeapInv(h) && size > 0
    ensures var (h', p) := Alloc(h, size); Grants(h, h', p, size)
  {
    hide Live, Sum, TotalFreeCells, AllocIn, Grants;
    if h == [] {
      GrantsNothing(h, size);
    } else {
      HeapInvParts(h);
      assert h == [h[0]] + h[1..];
      if h[0].addr == NULL || h[0].freeSize < size {
        AllocGrants(h[1..], size);
        var (t, p) := Alloc(h[1..], size);
        GrantsLater(h[0], h[1..], t, p, size);
      } else {
        GrantsHere(h[0], h[1..], size);
      }
    }
  }

  lemma GrantsNothing(h: Heap, size: Word)
    requires HeapInv(h)
    ensures Grants(h, h, NULL, size)
  {
  }

  /** `mem_alloc` from slot `i` on. */
  ghost function AllocFromSlot(h: Heap, i: nat, size: Word): (Heap, Word)
    requires i <= |h|
  {
    (h[..i] + Alloc(h[i..], size).0, Alloc(h[i..], size).1)
  }

  lemma AllocSlots(h: Heap, size: Word)
    ensures AllocFromSlot(h, 0, size) == Alloc(h, size)
    ensures AllocFromSlot(h, |h|, size) == (h, NULL)
  {
    assert h[0..] == h && h[|h|..] == [];
    assert h[..0] + Alloc(h, size).0 == Alloc(h, size).0;
    assert h[..|h|] + [] == h;
  }

  lemma AllocSlotStep(h: Heap, i: nat, size: Word)
    requires i < |h|
    ensures AllocFromSlot(h, i, size) ==
            if h[i].addr == NULL || h[i].freeSize < size then AllocFromSlot(h, i + 1, size)
            else
              var (r, done, p) := AllocIn(h[i], size);
              if done then (h[i := r], p) else AllocFromSlot(h[i := r], i + 1, size)
  {
    hide AllocIn;
    var (r, done, p) := AllocIn(h[i], size);
    assert h[i..][1..] == h[i + 1..] && h[i..][0] == h[i];
    assert h[i := r][i + 1..] == h[i + 1..];
    var t := Alloc(h[i + 1..], size).0;
    assert h[..i] + ([h[i]] + t) == h[..i + 1] + t;
    assert h[..i] + ([r] + t) == h[i := r][..i + 1] + t;
    assert h[..i] + ([r] + h[i + 1..]) == h[i := r];
  }

  /** `mem_free` from slot `i` on. */
  ghost function FreeFromSlot(h: Heap, i: nat, ptr: Word): Heap
    requires i <= |h|
  {
    h[..i] + FreeHeap(h[i..], ptr)
  }

  lemma FreeSlots(h: Heap, ptr: Word)
    ensures FreeFromSlot(h, 0, ptr) == FreeHeap(h, ptr)
    ensures FreeFromSlot(h, |h|, ptr) == h
  {
    assert h[0..] == h && h[|h|..] == [];
    assert h[..0] + FreeHeap(h, ptr) == FreeHeap(h, ptr);
    assert h[..|h|] + [] == h;
  }

  lemma FreeSlotStep(h: Heap, i: nat, ptr: Word)
    requires i < |h|
    ensures var (r, found) := FreeIn(h[i], ptr);
      FreeFromSlot(h, i, ptr) ==
      if found then h[i := r] else FreeFromSlot(h[i := r], i + 1, ptr)
  {
    hide FreeIn;
    var (r, found) := FreeIn(h[i], ptr);
    assert h[i..][1..] == h[i + 1..] && h[i..][0] == h[i];
    assert h[i := r][i + 1..] == h[i + 1..];
    var t := FreeHeap(h[i + 1..], ptr);
    assert h[..i] + ([r] + t) == h[i := r][..i + 1] + t;
    assert h[..i] + ([r] + h[i + 1..]) == h[i := r];
  }

  /** When `mem_alloc` fails: no region has the bytes, or the first one that has them is out of
      descriptors, in which case later regions are not tried. */
  lemma {:induction false} AllocFailsIff(h: Heap, size: Word)
    requires HeapInv(h) && size > 0
    ensures var i := FirstFit(h, size);
      Alloc(h, size).1 == NULL <==>
      i >= |h| || |FixAt(h[i].cells, 0)| + h[i].lost >= h[i].maxBlocks
  {
    hide Live, Sum, TotalFreeCells, AllocIn, FixAt;
    if h != [] {
      HeapInvParts(h);
      if h[0].addr == NULL || h[0].freeSize < size {
        AllocFailsIff(h[1..], size);
      } else {
        AllocInRegion(h[0], size);
      }
    }
  }

  /** The slot that serves a request is the first that covers it; the others are not touched. */
  lemma {:induction false} AllocServes(h: Heap, size: Word)
    requires HeapInv(h) && size > 0
    ensures var i := FirstFit(h, size);
      Alloc(h, size) ==
      if i >= |h| then (h, NULL) else (h[i := AllocIn(h[i], size).0], AllocIn(h[i], size).2)
  {
    hide Live, Sum, TotalFreeCells, AllocIn, FixAt;
    if h != [] {
      HeapInvParts(h);
      assert [h[0]] + h[1..] == h;
      if h[0].addr == NULL || h[0].freeSize < size {
        AllocServes(h[1..], size);
        var i := FirstFit(h[1..], size);
        if i < |h[1..]| {
          var r := AllocIn(h[i + 1], size).0;
          assert [h[0]] + h[1..][i := r] == h[i + 1 := r];
        }
      } else {
        AllocInRegion(h[0], size);
        assert [AllocIn(h[0], size).0] + h[1..] == h[0 := AllocIn(h[0], size).0];
      }
    }
  }

  // ----- mem_free

  /** What one call of `mem_free` does: the lowest live block not below `ptr` is given back. */
  ghost predicate Frees(h: Heap, h': Heap, ptr: int)
  {
    HeapInv(h') && SameSlots(h, h') && FreeSizes(h') == FreeSizes(h) &&
    HeapLive(h') == WithoutNext(HeapLive(h), ptr) &&
    (forall q :: IsNext(HeapLive(h), ptr, q) ==>
       TotalFree(h') == TotalFree(h) + HeapLive(h)[q]) &&
    ((forall q :: q in HeapLive(h) ==> q < ptr) ==> TotalFree(h') == TotalFree(h))
  }

  ghost predicate RegionFrees(r: Region, r': Region, found: bool, ptr: int)
  {
    var live := Live(r.cells, r.addr);
    RegionInv(r') && r' == r.(cells := r'.cells) && Sum(r'.cells) == Sum(r.cells) &&
    Live(r'.cells, r.addr) == WithoutNext(live, ptr) &&
    if found then
      exists q :: q in live && IsNext(live, ptr, q) && TotalFreeCells(r'.cells) == TotalFreeCells(r.cells) + live[q]
    else
      (forall q :: q in live ==> q < ptr) && TotalFreeCells(r'.cells) == TotalFreeCells(r.cells)
  }

  lemma FindInRegion(r: Region, ptr: Word)
    requires RegionInv(r)
    ensures StopsAtNext(r.cells, Find(r.cells, 0, r.addr, ptr), r.addr, ptr)
    ensures r.addr != NULL ==> RegionInv(r.(cells := Find(r.cells, 0, r.addr, ptr).0))
  {
    assert r.cells[..0] == [];
    FindFindsNext(r.cells, 0, r.addr, ptr);
    var r0 := Find(r.cells, 0, r.addr, ptr);
    assert ExtentOf(r0.0, r.addr).sum == Sum(r.cells);
  }

  /** The block the walk stops at is the next live one; when it runs off the end there is none. */
  lemma StopIsNext(cells: seq<Cell>, r: (seq<Cell>, nat, Word), addr: int, ptr: int)
    requires StopsAtNext(cells, r, addr, ptr) && (r.1 < |r.0| ==> r.0[r.1].kind == Used)
    ensures r.1 < |r.0| ==> IsNext(Live(cells, addr), ptr, r.2) &&
                            Live(cells, addr)[r.2] == r.0[r.1].size
    ensures r.1 == |r.0| ==> forall q :: q in Live(cells, addr) ==> q < ptr
  {
    hide Sum, Live, TotalFreeCells;
    var c, k := r.0, r.1;
    assert ExtentOf(c, addr).live == Live(cells, addr);
    if k == |c| {
      assert c[..k] == c;
    } else {
      var pre, post := c[..k], c[k + 1..];
      assert c == pre + [c[k]] + post;
      Around(pre, [c[k]], post, addr);
      One(c[k], r.2);
      LiveIntervals(post, r.2 + c[k].size);
    }
  }

  lemma FreeInRegion(r: Region, ptr: Word)
    requires RegionInv(r)
    ensures var (r', found) := FreeIn(r, ptr); RegionFrees(r, r', found, ptr)
  {
    hide Sum, Live, TotalFreeCells, Find, Release, StopsAtNext;
    var s := Find(r.cells, 0, r.addr, ptr);
    FindInRegion(r, ptr);
    StopIsNext(r.cells, s, r.addr, ptr);
    StopFacts(r.cells, s, r.addr, ptr);
    if s.1 < |s.0| {
      ReleaseRemoves(s.0, s.1, r.addr);
      ReleaseTidy(s.0, s.1);
      var c' := Release(s.0, s.1);
      assert ExtentOf(c', r.addr).live == Live(r.cells, r.addr) - {s.2};
      assert Live(c', r.addr) == WithoutNext(Live(r.cells, r.addr), ptr);
      assert ExtentOf(c', r.addr).sum == Sum(r.cells);
    } else {
      assert Live(s.0, r.addr) == WithoutNext(Live(r.cells, r.addr), ptr);
      NoCells(r, s, ptr);
    }
  }

  lemma StopFacts(cells: seq<Cell>, r: (seq<Cell>, nat, Word), addr: int, ptr: int)
    requires StopsAtNext(cells, r, addr, ptr)
    ensures Tidy(r.0) && Sum(r.0) == Sum(cells) && Live(r.0, addr) == Live(cells, addr)
    ensures TotalFreeCells(r.0) == TotalFreeCells(cells) && HeadKept(cells, r.0)
    ensures r.2 == addr + Sum(r.0[..r.1])
  {
  }

  lemma NoCells(r: Region, s: (seq<Cell>, nat, Word), ptr: Word)
    requires RegionInv(r) && s == Find(r.cells, 0, r.addr, ptr)
    ensures r.addr == NULL ==> s.0 == []
  {
  }

  lemma NextInFront(l: map<int, int>, t: map<int, int>, ptr: int)
    requires forall p, q :: p in l && q in t ==> p < q
    requires exists q :: IsNext(l, ptr, q)
    ensures WithoutNext(l + t, ptr) == WithoutNext(l, ptr) + t
    ensures forall x :: IsNext(l + t, ptr, x) ==> IsNext(l, ptr, x) && (l + t)[x] == l[x]
    ensures exists q :: q in l + t && q >= ptr
  {
    var q :| IsNext(l, ptr, q);
    assert IsNext(l + t, ptr, q);
    assert forall x :: IsNext(l + t, ptr, x) ==> x == q;
    assert forall x :: IsNext(l, ptr, x) ==> x == q;
  }

  lemma NextBehind(l: map<int, int>, t: map<int, int>, ptr: int)
    requires forall p, q :: p in l && q in t ==> p < q
    requires forall q :: q in l ==> q < ptr
    ensures WithoutNext(l + t, ptr) == l + WithoutNext(t, ptr)
    ensures forall x :: IsNext(l + t, ptr, x) ==> IsNext(t, ptr, x) && (l + t)[x] == t[x]
  {
  }

  lemma NextUnique(l: map<int, int>, ptr: int, q: int)
    requires IsNext(l, ptr, q)
    ensures forall x :: IsNext(l, ptr, x) ==> x == q
  {
  }

  lemma FreesHere(r: Region, r': Region, t: Heap, ptr: int)
    requires HeapInv([r] + t) && RegionFrees(r, r', true, ptr)
    ensures Frees([r] + t, [r'] + t, ptr)
  {
    hide Sum, Live, TotalFreeCells, IsNext, WithoutNext;
    var h, h' := [r] + t, [r'] + t;
    assert h[1..] == t && h'[1..] == t;
    HeapInvParts(h);
    HeapInvCons(r, r', t, t);
    FirstBelowRest(h);
    EmptyIsNotLive(r);
    var l := Live(r.cells, r.addr);
    var q :| q in l && IsNext(l, ptr, q) && TotalFreeCells(r'.cells) == TotalFreeCells(r.cells) + l[q];
    NextUnique(l, ptr, q);
    NextInFront(l, HeapLive(t), ptr);
  }

  lemma FreesLater(r: Region, r': Region, t: Heap, t': Heap, ptr: int)
    requires HeapInv([r] + t) && RegionFrees(r, r', false, ptr) && Frees(t, t', ptr)
    ensures Frees([r] + t, [r'] + t', ptr)
  {
    hide Sum, Live, TotalFreeCells, IsNext, WithoutNext;
    var h, h' := [r] + t, [r'] + t';
    assert h[1..] == t && h'[1..] == t';
    HeapInvParts(h);
    HeapInvCons(r, r', t, t');
    FirstBelowRest(h);
    NextBehind(Live(r.cells, r.addr), HeapLive(t), ptr);
    NoneNext(Live(r.cells, r.addr), ptr);
  }

  lemma NoneNext(l: map<int, int>, ptr: int)
    requires forall q :: q in l ==> q < ptr
    ensures WithoutNext(l, ptr) == l
  {
  }

  /** `mem_free` on a sound heap, for every pointer whatsoever: the lowest live block at or
      after it is given back, in whichever region it lies, and no other block changes. */
  lemma {:induction false} FreeHeapFreesNext(h: Heap, ptr: Word)
    requires HeapInv(h)
    ensures Frees(h, FreeHeap(h, ptr), ptr)
  {
    hide Sum, Live, TotalFreeCells, FreeIn, RegionFrees, Frees;
    if h == [] {
      FreesNothing(ptr);
    } else {
      HeapInvParts(h);
      assert h == [h[0]] + h[1..];
      FreeInRegion(h[0], ptr);
      var (r, found) := FreeIn(h[0], ptr);
      if found {
        FreesHere(h[0], r, h[1..], ptr);
      } else {
        FreeHeapFreesNext(h[1..], ptr);
        FreesLater(h[0], r, h[1..], FreeHeap(h[1..], ptr), ptr);
      }
    }
  }

  lemma FreesNothing(ptr: int)
    ensures Frees([], [], ptr)
  {
  }

  lemma NextOfLive(live: map<int, int>, p: int)
    requires p in live
    ensures IsNext(live, p, p) && WithoutNext(live, p) == live - {p}
  {
  }

  /** A live pointer gives back its own block and nothing else. */
  lemma FreeIsExact(h: Heap, p: Word)
    requires HeapInv(h) && p in HeapLive(h)
    ensures HeapInv(FreeHeap(h, p)) && SameSlots(h, FreeHeap(h, p))
    ensures HeapLive(FreeHeap(h, p)) == HeapLive(h) - {p}
    ensures TotalFree(FreeHeap(h, p)) == TotalFree(h) + HeapLive(h)[p]
    ensures FreeSizes(FreeHeap(h, p)) == FreeSizes(h)
  {
    hide HeapLive, TotalFree, FreeHeap, IsNext, WithoutNext, SameSlots, HeapInv, FreeSizes;
    FreeHeapFreesNext(h, p);
    NextOfLive(HeapLive(h), p);
  }

  // ----- heaps that need not be sound

  predicate FreeHead(c: seq<Cell>)
  {
    c != [] && c[0].kind == Free
  }

  /** All that keeps `mem_alloc` off the used blocks. */
  ghost predicate HeadsFree(h: Heap)
  {
    forall i :: 0 <= i < |h| && h[i].addr != NULL ==> FreeHead(h[i].cells)
  }

  lemma HeadFreeAt(h: Heap, i: nat)
    requires i < |h|
    ensures HeadsFree(h) && h[i].addr != NULL ==> FreeHead(h[i].cells)
  {
  }

  lemma SoundHeadsFree(h: Heap)
    requires HeapInv(h)
    ensures HeadsFree(h)
  {
  }

  /** A walk leaves a free head free, whatever the list. */
  lemma {:induction false} WalkKeepsHead(cells: seq<Cell>, k: nat, base: Word, ptr: Word)
    requires k <= |cells| && FreeHead(cells)
    ensures FreeHead(Find(cells, k, base, ptr).0)
    decreases |cells| - k
  {
    hide Find, FixAt, Wrap;
    FindStep(cells, k, base, ptr);
    if k < |cells| {
      var c := FixAt(cells, k);
      assert k > 0 ==> c[..k][0] == cells[..k][0];
      WalkKeepsHead(c, k + 1, Wrap(base + c[k].size), ptr);
    }
  }
}
