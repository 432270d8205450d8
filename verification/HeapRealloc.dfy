/** `mem_realloc` of a live block to any size, over all regions: which block it treats, and exactly when
    that does what was asked. */
module HeapRealloc {
  import opened Machine
  import opened HeapSpec
  import opened HeapLaws
  import opened HeapWide
  import opened HeapResize

  // ----- which block is treated

  predicate Covers(r: Region, size: Word)
  {
    r.addr != NULL && r.freeSize >= size
  }

  /** The walk over region `r`. */
  function Walk(r: Region, ptr: Word): (w: (seq<Cell>, nat, Word))
    ensures w.1 <= |w.0| && (w.1 < |w.0| ==> w.0[w.1].kind == Used)
  {
    Find(r.cells, 0, r.addr, ptr)
  }

  predicate WalkHits(r: Region, ptr: Word)
  {
    Walk(r, ptr).1 < |Walk(r, ptr).0|
  }

  /** The slot that decides a call of `mem_realloc`: from `i` on the first one that covers the size
      and whose walk stops at a block, whosever that is. */
  function Deciding(h: Heap, i: nat, ptr: Word, size: Word): (j: nat)
    requires i <= |h|
    ensures i <= j <= |h| && (j < |h| ==> Covers(h[j], size) && WalkHits(h[j], ptr))
    decreases |h| - i
  {
    if i == |h| || (Covers(h[i], size) && WalkHits(h[i], ptr)) then i
    else Deciding(h, i + 1, ptr, size)
  }

  /** A slot after its walk, which merges. */
  function WalkedRegion(r: Region, ptr: Word, size: Word): Region
  {
    if Covers(r, size) then r.(cells := Walk(r, ptr).0) else r
  }

  /** The heap after the walks over the first `n` slots. */
  function Walked(h: Heap, n: nat, ptr: Word, size: Word): (g: Heap)
    ensures |g| == |h|
  {
    seq(|h|, i requires 0 <= i < |h| => if i < n then WalkedRegion(h[i], ptr, size) else h[i])
  }

  /** `mem_realloc` once the walks are done. */
  function Outcome(h: Heap, j: nat, ptr: Word, size: Word): (Heap, Word, nat)
    requires j <= |h| && (j < |h| ==> WalkHits(h[j], ptr))
  {
    if j == |h| then (Alloc(Walked(h, j, ptr, size), size).0, NULL, 0)
    else
      var (c, k, b) := Walk(h[j], ptr);
      var g := Walked(h, j + 1, ptr, size);
      if Plan(c, k, size) == Move then
        var (h1, p) := Alloc(g, size);
        if p == NULL then (h1, NULL, 0) else (FreeHeap(h1, ptr), p, c[k].size)
      else
        var (r, p) := ResizeInPlace(h[j].(cells := c), k, b, size);
        (g[j := r], p, 0)
  }

  lemma WalkedStep(h: Heap, i: nat, ptr: Word, size: Word)
    requires i < |h|
    ensures Walked(h, i + 1, ptr, size) == Walked(h, i, ptr, size)[i := WalkedRegion(h[i], ptr, size)]
    ensures Walked(h, i, ptr, size)[i] == h[i]
  {
    hide WalkedRegion;
  }

  lemma {:induction false} ReallocDecided(h: Heap, i: nat, ptr: Word, size: Word)
    requires i <= |h|
    ensures Realloc(Walked(h, i, ptr, size), i, ptr, size) ==
            Outcome(h, Deciding(h, i, ptr, size), ptr, size)
    decreases |h| - i
  {
    hide Find, ResizeInPlace, Alloc, FreeHeap, Plan, Walked;
    var g := Walked(h, i, ptr, size);
    ReallocStep(g, i, ptr, size);
    if i < |h| {
      WalkedStep(h, i, ptr, size);
      ReallocDecided(h, i + 1, ptr, size);
      assert !Covers(h[i], size) ==> g[i := h[i]] == g;
    }
  }

  /** The whole of `mem_realloc`. */
  lemma ReallocIsOutcome(h: Heap, ptr: Word, size: Word)
    ensures Realloc(h, 0, ptr, size) == Outcome(h, Deciding(h, 0, ptr, size), ptr, size)
  {
    hide Realloc, Outcome, Deciding;
    ReallocDecided(h, 0, ptr, size);
    assert Walked(h, 0, ptr, size) == h;
  }

  /** How the deciding block is treated; kept as it is when there is none. */
  function DecidedPlan(h: Heap, ptr: Word, size: Word): ResizePlan
  {
    var j := Deciding(h, 0, ptr, size);
    if j == |h| then Keep else Plan(Walk(h[j], ptr).0, Walk(h[j], ptr).1, size)
  }

  /** The caller's view of the whole heap when one block is resized. */
  ghost predicate Regrants(h: Heap, h': Heap, p: int, q: Word, size: int)
  {
    p in HeapLive(h) && HeapInv(h') && SameSlots(h, h') &&
    if q == NULL then
      HeapLive(h') == HeapLive(h) && TotalFree(h') == TotalFree(h)
    else
      (q == p || q !in HeapLive(h)) && HeapLive(h') == (HeapLive(h) - {p})[q := size] &&
      TotalFree(h') + size == TotalFree(h) + HeapLive(h)[p]
  }

  /** Where the block ends up and how many bytes are copied there, by plan. */
  ghost predicate Placed(h: Heap, p: Word, size: Word, q: Word, moved: nat)
    requires p in HeapLive(h)
  {
    var n, j := HeapLive(h)[p], Deciding(h, 0, p, size);
    if q == NULL then moved == 0
    else
      j < |h| &&
      var (c, k, _) := Walk(h[j], p);
      match Plan(c, k, size)
      case Move => moved == c[k].size && q !in HeapLive(h) && (q + size <= p || p + n <= q)
      case TakePrev => q == p - (size - n) && q != p && moved == 0
      case GiveToPrev => q == p - (size - n) && q != p && moved == 0
      case _ => q == p && moved == 0
  }

  /** How many bytes a resize takes off the regions' `free_size`. */
  function Taken(plan: ResizePlan, q: Word, old_: int, size: int): int
  {
    if q == NULL then 0 else if plan == Move then size else size - old_
  }

  /** Replacing the blocks of region `i` by blocks with the same extent is not seen from outside. */
  lemma {:induction false} SameExtent(h: Heap, i: nat, c: seq<Cell>)
    requires HeapInv(h) && i < |h| && RegionInv(h[i].(cells := c))
    requires ExtentOf(c, h[i].addr) == ExtentOf(h[i].cells, h[i].addr)
    ensures var h' := h[i := h[i].(cells := c)];
      HeapInv(h') && SameSlots(h, h') && HeapLive(h') == HeapLive(h) &&
      TotalFree(h') == TotalFree(h) && FreeSizes(h') == FreeSizes(h)
  {
    hide Sum, Live, TotalFreeCells;
    var r' := h[i].(cells := c);
    var h' := h[i := r'];
    assert ExtentOf(c, h[i].addr).sum == Sum(h[i].cells);
    assert SameSlots(h, h');
    AscendingKept(h, h');
    if i > 0 {
      HeapInvParts(h);
      assert h'[1..] == h[1..][i - 1 := r'];
      SameExtent(h[1..], i - 1, c);
    } else {
      assert h'[1..] == h[1..];
      assert ExtentOf(c, h[0].addr).live == Live(h[0].cells, h[0].addr);
      assert ExtentOf(c, h[0].addr).free == TotalFreeCells(h[0].cells);
    }
  }

  lemma EditJoin(l: map<int, int>, l': map<int, int>, t: map<int, int>, p: int, q: int, s: int)
    requires l' == (l - {p})[q := s] && p !in t && q !in t
    ensures l' + t == (l + t - {p})[q := s] && t + l' == (t + l - {p})[q := s]
  {
  }

  /** A resize in place of one region, seen over the whole heap. */
  lemma {:induction false} EditRegion(h: Heap, m: nat, r': Region, p: int, q: Word, size: int)
    requires HeapInv(h) && m < |h| && h[m].addr != NULL && RegionInv(r') && q != NULL && size > 0
    requires Resizes(h[m], r', p, q, size)
    ensures Regrants(h, h[m := r'], p, q, size)
    ensures HeapLive(h)[p] == Live(h[m].cells, h[m].addr)[p]
    ensures FreeSizes(h[m := r']) + h[m].freeSize == FreeSizes(h) + r'.freeSize
  {
    hide Sum, Live, TotalFreeCells;
    var h' := h[m := r'];
    assert SameSlots(h, h');
    AscendingKept(h, h');
    HeapInvParts(h);
    FirstBelowRest(h);
    FirstBelowRest(h');
    var l, l' := Live(h[0].cells, h[0].addr), Live(h'[0].cells, h[0].addr);
    if m > 0 {
      assert h'[1..] == h[1..][m - 1 := r'];
      EditRegion(h[1..], m - 1, r', p, q, size);
      var t, t' := HeapLive(h[1..]), HeapLive(h'[1..]);
      assert q in t' && t'[q] == size;
      EditJoin(t, t', l, p, q, size);
    } else {
      assert h'[1..] == h[1..];
      assert q in l';
      EditJoin(l, l', HeapLive(h[1..]), p, q, size);
    }
  }

  /** The walk over a region that lies below the block finds nothing in it. */
  lemma WalkPasses(h: Heap, i: nat, m: nat, p: Word)
    requires HeapInv(h) && i < m < |h| && h[i].addr != NULL && h[m].addr != NULL
    requires p in Live(h[m].cells, h[m].addr)
    ensures var (c, k, _) := Find(h[i].cells, 0, h[i].addr, p);
      k == |c| && RegionInv(h[i].(cells := c)) &&
      ExtentOf(c, h[i].addr) == ExtentOf(h[i].cells, h[i].addr)
  {
    hide Sum, Live, TotalFreeCells, Find;
    var s := Find(h[i].cells, 0, h[i].addr, p);
    FindInRegion(h[i], p);
    StopIsNext(h[i].cells, s, h[i].addr, p);
    LiveIntervals(h[i].cells, h[i].addr);
    LiveIntervals(h[m].cells, h[m].addr);
  }

  /** The walk over the region the block lies in stops exactly at it. */
  lemma WalkStops(r: Region, p: Word)
    requires RegionInv(r) && r.addr != NULL && p in Live(r.cells, r.addr)
    ensures var (c, k, b) := Find(r.cells, 0, r.addr, p);
      k < |c| && b == p && BlockAt(r.(cells := c), k, p) && c[k].size == Live(r.cells, r.addr)[p] &&
      ExtentOf(c, r.addr) == ExtentOf(r.cells, r.addr)
  {
    hide Sum, Live, TotalFreeCells, Find;
    var s := Find(r.cells, 0, r.addr, p);
    FindInRegion(r, p);
    StopIsNext(r.cells, s, r.addr, p);
  }

  /** Allocate, copy, free. */
  lemma MoveRegrants(h: Heap, p: Word, size: Word)
    requires HeapInv(h) && p in HeapLive(h) && size > 0
    ensures var (h1, q) := Alloc(h, size);
      if q == NULL then Regrants(h, h1, p, q, size)
      else
        Regrants(h, FreeHeap(h1, p), p, q, size) && q !in HeapLive(h) &&
        (q + size <= p || p + HeapLive(h)[p] <= q)
    ensures var (h1, q) := Alloc(h, size);
      FreeSizes(h1) == FreeSizes(h) - Taken(Move, q, 0, size) &&
      (q != NULL ==> FreeSizes(FreeHeap(h1, p)) == FreeSizes(h1))
  {
    hide HeapLive, TotalFree, FreeHeap, Alloc, HeapInv, FreeSizes;
    AllocGrants(h, size);
    var (h1, q) := Alloc(h, size);
    if q != NULL {
      FreeIsExact(h1, p);
      HeapIntervals(h1);
      assert HeapLive(h)[q := size] - {p} == (HeapLive(h) - {p})[q := size];
    }
  }

  /** No region has as many bytes left. */
  ghost predicate NoneCovers(h: Heap, size: Word)
  {
    forall i :: 0 <= i < |h| ==> h[i].addr == NULL || h[i].freeSize < size
  }

  /** A request no region covers is refused, and nothing changes. */
  lemma {:induction false} AllocRefuses(h: Heap, size: Word)
    requires NoneCovers(h, size)
    ensures Alloc(h, size) == (h, NULL)
  {
    if h != [] {
      assert NoneCovers(h[1..], size) && [h[0]] + h[1..] == h;
      AllocRefuses(h[1..], size);
    }
  }

  // ----- when it does what it is asked

  lemma {:induction false} LiveInHeap(h: Heap, m: nat, p: int)
    requires HeapInv(h) && m < |h| && h[m].addr != NULL && p in Live(h[m].cells, h[m].addr)
    ensures p in HeapLive(h) && HeapLive(h)[p] == Live(h[m].cells, h[m].addr)[p]
  {
    hide Sum, Live;
    HeapInvParts(h);
    FirstBelowRest(h);
    if m > 0 {
      LiveInHeap(h[1..], m - 1, p);
    }
  }

  /** The walks are not seen from outside. */
  lemma {:induction false} WalksAreUnseen(h: Heap, n: nat, ptr: Word, size: Word)
    requires HeapInv(h) && n <= |h|
    ensures var g := Walked(h, n, ptr, size);
      HeapInv(g) && SameSlots(h, g) && HeapLive(g) == HeapLive(h) && TotalFree(g) == TotalFree(h) &&
      FreeSizes(g) == FreeSizes(h)
  {
    hide Sum, Live, TotalFreeCells, HeapLive, TotalFree, FreeSizes, Find, Walked, HeapInv;
    if n == 0 {
      assert Walked(h, 0, ptr, size) == h by { NoWalks(h, ptr, size); }
    } else {
      WalksAreUnseen(h, n - 1, ptr, size);
      WalkedStep(h, n - 1, ptr, size);
      var g := Walked(h, n - 1, ptr, size);
      if Covers(h[n - 1], size) {
        WalkKeeps(h, n - 1, ptr);
        SameExtent(g, n - 1, Walk(h[n - 1], ptr).0);
      } else {
        assert g[n - 1 := h[n - 1]] == g;
      }
    }
  }

  lemma NoWalks(h: Heap, ptr: Word, size: Word)
    ensures Walked(h, 0, ptr, size) == h
  {
  }

  lemma WalkKeeps(h: Heap, i: nat, ptr: Word)
    requires HeapInv(h) && i < |h| && h[i].addr != NULL
    ensures RegionInv(h[i].(cells := Walk(h[i], ptr).0))
    ensures ExtentOf(Walk(h[i], ptr).0, h[i].addr) == ExtentOf(h[i].cells, h[i].addr)
  {
    hide Sum, Live, TotalFreeCells, Find;
    FindInRegion(h[i], ptr);
  }

  /** The block a walk hits: a used one at or after the pointer. */
  lemma {:induction false} HitIsLive(h: Heap, j: nat, ptr: Word)
    requires HeapInv(h) && j < |h| && h[j].addr != NULL && WalkHits(h[j], ptr)
    ensures var (c, k, b) := Walk(h[j], ptr);
      BlockAt(h[j].(cells := c), k, b) && b >= ptr &&
      b in Live(h[j].cells, h[j].addr) && c[k].size == Live(h[j].cells, h[j].addr)[b]
    ensures ptr in Live(h[j].cells, h[j].addr) ==> Walk(h[j], ptr).2 == ptr
  {
    hide Sum, Live, TotalFreeCells, Find;
    var s := Walk(h[j], ptr);
    FindInRegion(h[j], ptr);
    StopIsNext(h[j].cells, s, h[j].addr, ptr);
  }

  /** Hitting another block than the live one asked for means being in a later region. */
  lemma {:induction false} HitElsewhere(h: Heap, j: nat, p: Word)
    requires HeapInv(h) && j < |h| && h[j].addr != NULL && WalkHits(h[j], p) && p in HeapLive(h)
    requires Walk(h[j], p).2 != p
    ensures p !in Live(h[j].cells, h[j].addr) && p < h[j].addr
  {
    hide Sum, Live, TotalFreeCells, Find, HeapLive;
    HitIsLive(h, j, p);
    LiveInSomeRegion(h, p);
    var m :| 0 <= m < |h| && h[m].addr != NULL && p in Live(h[m].cells, h[m].addr);
    LiveIntervals(h[m].cells, h[m].addr);
    LiveIntervals(h[j].cells, h[j].addr);
  }

  lemma {:induction false} KeyStays(h: Heap, j: nat, r: Region, p: int)
    requires j < |h| && p in HeapLive(h) && p !in Live(h[j].cells, h[j].addr)
    ensures p in HeapLive(h[j := r])
  {
    hide Live;
    var h' := h[j := r];
    if j == 0 {
      assert h'[1..] == h[1..];
    } else {
      assert h'[1..] == h[1..][j - 1 := r];
      if p in HeapLive(h[1..]) {
        KeyStays(h[1..], j - 1, r, p);
      }
    }
  }

  /** Nothing can be granted: no region covers the size, or the first that does is out of descriptors
      after its walk. */
  predicate NothingToGrant(h: Heap, p: Word, size: Word)
  {
    var i := FirstFit(h, size);
    i >= |h| ||
    (Walk(h[i], p).0 != [] && |FixAt(Walk(h[i], p).0, 0)| + h[i].lost >= h[i].maxBlocks)
  }

  /** Whether `mem_realloc` does what it is asked, from what its branches test: when a walk stops,
      bytes are moved to a new block, or the splitting branch finds no descriptor, or the walk stopped
      at the block asked for and the region stays sound; when none stops, nothing can be granted. */
  predicate DoesItsJob(h: Heap, p: Word, size: Word)
  {
    var j := Deciding(h, 0, p, size);
    if j == |h| then NothingToGrant(h, p, size)
    else
      var (c, k, b) := Walk(h[j], p);
      var r := h[j].(cells := c);
      Plan(c, k, size) == Move || (Plan(c, k, size) == Split && Full(r)) ||
      (b == p && InPlaceKeeps(r, k, size))
  }

  /** What is claimed of a call that does its job. */
  ghost predicate Done(h: Heap, p: Word, size: Word, r: (Heap, Word, nat))
    requires p in HeapLive(h)
  {
    Placed(h, p, size, r.1, r.2) &&
    FreeSizes(r.0) == FreeSizes(h) - Taken(DecidedPlan(h, p, size), r.1, HeapLive(h)[p], size)
  }

  /** `mem_realloc` of a live block, to any size: callers see exactly that block resized, or nothing
      on failure, and the heap stays sound, if and only if the branch guards say so. */
  lemma {:induction false} ReallocExactIff(h: Heap, p: Word, size: Word)
    requires HeapInv(h) && p in HeapLive(h) && size > 0
    ensures var (h', q, moved) := Realloc(h, 0, p, size);
      (Regrants(h, h', p, q, size) <==> DoesItsJob(h, p, size)) &&
      (DoesItsJob(h, p, size) ==> Done(h, p, size, (h', q, moved)))
  {
    hide Realloc, HeapLive, HeapInv, TotalFree, FreeSizes, Regrants, Done, Outcome, DoesItsJob;
    ReallocIsOutcome(h, p, size);
    var j := Deciding(h, 0, p, size);
    if j == |h| {
      UndecidedExact(h, p, size);
    } else if DecidedPlan(h, p, size) == Move {
      MoveExact(h, p, size);
    } else {
      InPlaceCallExact(h, p, size);
    }
  }

  lemma RegrantsFrom(h: Heap, g: Heap, h': Heap, p: int, q: Word, size: int)
    requires SameSlots(h, g) && HeapLive(g) == HeapLive(h) && TotalFree(g) == TotalFree(h)
    ensures Regrants(h, h', p, q, size) == Regrants(g, h', p, q, size)
  {
    hide HeapLive, TotalFree, HeapInv;
    assert SameSlots(h, h') == SameSlots(g, h') by { SlotsFrom(h, g, h'); }
  }

  lemma SlotsFrom(h: Heap, g: Heap, h': Heap)
    requires SameSlots(h, g)
    ensures SameSlots(h, h') == SameSlots(g, h')
  {
    hide Sum;
  }

  lemma {:induction false} SameFit(h: Heap, g: Heap, size: Word)
    requires |g| == |h|
    requires forall i :: 0 <= i < |h| ==> g[i].addr == h[i].addr && g[i].freeSize == h[i].freeSize
    ensures FirstFit(g, size) == FirstFit(h, size)
  {
    if h != [] {
      assert forall i :: 0 <= i < |h[1..]| ==> h[1..][i] == h[i + 1] && g[1..][i] == g[i + 1];
      SameFit(h[1..], g[1..], size);
    }
  }

  lemma NothingGrantedIff(h: Heap, p: Word, size: Word)
    requires HeapInv(h) && size > 0
    ensures Alloc(Walked(h, |h|, p, size), size).1 == NULL <==> NothingToGrant(h, p, size)
  {
    hide Alloc, Find, HeapInv, FixAt;
    var g := Walked(h, |h|, p, size);
    WalksAreUnseen(h, |h|, p, size);
    AllocFailsIff(g, size);
    SameFit(h, g, size);
    var i := FirstFit(h, size);
    if i < |h| {
      RegionOf(g, i);
    }
  }

  /** No walk stops: what is then allocated belongs to nobody. */
  lemma {:induction false} UndecidedExact(h: Heap, p: Word, size: Word)
    requires HeapInv(h) && p in HeapLive(h) && size > 0 && Deciding(h, 0, p, size) == |h|
    ensures var r := Outcome(h, |h|, p, size);
      (Regrants(h, r.0, p, r.1, size) <==> DoesItsJob(h, p, size)) &&
      (DoesItsJob(h, p, size) ==> Done(h, p, size, r))
  {
    hide HeapLive, HeapInv, TotalFree, FreeSizes, Alloc, Walked, Deciding, NothingToGrant;
    var g := Walked(h, |h|, p, size);
    WalksAreUnseen(h, |h|, p, size);
    AllocGrants(g, size);
    NothingGrantedIff(h, p, size);
    SlotsFrom(h, g, Alloc(g, size).0);
    assert Alloc(g, size).1 != NULL ==> Alloc(g, size).1 in HeapLive(Alloc(g, size).0);
  }

  lemma {:induction false} MoveExact(h: Heap, p: Word, size: Word)
    requires HeapInv(h) && p in HeapLive(h) && size > 0
    requires Deciding(h, 0, p, size) < |h| && DecidedPlan(h, p, size) == Move
    ensures var r := Outcome(h, Deciding(h, 0, p, size), p, size);
      Regrants(h, r.0, p, r.1, size) && DoesItsJob(h, p, size) && Done(h, p, size, r)
  {
    hide HeapLive, HeapInv, TotalFree, FreeSizes, Alloc, FreeHeap, Walked, Deciding, Find, Plan, Regrants;
    var j := Deciding(h, 0, p, size);
    var g := Walked(h, j + 1, p, size);
    WalksAreUnseen(h, j + 1, p, size);
    MoveRegrants(g, p, size);
    var (h1, q) := Alloc(g, size);
    RegrantsFrom(h, g, h1, p, q, size);
    RegrantsFrom(h, g, FreeHeap(h1, p), p, q, size);
  }

  lemma {:induction false} InPlaceCallExact(h: Heap, p: Word, size: Word)
    requires HeapInv(h) && p in HeapLive(h) && size > 0
    requires Deciding(h, 0, p, size) < |h| && DecidedPlan(h, p, size) != Move
    ensures var r := Outcome(h, Deciding(h, 0, p, size), p, size);
      (Regrants(h, r.0, p, r.1, size) <==> DoesItsJob(h, p, size)) &&
      (DoesItsJob(h, p, size) ==> Done(h, p, size, r))
  {
    hide HeapLive, HeapInv, TotalFree, FreeSizes, Walked, Deciding, Find, Plan, Regrants, ResizeInPlace,
         InPlaceKeeps, Placed, RegionInv, Live, Resizes, Sum;
    var j := Deciding(h, 0, p, size);
    var (c, k, b) := Walk(h[j], p);
    var r := h[j].(cells := c);
    var g := Walked(h, j + 1, p, size);
    WalksAreUnseen(h, j + 1, p, size);
    WalkedStep(h, j, p, size);
    HitIsLive(h, j, p);
    InPlaceExact(r, k, b, size);
    var (r', q) := ResizeInPlace(r, k, b, size);
    var h' := g[j := r'];
    RegrantsFrom(h, g, h', p, q, size);
    if Plan(c, k, size) == Split && Full(r) {
      assert g[j := r] == g;
      NothingDone(g, p, size);
      PlacedNowhere(h, p, size);
    } else if b != p {
      HitElsewhere(h, j, p);
      OthersLive(h, j, p);
      KeyStays(g, j, r', p);
      NotRegranted(g, h', p, q, size);
    } else if InPlaceKeeps(r, k, size) {
      EditRegion(g, j, r', p, q, size);
      LiveInHeap(h, j, p);
      PlacedInPlace(h, p, size, q);
    } else {
      BrokenRegion(g, h', j, p, q, size);
    }
  }

  lemma NothingDone(g: Heap, p: Word, size: int)
    requires HeapInv(g) && p in HeapLive(g)
    ensures Regrants(g, g, p, NULL, size)
  {
    hide HeapLive, TotalFree, HeapInv;
  }

  lemma PlacedNowhere(h: Heap, p: Word, size: Word)
    requires p in HeapLive(h)
    ensures Placed(h, p, size, NULL, 0)
  {
  }

  lemma OthersLive(h: Heap, j: nat, p: Word)
    requires HeapInv(h) && j < |h| && h[j].addr != NULL
    ensures Live(Walk(h[j], p).0, h[j].addr) == Live(h[j].cells, h[j].addr)
  {
    hide Live, Find, HeapInv;
    WalkKeeps(h, j, p);
  }

  lemma NotRegranted(g: Heap, h': Heap, p: Word, q: Word, size: int)
    requires p in HeapLive(h') && q != NULL && q != p
    ensures !Regrants(g, h', p, q, size)
  {
    hide HeapLive, TotalFree, HeapInv;
  }

  lemma PlacedInPlace(h: Heap, p: Word, size: Word, q: Word)
    requires p in HeapLive(h) && q != NULL && HeapInv(h)
    requires var j := Deciding(h, 0, p, size);
      j < |h| && Walk(h[j], p).2 == p &&
      q == if MovesStart(DecidedPlan(h, p, size)) then p - (size - Walk(h[j], p).0[Walk(h[j], p).1].size)
           else p
    requires DecidedPlan(h, p, size) != Move
    ensures Placed(h, p, size, q, 0)
  {
    hide HeapLive, Deciding, Find, Live, HeapInv;
    var j := Deciding(h, 0, p, size);
    HitIsLive(h, j, p);
    LiveInHeap(h, j, p);
    StartDiffers(Walk(h[j], p).0, Walk(h[j], p).1, size);
  }

  lemma StartDiffers(c: seq<Cell>, k: nat, size: Word)
    requires k < |c|
    ensures MovesStart(Plan(c, k, size)) ==> size != c[k].size
  {
  }

  lemma BrokenRegion(g: Heap, h': Heap, j: nat, p: Word, q: Word, size: int)
    requires j < |g| && |h'| == |g|
    requires !(RegionInv(h'[j]) && Sum(h'[j].cells) == Sum(g[j].cells))
    ensures !Regrants(g, h', p, q, size)
  {
    hide HeapLive, TotalFree, RegionInv, Sum;
  }

  // ----- the result, branch by branch

  /** The difference of two sizes as the code sees it, in an `int`. */
  function SizeStep(size: Word, o: Word): (d: int)
    ensures -0x8000_0000 <= d < 0x8000_0000 && (d == 0 <==> size == o)
    ensures -0x8000_0000 <= size - o < 0x8000_0000 ==> d == size - o
  {
    if size - o >= 0x8000_0000 then size - o - 0x1_0000_0000
    else if size - o < -0x8000_0000 then size - o + 0x1_0000_0000
    else size - o
  }

  /** The bytes from `q` on are in no live block. */
  ghost predicate ApartFrom(live: map<int, int>, q: int, size: int)
  {
    forall r :: r in live ==> q + size <= r || r + live[r] <= q
  }

  /** What becomes of a request for `size` bytes at the used block `c[k]`, which starts at `b`: `q` is
      the result and `moved` the number of bytes copied. In words of the list alone: a free block behind
      pays for growth if it can, else a free block in front, else the bytes go to a new block; a free
      block in front gets what is cut off, else one behind, else a new descriptor, if there is one. */
  ghost predicate ResultAt(c: seq<Cell>, k: nat, b: Word, size: Word, full: bool, live: map<int, int>,
                           q: Word, moved: int)
    requires k < |c|
  {
    var o, d := c[k].size, SizeStep(size, c[k].size);
    var behind, front := k + 1 < |c| && c[k + 1].kind == Free, k > 0 && c[k - 1].kind == Free;
    if d == 0 then q == b && moved == 0
    else if d > 0 then
      if behind && c[k + 1].size >= d then q == b && moved == 0
      else if front && c[k - 1].size >= d then q == b - d && moved == 0
      else if q == NULL then moved == 0
      else moved == o && ApartFrom(live, q, size)
    else
      moved == 0 &&
      if front then q == (if d == size - o then b - d else Wrap(b - d))
      else if behind then q == b
      else if full then q == NULL
      else q == b
  }

  lemma PlanInWords(c: seq<Cell>, k: nat, size: Word)
    requires k < |c|
    ensures var d := SizeStep(size, c[k].size);
      var behind, front := k + 1 < |c| && c[k + 1].kind == Free, k > 0 && c[k - 1].kind == Free;
      Plan(c, k, size) ==
      if d == 0 then Keep
      else if d > 0 then
        if behind && c[k + 1].size >= d then TakeNext
        else if front && c[k - 1].size >= d then TakePrev else Move
      else if front then GiveToPrev else if behind then GiveToNext else Split
  {
    StepIsDiff(size, c[k].size);
  }

  lemma StepIsDiff(size: Word, o: Word)
    ensures Signed(Wrap(size - o)) == SizeStep(size, o)
    ensures SizeStep(size, o) > 0 ==> Wrap(size - o) == SizeStep(size, o)
    ensures SizeStep(size, o) < 0 ==> Wrap(0 - Wrap(size - o)) == -SizeStep(size, o)
  {
  }

  /** The pointer an in-place resize returns. */
  lemma InPlacePointer(r: Region, k: nat, b: Word, size: Word)
    requires BlockAt(r, k, b) && Plan(r.cells, k, size) != Move
    ensures var (q, o, d) := (ResizeInPlace(r, k, b, size).1, r.cells[k].size, SizeStep(size, r.cells[k].size));
      match Plan(r.cells, k, size)
      case TakePrev => q == b - d
      case GiveToPrev => q == if d == size - o then b - d else Wrap(b - d)
      case Split => q == if Full(r) then NULL else b
      case _ => q == b
  {
    hide Sum, Live, TotalFreeCells, Tidy, Edits, Signed, Wrap, InPlaceKeeps;
    PlanInWords(r.cells, k, size);
    StepIsDiff(size, r.cells[k].size);
    SizeBound(r.cells, k);
    if k > 0 { PrefixStep(r.cells, k); }
    var d := SizeStep(size, r.cells[k].size);
    if Plan(r.cells, k, size) == TakePrev {
      WrapWord(b - d);
    } else if Plan(r.cells, k, size) == GiveToPrev && d == size - r.cells[k].size {
      WrapWord(b - d);
    }
  }

  lemma GrantIsApart(g: Heap, size: Word)
    requires HeapInv(g) && size > 0
    ensures Alloc(g, size).1 != NULL ==> ApartFrom(HeapLive(g), Alloc(g, size).1, size)
  {
    hide HeapLive, HeapInv, Alloc, TotalFree;
    AllocGrants(g, size);
    var (g', q) := Alloc(g, size);
    if q != NULL {
      HeapIntervals(g');
      forall r | r in HeapLive(g)
        ensures q + size <= r || r + HeapLive(g)[r] <= q
      {
        assert r in HeapLive(g') && q in HeapLive(g');
      }
    }
  }

  /** The result of `mem_realloc` for any pointer on a sound heap: at the block the deciding walk stops
      at, whosever it is, `ResultAt` says what happens; when no walk stops the result is NULL, although
      a block may have been taken. */
  lemma ReallocResult(h: Heap, p: Word, size: Word)
    requires HeapInv(h) && size > 0
    ensures var (h', q, moved) := Realloc(h, 0, p, size);
      var j := Deciding(h, 0, p, size);
      if j == |h| then q == NULL && moved == 0 && h' == Alloc(Walked(h, j, p, size), size).0
      else
        var (c, k, b) := Walk(h[j], p);
        ResultAt(c, k, b, size, |c| + h[j].lost >= h[j].maxBlocks, HeapLive(h), q, moved)
  {
    hide Realloc, HeapLive, HeapInv, Alloc, FreeHeap, Walked, Deciding, Find, Plan, ResizeInPlace, BlockAt,
         SizeStep, ApartFrom;
    ReallocIsOutcome(h, p, size);
    var j := Deciding(h, 0, p, size);
    if j < |h| {
      var (c, k, b) := Walk(h[j], p);
      HitIsLive(h, j, p);
      PlanInWords(c, k, size);
      if Plan(c, k, size) == Move {
        WalksAreUnseen(h, j + 1, p, size);
        GrantIsApart(Walked(h, j + 1, p, size), size);
      } else {
        InPlacePointer(h[j].(cells := c), k, b, size);
      }
    }
  }

  // ----- calls that always do

  /** The block is in region `m`, whose `free_size` covers the new size. */
  ghost predicate Grows(h: Heap, m: nat, p: Word, size: Word)
  {
    HeapInv(h) && m < |h| && Covers(h[m], size) && p in Live(h[m].cells, h[m].addr) &&
    Live(h[m].cells, h[m].addr)[p] <= size < Live(h[m].cells, h[m].addr)[p] + 0x8000_0000
  }

  lemma {:induction false} OwnSlotDecides(h: Heap, i: nat, m: nat, p: Word, size: Word)
    requires HeapInv(h) && i <= m < |h| && Covers(h[m], size) && p in Live(h[m].cells, h[m].addr)
    ensures Deciding(h, i, p, size) == m
    decreases m - i
  {
    hide Sum, Live, Find, HeapInv;
    if i < m {
      if h[i].addr != NULL {
        WalkPasses(h, i, m, p);
      }
      OwnSlotDecides(h, i + 1, m, p, size);
    } else {
      RegionOf(h, m);
      WalkStops(h[m], p);
    }
  }

  lemma RegionOf(h: Heap, m: nat)
    requires HeapInv(h) && m < |h|
    ensures RegionInv(h[m])
  {
  }

  /** A block whose own region has the bytes can always be asked to grow. */
  lemma {:induction false} GrowthDoesItsJob(h: Heap, m: nat, p: Word, size: Word)
    requires Grows(h, m, p, size)
    ensures p in HeapLive(h) && size > 0 && DoesItsJob(h, p, size)
    ensures DecidedPlan(h, p, size) in {Keep, TakeNext, TakePrev, Move}
  {
    hide Sum, Live, Find, HeapLive, Deciding, HeapInv;
    OwnSlotDecides(h, 0, m, p, size);
    LiveInHeap(h, m, p);
    RegionOf(h, m);
    WalkStops(h[m], p);
    HitIsLive(h, m, p);
    var (c, k, b) := Walk(h[m], p);
    GrowthPlan(c, k, size);
    HeapIntervals(h);
  }

  lemma {:induction false} NoneDecides(h: Heap, i: nat, p: Word, size: Word)
    requires i <= |h| && NoneCovers(h, size)
    ensures Deciding(h, i, p, size) == |h|
    decreases |h| - i
  {
    if i < |h| {
      NoneDecides(h, i + 1, p, size);
    }
  }

  lemma {:induction false} NoneFits(h: Heap, size: Word)
    requires NoneCovers(h, size)
    ensures FirstFit(h, size) >= |h|
  {
    if h != [] {
      assert NoneCovers(h[1..], size);
      NoneFits(h[1..], size);
    }
  }

  /** A request no region covers is refused, which is doing the job. */
  lemma RefusalDoesItsJob(h: Heap, p: Word, size: Word)
    requires NoneCovers(h, size)
    ensures DoesItsJob(h, p, size) && Realloc(h, 0, p, size) == (h, NULL, 0)
  {
    hide Alloc;
    NoneDecides(h, 0, p, size);
    NoneFits(h, size);
    assert Walked(h, |h|, p, size) == h;
    AllocRefuses(h, size);
    ReallocIsOutcome(h, p, size);
  }

  /** With one region only, as in the running kernel, growing always does its job. */
  lemma {:induction false} OneRegionGrowth(h: Heap, m: nat, p: Word, size: Word)
    requires HeapInv(h) && p in HeapLive(h) && HeapLive(h)[p] <= size < HeapLive(h)[p] + 0x8000_0000
    requires m < |h| && forall i :: 0 <= i < |h| && i != m ==> h[i].addr == NULL
    ensures DoesItsJob(h, p, size)
  {
    hide Live, HeapLive, DoesItsJob, HeapInv, Deciding;
    LiveInSomeRegion(h, p);
    assert h[m].addr != NULL && p in Live(h[m].cells, h[m].addr);
    LiveInHeap(h, m, p);
    if h[m].freeSize >= size {
      GrowthDoesItsJob(h, m, p, size);
    } else {
      RefusalDoesItsJob(h, p, size);
    }
  }

  /** Every block is small enough for the sign of a size difference to be its sign. */
  ghost predicate HalfSized(h: Heap)
  {
    forall i :: 0 <= i < |h| ==> Sum(h[i].cells) < 0x8000_0000
  }

  lemma ReallocStep(h: Heap, i: nat, ptr: Word, size: Word)
    requires i <= |h|
    ensures i == |h| ==> Realloc(h, i, ptr, size) == (Alloc(h, size).0, NULL, 0)
    ensures i < |h| ==>
              if h[i].addr == NULL || h[i].freeSize < size then
                Realloc(h, i, ptr, size) == Realloc(h, i + 1, ptr, size)
              else
                var (c, k, b) := Find(h[i].cells, 0, h[i].addr, ptr);
                var h0 := h[i := h[i].(cells := c)];
                if k == |c| then Realloc(h, i, ptr, size) == Realloc(h0, i + 1, ptr, size)
                else if Plan(c, k, size) != Move then
                  Realloc(h, i, ptr, size) ==
                  (h0[i := ResizeInPlace(h0[i], k, b, size).0], ResizeInPlace(h0[i], k, b, size).1, 0)
                else
                  var (h1, p) := Alloc(h0, size);
                  Realloc(h, i, ptr, size) ==
                  if p == NULL then (h1, NULL, 0) else (FreeHeap(h1, ptr), p, c[k].size)
  {
    hide Find, ResizeInPlace, Alloc, FreeHeap;
  }
}
