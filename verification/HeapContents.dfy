/** What is in the blocks: which bytes a `mem_realloc` hands over, and whose it leaves alone. */
module HeapContents {
  import opened Machine
  import opened Memory
  import opened HeapSpec
  import opened HeapLaws
  import opened HeapWide
  import opened HeapResize
  import opened HeapRealloc

  /** The bytes of memory, all 2^32 of them, after a `mem_realloc` that copied `moved` bytes from `p`
      to `q`. */
  function Copied(ram: seq<Byte>, p: Word, q: Word, moved: nat): (r: seq<Byte>)
    requires |ram| == 0x1_0000_0000
    ensures |r| == |ram|
  {
    CopyRing(ram, q, p, moved)
  }

  ghost predicate Preserves(ram: seq<Byte>, ram': seq<Byte>, p: nat, q: nat, n: nat)
    requires p + n <= |ram| && q + n <= |ram'|
  {
    ram'[q..q + n] == ram[p..p + n]
  }

  /** A call of `mem_realloc` on a live block that does its job. */
  ghost predicate Resizable(h: Heap, p: Word, size: Word)
  {
    HeapInv(h) && p in HeapLive(h) && size > 0 && DoesItsJob(h, p, size)
  }

  /** The bytes the block has before and after. */
  ghost function Common(h: Heap, p: Word, size: Word): (n: int)
    requires p in HeapLive(h)
  {
    if HeapLive(h)[p] < size then HeapLive(h)[p] else size
  }

  /** The addresses a `mem_realloc` deals with all lie in the address space. Bytes are copied only to
      a block apart from the old one. */
  lemma ResizeStaysInside(h: Heap, p: Word, size: Word)
    requires Resizable(h, p, size)
    ensures var (h', q, moved) := Realloc(h, 0, p, size);
      var n := HeapLive(h)[p];
      0 < n && p + n < 0x1_0000_0000 && moved < 0x1_0000_0000 &&
      (q == NULL ==> moved == 0) &&
      (q != NULL ==> q + size < 0x1_0000_0000) &&
      (moved > 0 ==> q != NULL && (q + size <= p || p + n <= q)) &&
      (q != NULL && q != p && moved == 0 ==> MovesStart(DecidedPlan(h, p, size)))
  {
    hide HeapLive, TotalFree, Realloc, FreeSizes, FreeHeap, Alloc, DoesItsJob, HeapInv, Deciding, Plan, Walk;
    ReallocExactIff(h, p, size);
    var (h', q, moved) := Realloc(h, 0, p, size);
    HeapIntervals(h);
    HeapIntervals(h');
    assert q != NULL ==> q in HeapLive(h') && HeapLive(h')[q] == size;
    MovedSomething(h, p, size);
  }

  /** A block that is moved by a hit has bytes. */
  lemma MovedSomething(h: Heap, p: Word, size: Word)
    requires HeapInv(h)
    ensures var j := Deciding(h, 0, p, size);
      j < |h| ==> Walk(h[j], p).0[Walk(h[j], p).1].size > 0
  {
    hide Sum, Live, Find, Deciding;
    if Deciding(h, 0, p, size) < |h| {
      HitIsLive(h, Deciding(h, 0, p, size), p);
    }
  }

  /** When the contents survive, from what is known before the call: the start does not move without
      them, and a copy, whose length is that of the block the walk stopped at, is long enough. */
  ghost predicate KeepsContents(h: Heap, p: Word, size: Word)
    requires p in HeapLive(h)
  {
    var j := Deciding(h, 0, p, size);
    !MovesStart(DecidedPlan(h, p, size)) &&
    (j < |h| && DecidedPlan(h, p, size) == Move ==>
       Walk(h[j], p).0[Walk(h[j], p).1].size >= Common(h, p, size))
  }

  /** A `mem_realloc` that succeeds hands over the bytes old and new block have in common, whatever
      they are, exactly when it moves the start of the block together with them: taking bytes from
      the block in front, or giving bytes to it, moves the start alone. */
  lemma ResizePreservesIff(h: Heap, p: Word, size: Word)
    requires Resizable(h, p, size) && Realloc(h, 0, p, size).1 != NULL
    ensures var (h', q, moved) := Realloc(h, 0, p, size);
      var n := Common(h, p, size);
      0 < n && p + n < 0x1_0000_0000 && q + n < 0x1_0000_0000 &&
      ((forall ram: seq<Byte> | |ram| == 0x1_0000_0000 ::
          Preserves(ram, Copied(ram, p, q, moved), p, q, n))
       <==> KeepsContents(h, p, size))
  {
    hide HeapLive, TotalFree, Realloc, FreeSizes, FreeHeap, Alloc, Regrants, HeapInv, DoesItsJob, Deciding,
         Plan, Walk, Copied, Preserves;
    ReallocExactIff(h, p, size);
    ResizeStaysInside(h, p, size);
    var (h', q, moved) := Realloc(h, 0, p, size);
    var n := Common(h, p, size);
    if q == p || moved >= n {
      forall ram: seq<Byte> | |ram| == 0x1_0000_0000
        ensures Preserves(ram, Copied(ram, p, q, moved), p, q, n)
      {
        if moved > 0 {
          StartArrives(ram, p, q, moved, n);
        } else {
          NothingCopied(ram, p, n);
        }
      }
    } else {
      MarkedMemory(p, q, moved, n);
    }
  }

  lemma NothingCopied(ram: seq<Byte>, p: Word, n: nat)
    requires |ram| == 0x1_0000_0000 && p + n <= |ram|
    ensures Preserves(ram, Copied(ram, p, p, 0), p, p, n)
  {
  }

  lemma StartArrives(ram: seq<Byte>, p: Word, q: Word, moved: nat, n: nat)
    requires |ram| == 0x1_0000_0000 && n <= moved < |ram| && p + n <= |ram| && q + n <= |ram|
    requires q + n <= p || p + n <= q
    ensures Preserves(ram, Copied(ram, p, q, moved), p, q, n)
  {
    hide CopyRing;
    var got, meant := Copied(ram, p, q, moved)[q..q + n], ram[p..p + n];
    forall i | 0 <= i < n
      ensures got[i] == meant[i]
    {
      RingStart(ram, q, p, moved, i, n);
    }
  }

  /** A memory with one byte set. */
  function Marked(at: Word): (ram: seq<Byte>)
    ensures |ram| == 0x1_0000_0000 && forall i :: 0 <= i < |ram| ==> ram[i] == if i == at then 1 else 0
  {
    seq(0x1_0000_0000, i => if i == at then 1 else 0)
  }

  lemma MarkedMemory(p: Word, q: Word, moved: nat, n: nat)
    requires moved < n && q != p && p + n < 0x1_0000_0000 && q + n < 0x1_0000_0000
    ensures exists ram: seq<Byte> ::
              |ram| == 0x1_0000_0000 && !Preserves(ram, Copied(ram, p, q, moved), p, q, n)
  {
    hide CopyRing, Marked, Preserves;
    var ram := Marked(p + moved);
    RingSpares(ram, q, p, moved, q + moved);
    ByteLost(ram, Copied(ram, p, q, moved), p, q, n, moved);
    assert !Preserves(ram, Copied(ram, p, q, moved), p, q, n);
  }

  lemma ByteLost(ram: seq<Byte>, ram': seq<Byte>, p: nat, q: nat, n: nat, i: nat)
    requires p + n <= |ram| && q + n <= |ram'| && i < n && ram'[q + i] != ram[p + i]
    ensures !Preserves(ram, ram', p, q, n)
  {
    assert ram'[q..q + n][i] != ram[p..p + n][i];
  }

  /** Whether a copy fits the new block, from what is known before the call: its length is that of the
      block the walk stopped at. */
  predicate CopyFits(h: Heap, p: Word, size: Word)
  {
    var j := Deciding(h, 0, p, size);
    j < |h| && DecidedPlan(h, p, size) == Move ==> Walk(h[j], p).0[Walk(h[j], p).1].size <= size
  }

  lemma MovedFitsIff(h: Heap, p: Word, size: Word)
    requires Resizable(h, p, size) && Realloc(h, 0, p, size).1 != NULL
    ensures var (h', q, moved) := Realloc(h, 0, p, size);
      (moved <= size <==> CopyFits(h, p, size)) &&
      (moved > size ==> q != p && q + size < 0x1_0000_0000 && p + size < 0x1_0000_0000)
  {
    hide HeapLive, TotalFree, Realloc, FreeSizes, FreeHeap, Alloc, HeapInv, DoesItsJob, Deciding, Plan, Find,
         Live, Sum;
    ReallocExactIff(h, p, size);
    ResizeStaysInside(h, p, size);
    var j := Deciding(h, 0, p, size);
    HitIsLive(h, j, p);
    BlockFits(h[j].(cells := Walk(h[j], p).0), Walk(h[j], p).1, Walk(h[j], p).2);
  }

  lemma BlockFits(r: Region, k: nat, b: int)
    requires BlockAt(r, k, b)
    ensures b + r.cells[k].size < 0x1_0000_0000
  {
    SizeBound(r.cells, k);
  }

  /** A `mem_realloc` writes to no byte outside the new block, whatever memory holds, exactly when the
      copy fits it. */
  lemma ResizeWritesInsideIff(h: Heap, p: Word, size: Word)
    requires Resizable(h, p, size) && Realloc(h, 0, p, size).1 != NULL
    ensures var (h', q, moved) := Realloc(h, 0, p, size);
      (forall ram: seq<Byte> | |ram| == 0x1_0000_0000 :: SparedOutside(ram, Copied(ram, p, q, moved), q, size))
      <==> CopyFits(h, p, size)
  {
    hide HeapLive, HeapInv, Realloc, Resizable, CopyFits, Copied, SparedOutside;
    var (h', q, moved) := Realloc(h, 0, p, size);
    MovedFitsIff(h, p, size);
    InsideTheNew(h, p, size);
    if moved <= size {
      forall ram: seq<Byte> | |ram| == 0x1_0000_0000
        ensures SparedOutside(ram, Copied(ram, p, q, moved), q, size)
      {
        OutsideSpared(ram, p, q, moved, size);
      }
    } else {
      OverrunShows(p, q, moved, size);
    }
  }

  lemma InsideTheNew(h: Heap, p: Word, size: Word)
    requires Resizable(h, p, size) && Realloc(h, 0, p, size).1 != NULL
    ensures Realloc(h, 0, p, size).1 + size < 0x1_0000_0000 && Realloc(h, 0, p, size).2 < 0x1_0000_0000
  {
    hide HeapLive, HeapInv, Realloc, DoesItsJob;
    ResizeStaysInside(h, p, size);
  }

  /** No byte outside `[q, q + size)` differs. */
  ghost predicate SparedOutside(ram: seq<Byte>, ram': seq<Byte>, q: int, size: int)
    requires |ram| == |ram'|
  {
    forall x :: 0 <= x < |ram| && !(q <= x < q + size) ==> ram'[x] == ram[x]
  }

  lemma OutsideSpared(ram: seq<Byte>, p: Word, q: Word, moved: nat, size: nat)
    requires |ram| == 0x1_0000_0000 && moved <= size && q + size < |ram|
    ensures SparedOutside(ram, Copied(ram, p, q, moved), q, size)
  {
    hide CopyRing;
    forall x | 0 <= x < |ram| && !(q <= x < q + size)
      ensures Copied(ram, p, q, moved)[x] == ram[x]
    {
      RingSpares(ram, q, p, moved, x);
    }
  }

  /** The byte behind the new block is overwritten. */
  lemma OverrunShows(p: Word, q: Word, moved: nat, size: nat)
    requires size < moved < 0x1_0000_0000 && q != p
    requires q + size < 0x1_0000_0000 && p + size < 0x1_0000_0000
    ensures exists ram: seq<Byte> ::
              |ram| == 0x1_0000_0000 && !SparedOutside(ram, Copied(ram, p, q, moved), q, size)
  {
    hide CopyRing, Marked;
    var ram := Marked(q + size);
    RingOverwrites(ram, q, p, moved, size, 0);
    assert Copied(ram, p, q, moved)[q + size] != ram[q + size];
    assert !SparedOutside(ram, Copied(ram, p, q, moved), q, size);
  }

  /** No other block changes its address or size, and none its bytes when the copy fits. */
  lemma ResizeSparesOthers(h: Heap, p: Word, size: Word, x: int, ram: seq<Byte>)
    requires Resizable(h, p, size)
    requires x in HeapLive(h) && x != p && |ram| == 0x1_0000_0000
    ensures var (h', q, moved) := Realloc(h, 0, p, size);
      var n := HeapLive(h)[x];
      0 < x && 0 < n && x + n < 0x1_0000_0000 && x in HeapLive(h') && HeapLive(h')[x] == n &&
      (CopyFits(h, p, size) ==> Preserves(ram, Copied(ram, p, q, moved), x, x, n))
  {
    hide HeapLive, TotalFree, Realloc, FreeSizes, FreeHeap, Alloc, HeapInv, DoesItsJob, Deciding, Plan, Walk,
         Copied, Preserves, Placed, DecidedPlan, CopyFits;
    ReallocExactIff(h, p, size);
    ResizeStaysInside(h, p, size);
    var (h', q, moved) := Realloc(h, 0, p, size);
    HeapIntervals(h');
    HeapIntervals(h);
    var n := HeapLive(h)[x];
    if q != NULL {
      MovedFitsIff(h, p, size);
      assert x in HeapLive(h') && q in HeapLive(h') && HeapLive(h')[q] == size;
      if moved <= size {
        Elsewhere(ram, p, q, moved, size, x, n);
      }
    } else {
      Elsewhere(ram, p, q, moved, 0, x, n);
    }
  }

  lemma Elsewhere(ram: seq<Byte>, p: Word, q: Word, moved: nat, size: nat, x: nat, n: nat)
    requires |ram| == 0x1_0000_0000 && moved <= size && q + size < |ram| && x + n < |ram|
    requires moved > 0 ==> x + n <= q || q + size <= x
    ensures Preserves(ram, Copied(ram, p, q, moved), x, x, n)
  {
    forall i | x <= i < x + n
      ensures Copied(ram, p, q, moved)[i] == ram[i]
    {
      RingSpares(ram, q, p, moved, i);
    }
  }

  /** Where all regions are below 2 GiB, no more is copied than the new block holds, and nothing wraps
      around the end of memory. */
  lemma CopyFitsNewBlock(h: Heap, p: Word, size: Word, ram: seq<Byte>)
    requires Resizable(h, p, size) && HalfSized(h) && |ram| == 0x1_0000_0000
    ensures var (h', q, moved) := Realloc(h, 0, p, size);
      CopyFits(h, p, size) && moved <= size &&
      p + moved < 0x1_0000_0000 && q + moved < 0x1_0000_0000 &&
      Copied(ram, p, q, moved) == CopyUp(ram, q, p, moved)
  {
    hide HeapLive, TotalFree, Realloc, FreeSizes, FreeHeap, Alloc, HeapInv, DoesItsJob, Deciding, Live, Find,
         Sum, Plan;
    ReallocExactIff(h, p, size);
    HeapIntervals(h);
    var j := Deciding(h, 0, p, size);
    if j < |h| {
      HitIsLive(h, j, p);
      WalkKeeps(h, j, p);
      var (c, k, _) := Walk(h[j], p);
      assert ExtentOf(c, h[j].addr).sum == Sum(h[j].cells);
      SizeBound(c, k);
      MoveGrows(c, k, size);
    }
    ResizeStaysInside(h, p, size);
    RingIsUp(ram, Realloc(h, 0, p, size).1, p, Realloc(h, 0, p, size).2);
  }

  lemma MoveGrows(c: seq<Cell>, k: nat, size: Word)
    requires k < |c| && c[k].size < 0x8000_0000
    ensures Plan(c, k, size) == Move ==> c[k].size < size
  {
  }
}
