/** Fresh heaps, the heap the kernel boots with, calls no ledger allows, and inputs on which the code
    of libc/alloc.c does not keep what it seems to promise. */
module HeapBoot {
  import opened Machine
  import opened HeapSpec
  import opened HeapLaws
  import opened HeapWide
  import opened HeapAnyOrder
  import opened HeapOrder
  import opened HeapResize
  import opened HeapRealloc
  import opened HeapContents
  import opened HeapRuns

  /** A new region is sound and within the memory it was given exactly when that memory can hold
      the smallest descriptor table; otherwise the capacity wraps around. */
  lemma FreshRegionSoundIff(addr: Word, size: Word)
    requires addr != NULL && addr + size < 0x1_0000_0000
    ensures var r := NewRegion(addr, size);
      RegionInv(r) && Sum(r.cells) <= size <==> size >= DESCRIPTOR_BYTES * MIN_BLOCKS
    ensures Live(NewRegion(addr, size).cells, addr) == map[]
  {
    One(Cell(Free, Capacity(size)), addr);
    assert ExtentOf(NewRegion(addr, size).cells, addr) ==
           Extent(Capacity(size), map[], Capacity(size));
  }

  /** A region slot that has not been registered. */
  const EMPTY_SLOT: Region := Region(NULL, 0, 0, 0, [], 0)

  /** The heap the kernel boots with: its one region starts every account at zero. */
  lemma BootHeapAgrees()
    ensures var h := [NewRegion(0x10000, 65536 * 128), EMPTY_SLOT, EMPTY_SLOT, EMPTY_SLOT];
            Agrees(World(h, map[], 0, 0), h) && TotalFree(h) == 8290304
  {
    var r := NewRegion(0x10000, 65536 * 128);
    var h := [r, EMPTY_SLOT, EMPTY_SLOT, EMPTY_SLOT];
    FreshRegionSoundIff(0x10000, 65536 * 128);
    assert ExtentOf(r.cells, 0x10000) == Extent(8290304, map[], 8290304) by {
      One(Cell(Free, 8290304), 0x10000);
    }
    EmptySlots(3);
    assert h[1..] == seq(3, _ => EMPTY_SLOT);
  }

  lemma {:induction false} EmptySlots(n: nat)
    ensures var h := seq(n, _ => EMPTY_SLOT);
            HeapLive(h) == map[] && TotalFree(h) == 0 && Covered(h) == 0 && FreeSizes(h) == 0
  {
    if n > 0 {
      EmptySlots(n - 1);
      assert seq(n, _ => EMPTY_SLOT)[1..] == seq(n - 1, _ => EMPTY_SLOT);
    }
  }

  /** Whatever is held, the walk for NULL finds the lowest of it. */
  lemma {:induction false} LowestLive(h: Heap)
    requires HeapInv(h) && exists q :: q in HeapLive(h)
    ensures exists q :: q in HeapLive(h) && IsNext(HeapLive(h), NULL, q)
  {
    hide Sum, Live, Find, TotalFreeCells;
    HeapInvParts(h);
    var r, l := h[0], Live(h[0].cells, h[0].addr);
    FindInRegion(r, NULL);
    var s := Find(r.cells, 0, r.addr, NULL);
    StopIsNext(r.cells, s, r.addr, NULL);
    FirstBelowRest(h);
    EmptyIsNotLive(r);
    LiveIntervals(r.cells, r.addr);
    if s.1 < |s.0| {
      assert IsNext(HeapLive(h), NULL, s.2);
    } else {
      assert forall q :: q !in l;
      LowestLive(h[1..]);
      assert HeapLive(h) == HeapLive(h[1..]);
    }
  }

  /** `free(NULL)` changes nothing for the callers exactly when they hold nothing. */
  lemma FreeNullIsNoOpIff(h: Heap)
    requires HeapInv(h)
    ensures HeapLive(FreeHeap(h, NULL)) == HeapLive(h) <==>
            forall q :: q !in HeapLive(h)
  {
    hide FreeHeap, HeapInv, TotalFree, HeapLive;
    FreeHeapFreesNext(h, NULL);
    if q :| q in HeapLive(h) {
      LowestLive(h);
      var x :| x in HeapLive(h) && IsNext(HeapLive(h), NULL, x);
      assert x !in HeapLive(FreeHeap(h, NULL));
    }
  }

  /** The list starts with a used block, but for free blocks without bytes. */
  predicate StartsUsed(c: seq<Cell>)
  {
    c != [] && (c[0].kind == Used || (c[0].size == 0 && StartsUsed(c[1..])))
  }

  lemma {:induction false} StartsUsedIff(c: seq<Cell>, base: int)
    requires Tidy(c)
    ensures base in Live(c, base) <==> StartsUsed(c)
  {
    if c != [] {
      assert Tidy(c[1..]);
      LiveIntervals(c[1..], base + c[0].size);
      StartsUsedIff(c[1..], base + c[0].size);
    }
  }

  /** A request gets an address of its own exactly when it is not empty, or is refused, or no used
      block follows the merged head: a block of no bytes shares its address with its neighbour. */
  lemma EmptyRequestSharesIff(r: Region, size: Word)
    requires RegionInv(r) && r.addr != NULL && size <= r.freeSize
    ensures var c := FixAt(r.cells, 0);
      AllocIn(r, size).2 !in Live(r.cells, r.addr) <==>
      size > 0 || |c| + r.lost >= r.maxBlocks || !StartsUsed(c[1..])
  {
    hide Sum, Live, TotalFreeCells, AllocIn, FixAt, StartsUsed;
    AllocInFromHead(r, size);
    FixKeeps(r.cells, 0, r.addr);
    FixTidy(r.cells, 0);
    var c := FixAt(r.cells, 0);
    LiveIntervals(r.cells, r.addr);
    assert ExtentOf(c, r.addr).sum == Sum(r.cells);
    assert ExtentOf(c, r.addr).live == Live(r.cells, r.addr);
    if size > 0 {
      AllocInRegion(r, size);
    } else {
      SizeBound(c, 0);
      WrapWord(r.addr + c[0].size);
      StartsUsedIff(c[1..], r.addr + c[0].size);
      BehindFreeHead(c, r.addr);
    }
  }

  lemma BehindFreeHead(c: seq<Cell>, base: int)
    requires c != [] && c[0].kind == Free
    ensures Live(c, base) == Live(c[1..], base + c[0].size)
  {
  }

  // ----- inputs on which the code fails, from the heap the kernel boots with

  const BOOT_BYTES: int := 8290304

  function BootHeap(): Heap
  {
    [NewRegion(0x10000, 65536 * 128), EMPTY_SLOT, EMPTY_SLOT, EMPTY_SLOT]
  }

  /** The boot heap with these blocks and this much of `free_size` left. */
  function BootWith(cells: seq<Cell>, free: Word, lost: nat): (h: Heap)
  {
    [Region(0x10000, 65536 * 128, free, 8192, cells, lost), EMPTY_SLOT, EMPTY_SLOT, EMPTY_SLOT]
  }

  lemma AllocFromBoot(cells: seq<Cell>, free: Word, size: Word)
    requires RegionInv(BootWith(cells, free, 0)[0]) && size <= free && |cells| < 100
    requires |cells| > 1 ==> cells[1].kind == Used
    ensures var left := cells[0].size - size;
      left >= 0 &&
      Alloc(BootWith(cells, free, 0), size) ==
      (BootWith([Cell(Free, left), Cell(Used, size)] + cells[1..], free - size, 0), 0x10000 + left)
  {
    hide AllocIn, Tidy, Sum;
    var h := BootWith(cells, free, 0);
    AllocInFromHead(h[0], size);
    assert FixAt(cells, 0) == cells;
    SizeBound(cells, 0);
    assert cells[..0] == [];
    WrapWord(cells[0].size - size);
    WrapWord(0x10000 + cells[0].size - size);
    var r := BootWith([Cell(Free, cells[0].size - size), Cell(Used, size)] + cells[1..], free - size, 0)[0];
    assert Carve(cells, 0, size) == r.cells;
    assert AllocIn(h[0], size).0 == r && AllocIn(h[0], size).1;
    assert [r] + h[1..] == BootWith(r.cells, free - size, 0);
  }


  lemma BootIsOneBlock()
    ensures BootHeap() == BootWith([Cell(Free, BOOT_BYTES)], BOOT_BYTES, 0)
    ensures HeapInv(BootHeap()) && HeapLive(BootHeap()) == map[]
  {
    hide HeapInv, HeapLive, Sum;
    BootHeapAgrees();
  }

  /** The heap after one grant of 16 bytes, and after two. */
  lemma BootGrants()
    ensures var h, p := BootWith([Cell(Free, BOOT_BYTES - 16), Cell(Used, 16)], BOOT_BYTES - 16, 0),
                        0x10000 + BOOT_BYTES - 16;
      Alloc(BootHeap(), 16) == (h, p) && HeapInv(h) && HeapLive(h) == map[p := 16]
    ensures var h, p := BootWith([Cell(Free, BOOT_BYTES - 32), Cell(Used, 16), Cell(Used, 16)],
                                 BOOT_BYTES - 32, 0), 0x10000 + BOOT_BYTES - 16;
      Alloc(Alloc(BootHeap(), 16).0, 16) == (h, p - 16) && HeapInv(h) &&
      HeapLive(h) == map[p := 16, p - 16 := 16]
  {
    hide HeapInv, HeapLive, Alloc, RegionInv;
    BootIsOneBlock();
    var c := [Cell(Free, BOOT_BYTES)];
    SoundBoot(c, BOOT_BYTES);
    AllocFromBoot(c, BOOT_BYTES, 16);
    AllocGrants(BootHeap(), 16);
    var d := [Cell(Free, BOOT_BYTES - 16), Cell(Used, 16)];
    assert d + c[1..] == d;
    SoundBoot(d, BOOT_BYTES - 16);
    AllocFromBoot(d, BOOT_BYTES - 16, 16);
    AllocGrants(BootWith(d, BOOT_BYTES - 16, 0), 16);
    assert [Cell(Free, BOOT_BYTES - 32), Cell(Used, 16)] + d[1..] ==
           [Cell(Free, BOOT_BYTES - 32), Cell(Used, 16), Cell(Used, 16)];
  }

  lemma SoundBoot(cells: seq<Cell>, free: Word)
    ensures HeapInv(BootWith(cells, free, 0)) ==> RegionInv(BootWith(cells, free, 0)[0])
  {
  }

  /** After one grant, an empty request is given the address of the block granted. */
  lemma EmptyRequestExample()
    ensures var (h, p) := Alloc(BootHeap(), 16); Alloc(h, 0).1 == p && p in HeapLive(h)
  {
    hide HeapInv, HeapLive, Alloc, RegionInv;
    BootGrants();
    var d := [Cell(Free, BOOT_BYTES - 16), Cell(Used, 16)];
    SoundBoot(d, BOOT_BYTES - 16);
    AllocFromBoot(d, BOOT_BYTES - 16, 0);
  }

  /** With one region, the block asked for decides. */
  lemma BootDecides(cells: seq<Cell>, free: Word, p: Word, size: Word, k: nat)
    requires Find(cells, 0, 0x10000, p) == (cells, k, p) && k < |cells| && size <= free
    ensures var h := BootWith(cells, free, 0);
      Deciding(h, 0, p, size) == 0 && Walk(h[0], p) == (cells, k, p) &&
      DecidedPlan(h, p, size) == Plan(cells, k, size) &&
      (Plan(cells, k, size) != Move ==>
         Realloc(h, 0, p, size) ==
         (h[0 := ResizeInPlace(h[0], k, p, size).0], ResizeInPlace(h[0], k, p, size).1, 0))
  {
    hide Find, ResizeInPlace, Plan, Realloc;
    var h := BootWith(cells, free, 0);
    ReallocStep(h, 0, p, size);
    assert h[0].(cells := cells) == h[0] && h[0 := h[0]] == h;
  }

  /** The first 16 bytes a caller gets, grown to 32, lose what is in them: the bytes come from the head,
      in front of them. */
  lemma FirstGrowthLosesExample()
    ensures var (h, p) := Alloc(BootHeap(), 16);
      Resizable(h, p, 32) && Realloc(h, 0, p, 32).1 == p - 16 && !KeepsContents(h, p, 32)
  {
    hide HeapInv, HeapLive, Alloc, Find, Realloc, Deciding;
    BootGrants();
    var c, p := [Cell(Free, BOOT_BYTES - 16), Cell(Used, 16)], 0x10000 + BOOT_BYTES - 16;
    FindStep(c, 0, 0x10000, p);
    FindStep(c, 1, p, p);
    BootDecides(c, BOOT_BYTES - 16, p, 32, 1);
  }

  /** Two blocks of 16 bytes, the first cut to 8: the splitting branch takes 8 bytes off the list and
      promises 8 bytes that the head does not have. */
  lemma FirstCutBreaksExample()
    ensures var p := 0x10000 + BOOT_BYTES - 16;
      var h := BootWith([Cell(Free, BOOT_BYTES - 32), Cell(Used, 16), Cell(Used, 16)],
                        BOOT_BYTES - 32, 0);
      var h' := BootWith([Cell(Free, BOOT_BYTES - 32), Cell(Used, 16), Cell(Used, 8)],
                         BOOT_BYTES - 24, 1);
      Alloc(Alloc(BootHeap(), 16).0, 16).0 == h && HeapInv(h) && p in HeapLive(h) &&
      !DoesItsJob(h, p, 8) && Realloc(h, 0, p, 8).0 == h' &&
      !HeapInv(h') && Covered(h') == Covered(h) - 8
  {
    hide HeapInv, HeapLive, Alloc, Find, Realloc, Deciding, Sum, Covered;
    BootGrants();
    var c := [Cell(Free, BOOT_BYTES - 32), Cell(Used, 16), Cell(Used, 16)];
    var p := 0x10000 + BOOT_BYTES - 16;
    FindStep(c, 0, 0x10000, p);
    FindStep(c, 1, p - 16, p);
    FindStep(c, 2, p, p);
    BootDecides(c, BOOT_BYTES - 32, p, 8, 2);
    var c' := c[2 := Cell(Used, 8)];
    assert c' == [Cell(Free, BOOT_BYTES - 32), Cell(Used, 16), Cell(Used, 8)];
    SumEdit(c, 2, Cell(Used, 8));
    BootCovers(c, BOOT_BYTES - 32, 0);
    BootCovers(c', BOOT_BYTES - 24, 1);
    HeadShort(BootWith(c', BOOT_BYTES - 24, 1));
  }

  lemma HeadShort(h: Heap)
    requires h != [] && h[0].addr != NULL && h[0].cells != [] && h[0].cells[0].size < h[0].freeSize
    ensures !HeapInv(h)
  {
  }

  lemma BootCovers(cells: seq<Cell>, free: Word, lost: nat)
    ensures Covered(BootWith(cells, free, lost)) == Sum(cells)
  {
    hide Sum;
    EmptySlots(3);
    assert BootWith(cells, free, lost)[1..] == seq(3, _ => EMPTY_SLOT);
  }

  lemma FreeFromBoot(cells: seq<Cell>, free: Word, ptr: Word, c: seq<Cell>, k: nat, b: Word)
    requires Find(cells, 0, 0x10000, ptr) == (c, k, b) && k < |c|
    ensures FreeHeap(BootWith(cells, free, 0), ptr) == BootWith(Release(c, k), free, 0)
  {
    hide Find, Release;
    var h := BootWith(cells, free, 0);
    assert FreeIn(h[0], ptr) == (BootWith(Release(c, k), free, 0)[0], true);
    assert [BootWith(Release(c, k), free, 0)[0]] + h[1..] == BootWith(Release(c, k), free, 0);
  }

  /** Freeing NULL gives back the one block granted. */
  lemma FreeNullExample()
    ensures var (h, p) := Alloc(BootHeap(), 16);
      HeapLive(h) == map[p := 16] && HeapLive(FreeHeap(h, NULL)) == map[]
  {
    hide HeapInv, HeapLive, Alloc, FreeHeap, TotalFree;
    BootGrants();
    var (h, p) := Alloc(BootHeap(), 16);
    FreeHeapFreesNext(h, NULL);
    assert IsNext(HeapLive(h), NULL, p);
    assert WithoutNext(HeapLive(h), NULL) == map[];
  }

  /** In 64 KiB there is no room for the smallest table of descriptors: the region believes it has
      nearly all of the address space. */
  lemma SmallRegionExample()
    ensures NewRegion(0x10000, 65536).freeSize == 0x1_0000_0000 - 32768
    ensures !RegionInv(NewRegion(0x10000, 65536))
  {
    hide RegionInv, Sum;
    FreshRegionSoundIff(0x10000, 65536);
    One(Cell(Free, Capacity(65536)), 0x10000);
    assert ExtentOf(NewRegion(0x10000, 65536).cells, 0x10000).sum == Capacity(65536);
    TooBig(NewRegion(0x10000, 65536));
  }

  lemma TooBig(r: Region)
    requires r.addr != NULL && Sum(r.cells) >= 0x1_0000_0000 - 0x10000 && r.addr >= 0x10000
    ensures !RegionInv(r)
  {
    hide Sum;
  }

  /** A grant that leaves 16 bytes of the head lies in the table of descriptors. */
  lemma TableOverlapExample()
    ensures var p := Alloc(BootHeap(), BOOT_BYTES - 16).1;
      p == 0x10010 && !Apart(p, BOOT_BYTES - 16, 0x10000, DESCRIPTOR_BYTES * BootHeap()[0].maxBlocks)
  {
    hide HeapInv, HeapLive, Alloc, RegionInv;
    BootIsOneBlock();
    SoundBoot([Cell(Free, BOOT_BYTES)], BOOT_BYTES);
    AllocFromBoot([Cell(Free, BOOT_BYTES)], BOOT_BYTES, BOOT_BYTES - 16);
  }

  /** As long as a run from the boot heap has taken no more than the capacity less the size of the table,
      every block held is clear of the table. */
  lemma BootRunClearsTable(ops: seq<Op>, p: int)
    requires AllAllowed(World(BootHeap(), map[], 0, 0), ops)
    requires var w := Run(World(BootHeap(), map[], 0, 0), ops);
      w.granted <= BOOT_BYTES - DESCRIPTOR_BYTES * MIN_BLOCKS && p in w.live
    ensures p >= 0x10000 + DESCRIPTOR_BYTES * MIN_BLOCKS
  {
    hide Run, HeapLive, Live, Sum, TotalFree, FreeSizes, Covered, SameSlots, NewRegion;
    BootHeapAgrees();
    var w0 := World(BootHeap(), map[], 0, 0);
    var w := Run(w0, ops);
    RunAgrees(w0, ops, BootHeap());
    BootSlots(w.heap);
    BootIsOneBlock();
    BootPromises([Cell(Free, BOOT_BYTES)], BOOT_BYTES);
    LiveInSomeRegion(w.heap, p);
    LiveBehindHead(w.heap, 0, p);
  }

  /** Only the first slot of such a heap is registered. */
  lemma BootSlots(h: Heap)
    requires HeapInv(h) && SameSlots(BootHeap(), h)
    ensures |h| == 4 && h[0].addr == 0x10000 && h[1].addr == h[2].addr == h[3].addr == NULL
    ensures FreeSizes(h) == h[0].freeSize
  {
    hide Sum;
    assert h[1..][1..] == h[2..] && h[2..][1..] == h[3..] && h[3..][1..] == [];
    assert FreeSizes(h[3..]) == h[3].freeSize + FreeSizes([]);
    assert FreeSizes(h[2..]) == h[2].freeSize + FreeSizes(h[3..]);
    assert FreeSizes(h[1..]) == h[1].freeSize + FreeSizes(h[2..]);
  }

  lemma BootPromises(cells: seq<Cell>, free: Word)
    ensures FreeSizes(BootWith(cells, free, 0)) == free
  {
    EmptySlots(3);
    assert BootWith(cells, free, 0)[1..] == seq(3, _ => EMPTY_SLOT);
  }

  /** The last of two granted blocks is released: a free block behind a used one. */
  lemma FreeBehindUsedExample()
    ensures var h := Alloc(Alloc(BootHeap(), 16).0, 16).0;
      var h' := FreeHeap(h, 0x10000 + BOOT_BYTES - 16);
      HeapInv(h') &&
      h' == BootWith([Cell(Free, BOOT_BYTES - 32), Cell(Used, 16), Cell(Free, 16)], BOOT_BYTES - 32, 0)
  {
    hide HeapInv, HeapLive, Alloc, Find, FreeHeap, TotalFree;
    BootGrants();
    var c := [Cell(Free, BOOT_BYTES - 32), Cell(Used, 16), Cell(Used, 16)];
    var p := 0x10000 + BOOT_BYTES - 16;
    FindStep(c, 0, 0x10000, p);
    FindStep(c, 1, p - 16, p);
    FindStep(c, 2, p, p);
    FreeFromBoot(c, BOOT_BYTES - 32, p, c, 2, p);
    assert Release(c, 2) == [Cell(Free, BOOT_BYTES - 32), Cell(Used, 16), Cell(Free, 16)];
    FreeHeapFreesNext(BootWith(c, BOOT_BYTES - 32, 0), p);
  }

  /** Three grants of 16 bytes, released in the order granted, and one more: the grant comes to stand
      between two free blocks. */
  lemma GrantBetweenFreeExample()
    ensures var h1 := Alloc(Alloc(Alloc(BootHeap(), 16).0, 16).0, 16).0;
      var p := 0x10000 + BOOT_BYTES - 16;
      var h2 := FreeHeap(FreeHeap(FreeHeap(h1, p), p - 16), p - 32);
      h2 == BootWith([Cell(Free, BOOT_BYTES - 32), Cell(Free, 16), Cell(Free, 16)], BOOT_BYTES - 48, 0) &&
      FreeFirst(h2[0].cells) &&
      Alloc(h2, 16).0 ==
      BootWith([Cell(Free, BOOT_BYTES - 32), Cell(Used, 16), Cell(Free, 16)], BOOT_BYTES - 64, 0)
  {
    hide HeapInv, HeapLive, Alloc, Find, FreeHeap, Sum;
    var n, p := BOOT_BYTES - 48, 0x10000 + BOOT_BYTES - 16;
    ThreeGrants();
    var c := [Cell(Free, n), Cell(Used, 16), Cell(Used, 16), Cell(Used, 16)];
    FindStep(c, 0, 0x10000, p);
    FindStep(c, 1, p - 32, p);
    FindStep(c, 2, p - 16, p);
    FindStep(c, 3, p, p);
    FreeFromBoot(c, n, p, c, 3, p);
    var d := [Cell(Free, n), Cell(Used, 16), Cell(Used, 16), Cell(Free, 16)];
    assert Release(c, 3) == d;
    FreeSecond(n, p);
    FreeThird(n, p);
    LastGrant(n);
  }

  /** Three grants of 16 bytes, the first and the third released: the block left grows to 24 bytes where
      it is, on the free block behind, although the head in front has bytes, too. */
  lemma GrowsInPlaceExample()
    ensures var h1 := Alloc(Alloc(Alloc(BootHeap(), 16).0, 16).0, 16).0;
      var p := 0x10000 + BOOT_BYTES - 32;
      var h2 := FreeHeap(FreeHeap(h1, p + 16), p - 16);
      h2 == BootWith([Cell(Free, BOOT_BYTES - 32), Cell(Used, 16), Cell(Free, 16)], BOOT_BYTES - 48, 0) &&
      Realloc(h2, 0, p, 24) ==
      (BootWith([Cell(Free, BOOT_BYTES - 32), Cell(Used, 24), Cell(Free, 8)], BOOT_BYTES - 56, 0), p, 0)
  {
    hide HeapInv, HeapLive, Alloc, Find, FreeHeap, Sum, Realloc;
    var n, p := BOOT_BYTES - 48, 0x10000 + BOOT_BYTES - 16;
    ThreeGrants();
    var c := [Cell(Free, n), Cell(Used, 16), Cell(Used, 16), Cell(Used, 16)];
    FindStep(c, 0, 0x10000, p);
    FindStep(c, 1, p - 32, p);
    FindStep(c, 2, p - 16, p);
    FindStep(c, 3, p, p);
    FreeFromBoot(c, n, p, c, 3, p);
    assert Release(c, 3) == [Cell(Free, n), Cell(Used, 16), Cell(Used, 16), Cell(Free, 16)];
    FreeThirdFirst(n, p);
    var e := [Cell(Free, n + 16), Cell(Used, 16), Cell(Free, 16)];
    FindStep(e, 0, 0x10000, p - 16);
    FindStep(e, 1, p - 16, p - 16);
    BootDecides(e, n, p - 16, 24, 1);
    GrownOnNext(n, p - 16);
    assert BootWith(e, n, 0)[0 := BootWith([Cell(Free, n + 16), Cell(Used, 24), Cell(Free, 8)], n - 8, 0)[0]] ==
           BootWith([Cell(Free, n + 16), Cell(Used, 24), Cell(Free, 8)], n - 8, 0);
  }

  lemma FreeThirdFirst(n: Word, p: Word)
    requires n == BOOT_BYTES - 48 && p == 0x10000 + BOOT_BYTES - 16
    ensures FreeHeap(BootWith([Cell(Free, n), Cell(Used, 16), Cell(Used, 16), Cell(Free, 16)], n, 0), p - 32) ==
            BootWith([Cell(Free, n + 16), Cell(Used, 16), Cell(Free, 16)], n, 0)
  {
    hide Find, FreeHeap;
    var d := [Cell(Free, n), Cell(Used, 16), Cell(Used, 16), Cell(Free, 16)];
    FindStep(d, 0, 0x10000, p - 32);
    FindStep(d, 1, p - 32, p - 32);
    FreeFromBoot(d, n, p - 32, d, 1, p - 32);
    assert Release(d, 1) == [Cell(Free, n + 16), Cell(Used, 16), Cell(Free, 16)];
  }

  lemma GrownOnNext(n: Word, b: Word)
    requires n == BOOT_BYTES - 48
    ensures var e := [Cell(Free, n + 16), Cell(Used, 16), Cell(Free, 16)];
      Plan(e, 1, 24) != Move &&
      ResizeInPlace(BootWith(e, n, 0)[0], 1, b, 24) ==
      (BootWith([Cell(Free, n + 16), Cell(Used, 24), Cell(Free, 8)], n - 8, 0)[0], b)
  {
    var e := [Cell(Free, n + 16), Cell(Used, 16), Cell(Free, 16)];
    assert e[1 := Cell(Used, 24)][2 := Cell(Free, 8)] == [Cell(Free, n + 16), Cell(Used, 24), Cell(Free, 8)];
  }

  lemma ThreeGrants()
    ensures Alloc(Alloc(Alloc(BootHeap(), 16).0, 16).0, 16).0 ==
            BootWith([Cell(Free, BOOT_BYTES - 48), Cell(Used, 16), Cell(Used, 16), Cell(Used, 16)],
                     BOOT_BYTES - 48, 0)
  {
    hide HeapInv, HeapLive, Alloc, RegionInv;
    BootGrants();
    var c := [Cell(Free, BOOT_BYTES - 32), Cell(Used, 16), Cell(Used, 16)];
    SoundBoot(c, BOOT_BYTES - 32);
    AllocFromBoot(c, BOOT_BYTES - 32, 16);
    assert [Cell(Free, BOOT_BYTES - 48), Cell(Used, 16)] + c[1..] ==
           [Cell(Free, BOOT_BYTES - 48), Cell(Used, 16), Cell(Used, 16), Cell(Used, 16)];
  }

  lemma FreeSecond(n: Word, p: Word)
    requires n == BOOT_BYTES - 48 && p == 0x10000 + BOOT_BYTES - 16
    ensures FreeHeap(BootWith([Cell(Free, n), Cell(Used, 16), Cell(Used, 16), Cell(Free, 16)], n, 0), p - 16) ==
            BootWith([Cell(Free, n), Cell(Used, 16), Cell(Free, 16), Cell(Free, 16)], n, 0)
  {
    hide Find, FreeHeap;
    var d := [Cell(Free, n), Cell(Used, 16), Cell(Used, 16), Cell(Free, 16)];
    FindStep(d, 0, 0x10000, p - 16);
    FindStep(d, 1, p - 32, p - 16);
    FindStep(d, 2, p - 16, p - 16);
    FreeFromBoot(d, n, p - 16, d, 2, p - 16);
    assert Release(d, 2) == [Cell(Free, n), Cell(Used, 16), Cell(Free, 16), Cell(Free, 16)];
  }

  lemma FreeThird(n: Word, p: Word)
    requires n == BOOT_BYTES - 48 && p == 0x10000 + BOOT_BYTES - 16
    ensures FreeHeap(BootWith([Cell(Free, n), Cell(Used, 16), Cell(Free, 16), Cell(Free, 16)], n, 0), p - 32) ==
            BootWith([Cell(Free, n + 16), Cell(Free, 16), Cell(Free, 16)], n, 0)
  {
    hide Find, FreeHeap;
    var d := [Cell(Free, n), Cell(Used, 16), Cell(Free, 16), Cell(Free, 16)];
    FindStep(d, 0, 0x10000, p - 32);
    FindStep(d, 1, p - 32, p - 32);
    FreeFromBoot(d, n, p - 32, d, 1, p - 32);
    assert Release(d, 1) == [Cell(Free, n + 16), Cell(Free, 16), Cell(Free, 16)];
  }

  lemma LastGrant(n: Word)
    requires n == BOOT_BYTES - 48
    ensures Alloc(BootWith([Cell(Free, n + 16), Cell(Free, 16), Cell(Free, 16)], n, 0), 16).0 ==
            BootWith([Cell(Free, n + 16), Cell(Used, 16), Cell(Free, 16)], n - 16, 0)
  {
    hide AllocIn, Sum, Tidy;
    var c := [Cell(Free, n + 16), Cell(Free, 16), Cell(Free, 16)];
    var h := BootWith(c, n, 0);
    ThreeFreeSound(c, n);
    AllocInFromHead(h[0], 16);
    assert FixAt(c, 0) == [Cell(Free, n + 32), Cell(Free, 16)];
    assert Carve([Cell(Free, n + 32), Cell(Free, 16)], 0, 16) ==
           [Cell(Free, n + 16), Cell(Used, 16), Cell(Free, 16)];
    assert [BootWith([Cell(Free, n + 16), Cell(Used, 16), Cell(Free, 16)], n - 16, 0)[0]] + h[1..] ==
           BootWith([Cell(Free, n + 16), Cell(Used, 16), Cell(Free, 16)], n - 16, 0);
  }

  lemma ThreeFreeSound(c: seq<Cell>, n: Word)
    requires n == BOOT_BYTES - 48 && c == [Cell(Free, n + 16), Cell(Free, 16), Cell(Free, 16)]
    ensures RegionInv(BootWith(c, n, 0)[0])
  {
    assert c[1..][1..] == [c[2]];
    assert Sum([c[2]]) == c[2].size;
  }

  // ----- two regions

  /** Two regions that the kernel could register, both with one block granted; the first has no byte
      left. */
  function TwoRegions(head: Word, block: Word): (h: Heap)
    ensures |h| == 4
  {
    [Region(0x10000, 98320, 0, 8192, [Cell(Free, 0), Cell(Used, 16)], 0),
     Region(0x100000, 98376, head, 8192, [Cell(Free, head), Cell(Used, block)], 0), EMPTY_SLOT, EMPTY_SLOT]
  }

  function FreshTwo(): (h: Heap)
    ensures |h| == 4
  {
    [NewRegion(0x10000, 98320), NewRegion(0x100000, 98376), EMPTY_SLOT, EMPTY_SLOT]
  }

  lemma FreeThenUsed(f: Word, u: Word, base: int)
    ensures ExtentOf([Cell(Free, f), Cell(Used, u)], base) == Extent(f + u, map[base + f := u], f)
  {
    hide Live, Sum, TotalFreeCells, ExtentOf;
    Two(Cell(Free, f), Cell(Used, u), base);
    assert map[] + map[base + f := u] == map[base + f := u];
  }

  lemma LiveOfTwo(h: Heap)
    requires |h| == 4 && h[2] == h[3] == EMPTY_SLOT
    ensures HeapLive(h) == Live(h[0].cells, h[0].addr) + Live(h[1].cells, h[1].addr)
  {
    hide Live;
    EmptySlots(2);
    assert h[1..][1..] == seq(2, _ => EMPTY_SLOT);
    assert HeapLive(h[1..]) == Live(h[1].cells, h[1].addr) + map[];
  }

  lemma TwoRegionsLive(head: Word, block: Word)
    requires head + block == 72 && block > 0
    ensures HeapLive(TwoRegions(head, block)) == map[0x10000 := 16, 0x100000 + head := block]
    ensures HeapInv(TwoRegions(head, block))
  {
    hide Live, TotalFreeCells, HeapLive, Sum;
    var h := TwoRegions(head, block);
    FreeThenUsed(0, 16, 0x10000);
    FreeThenUsed(head, block, 0x100000);
    LiveOfTwo(h);
    EmptyRegion();
    assert Live(h[0].cells, 0x10000) == ExtentOf(h[0].cells, 0x10000).live;
    assert Live(h[1].cells, 0x100000) == ExtentOf(h[1].cells, 0x100000).live;
    assert Sum(h[0].cells) == ExtentOf(h[0].cells, 0x10000).sum;
    assert Sum(h[1].cells) == ExtentOf(h[1].cells, 0x100000).sum;
  }

  lemma EmptyRegion()
    ensures RegionInv(EMPTY_SLOT)
  {
  }

  /** A request served by the slot in front of which none covers it. */
  lemma FirstGrants()
    ensures Alloc(FreshTwo(), 16) ==
            (FreshTwo()[0 := TwoRegions(64, 8)[0]], 0x10000)
    ensures Alloc(FreshTwo()[0 := TwoRegions(64, 8)[0]], 8) == (TwoRegions(64, 8), 0x100040)
  {
    hide AllocIn, RegionInv, Sum;
    var f, t := FreshTwo(), TwoRegions(64, 8);
    FreshRegionSoundIff(0x10000, 98320);
    FreshRegionSoundIff(0x100000, 98376);
    OneBlockGrant(f[0], 16);
    OneBlockGrant(f[1], 8);
    var g := f[0 := t[0]];
    assert [t[0]] + f[1..] == g;
    assert g[1..][0] == f[1] && [t[1]] + g[1..][1..] == t[1..];
    assert [g[0]] + t[1..] == t;
  }

  lemma OneBlockGrant(r: Region, size: Word)
    requires RegionInv(r) && r.addr != NULL && r.cells == [Cell(Free, r.freeSize)] && size <= r.freeSize
    requires r.lost == 0 && r.maxBlocks > 1
    ensures AllocIn(r, size) ==
            (r.(cells := [Cell(Free, r.freeSize - size), Cell(Used, size)], freeSize := r.freeSize - size),
             true, r.addr + (r.freeSize - size))
  {
    hide AllocIn, Sum;
    AllocInFromHead(r, size);
    SizeBound(r.cells, 0);
    assert FixAt(r.cells, 0) == r.cells && r.cells[..0] == [];
    assert Carve(r.cells, 0, size) == [Cell(Free, r.freeSize - size), Cell(Used, size)];
    WrapWord(r.addr + (r.freeSize - size));
  }

  /** When a region other than the block's own has the bytes, the walk there stops at a block of
      somebody else: after two grants, the 32 bytes asked for the block at 0x10000 go to the one at
      0x100040. */
  lemma ResizesAnotherExample()
    ensures var h := TwoRegions(64, 8);
      Alloc(Alloc(FreshTwo(), 16).0, 8).0 == h &&
      HeapInv(h) && HeapLive(h) == map[0x10000 := 16, 0x100040 := 8] &&
      Realloc(h, 0, 0x10000, 32) == (TwoRegions(40, 32), 0x100028, 0) &&
      HeapLive(TwoRegions(40, 32)) == map[0x10000 := 16, 0x100028 := 32]
  {
    hide HeapInv, HeapLive, Find, FixAt, ResizeInPlace, Alloc;
    var h := TwoRegions(64, 8);
    FirstGrants();
    TwoRegionsLive(64, 8);
    TwoRegionsLive(40, 32);
    ReallocStep(h, 0, 0x10000, 32);
    ReallocStep(h, 1, 0x10000, 32);
    FoundAnother();
    TradedAnother();
    assert h[1 := h[1].(cells := h[1].cells)] == h;
    assert h[1 := TwoRegions(40, 32)[1]] == TwoRegions(40, 32);
  }

  lemma FoundAnother()
    ensures var c := [Cell(Free, 64), Cell(Used, 8)];
            Find(c, 0, 0x100000, 0x10000) == (c, 1, 0x100040)
  {
    hide Find;
    var c := [Cell(Free, 64), Cell(Used, 8)];
    FindStep(c, 0, 0x100000, 0x10000);
    FindStep(c, 1, 0x100040, 0x10000);
  }

  lemma TradedAnother()
    ensures var r := TwoRegions(64, 8)[1];
      Plan(r.cells, 1, 32) == TakePrev &&
      ResizeInPlace(r, 1, 0x100040, 32) == (TwoRegions(40, 32)[1], 0x100028)
  {
    var c := [Cell(Free, 64), Cell(Used, 8)];
    assert c[1 := Cell(Used, 32)][0 := Cell(Free, 40)] == [Cell(Free, 40), Cell(Used, 32)];
  }

  // ----- two regions out of order

  function HighFirst(): (h: Heap)
    ensures |h| == 4
  {
    [NewRegion(0x100000, 98320), NewRegion(0x10000, 98376), EMPTY_SLOT, EMPTY_SLOT]
  }

  function HighFirstGranted(): (h: Heap)
    ensures |h| == 4
  {
    [Region(0x100000, 98320, 8, 8192, [Cell(Free, 8), Cell(Used, 8)], 0),
     Region(0x10000, 98376, 56, 8192, [Cell(Free, 56), Cell(Used, 16)], 0), EMPTY_SLOT, EMPTY_SLOT]
  }

  lemma HighFirstGrants()
    ensures Alloc(HighFirst(), 8) == (HighFirst()[0 := HighFirstGranted()[0]], 0x100008)
    ensures Alloc(HighFirst()[0 := HighFirstGranted()[0]], 16) == (HighFirstGranted(), 0x10038)
  {
    hide AllocIn, RegionInv, Sum;
    var f, t := HighFirst(), HighFirstGranted();
    FreshRegionSoundIff(0x100000, 98320);
    FreshRegionSoundIff(0x10000, 98376);
    OneBlockGrant(f[0], 8);
    OneBlockGrant(f[1], 16);
    var g := f[0 := t[0]];
    assert [t[0]] + f[1..] == g;
    assert g[1..][0] == f[1] && [t[1]] + g[1..][1..] == t[1..];
    assert [g[0]] + t[1..] == t;
  }

  /** With the higher region registered first, releasing the block at 0x10038 releases the one at
      0x100008 instead. */
  lemma FreesAnotherExample()
    ensures var h := Alloc(Alloc(HighFirst(), 8).0, 16).0;
      h == HighFirstGranted() && HeapLive(h) == map[0x100008 := 8, 0x10038 := 16] &&
      HeapLive(FreeHeap(h, 0x10038)) != HeapLive(h) - {0x10038}
  {
    hide Live, HeapLive, Alloc, FreeHeap, Sum;
    HighFirstGrants();
    var h := HighFirstGranted();
    FreeThenUsed(8, 8, 0x100000);
    FreeThenUsed(56, 16, 0x10000);
    LiveOfTwo(h);
    EmptyRegion();
    assert LiveOf(h[0]) == ExtentOf(h[0].cells, 0x100000).live;
    assert LiveOf(h[1]) == ExtentOf(h[1].cells, 0x10000).live;
    assert Sum(h[0].cells) == ExtentOf(h[0].cells, 0x100000).sum;
    assert Sum(h[1].cells) == ExtentOf(h[1].cells, 0x10000).sum;
    assert 0x100008 in LiveOf(h[0]) && !AllBelowPtr(h[0], 0x10038);
    FreeExactIff(h, 1, 0x10038);
  }
}
