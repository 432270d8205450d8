/** What keeps the heap sound: the invariant behind "the free block is always first", and what
    each operation does to the blocks its callers hold. */
module HeapLaws {
  import opened Machine
  import opened HeapSpec

  // ----- the invariant

  /** Only free and used blocks are on the list, and a used block holds at least one byte. */
  ghost predicate Tidy(cells: seq<Cell>)
  {
    forall i :: 0 <= i < |cells| ==>
      cells[i].kind == Free || (cells[i].kind == Used && cells[i].size > 0)
  }

  /** The block that heads the list is free and covers everything `free_size` promises. */
  ghost predicate HeadCovers(r: Region)
  {
    r.cells != [] && r.cells[0].kind == Free && r.cells[0].size >= r.freeSize
  }

  ghost predicate RegionInv(r: Region)
  {
    if r.addr == NULL then r.cells == [] && r.freeSize == 0
    else HeadCovers(r) && Tidy(r.cells) && r.addr + Sum(r.cells) < 0x1_0000_0000
  }

  /** Regions are registered in ascending address order and do not overlap. */
  ghost predicate Ascending(h: Heap)
  {
    forall i, j :: 0 <= i < j < |h| && h[i].addr != NULL && h[j].addr != NULL ==>
      h[i].addr + Sum(h[i].cells) <= h[j].addr
  }

  ghost predicate HeapInv(h: Heap)
  {
    (forall i :: 0 <= i < |h| ==> RegionInv(h[i])) && Ascending(h)
  }

  // ----- what callers hold

  /** The used blocks: start address to size. */
  ghost function Live(cells: seq<Cell>, base: int): map<int, int>
  {
    if cells == [] then map[]
    else
      var rest := Live(cells[1..], base + cells[0].size);
      if cells[0].kind == Used then map[base := cells[0].size] + rest else rest
  }

  ghost function HeapLive(h: Heap): map<int, int>
  {
    if h == [] then map[]
    else Live(h[0].cells, h[0].addr) + HeapLive(h[1..])
  }

  /** `q` is the lowest live address not below `ptr`. */
  ghost predicate IsNext(live: map<int, int>, ptr: int, q: int)
  {
    q in live && q >= ptr && forall r :: r in live && r >= ptr ==> q <= r
  }

  /** `live` without the block at the lowest address not below `ptr`, if there is one. */
  ghost function WithoutNext(live: map<int, int>, ptr: int): map<int, int>
  {
    map q | q in live && !IsNext(live, ptr, q) :: live[q]
  }

  // ----- lists of blocks

  lemma {:induction false} SumSplit(a: seq<Cell>, b: seq<Cell>)
    ensures Sum(a + b) == Sum(a) + Sum(b)
  {
    if a == [] {
      assert a + b == b;
    } else {
      assert (a + b)[1..] == a[1..] + b;
      SumSplit(a[1..], b);
    }
  }

  lemma {:induction false} LiveSplit(a: seq<Cell>, b: seq<Cell>, base: int)
    ensures Live(a + b, base) == Live(a, base) + Live(b, base + Sum(a))
  {
    if a == [] {
      assert a + b == b;
    } else {
      assert (a + b)[1..] == a[1..] + b;
      LiveSplit(a[1..], b, base + a[0].size);
    }
  }

  /** Live blocks are non-empty, lie inside the stretch and do not overlap. */
  lemma {:induction false} LiveIntervals(cells: seq<Cell>, base: int)
    requires Tidy(cells)
    ensures forall p :: p in Live(cells, base) ==>
              base <= p && 0 < Live(cells, base)[p] && p + Live(cells, base)[p] <= base + Sum(cells)
    ensures forall p, q :: p in Live(cells, base) && q in Live(cells, base) && p < q ==>
              p + Live(cells, base)[p] <= q
  {
    if cells != [] {
      assert Tidy(cells[1..]);
      LiveIntervals(cells[1..], base + cells[0].size);
    }
  }

  /** A list of blocks, up to what a rewrite in its middle may not change. */
  datatype Extent = Extent(sum: nat, live: map<int, int>, free: nat)

  ghost function ExtentOf(cells: seq<Cell>, base: int): Extent
  {
    Extent(Sum(cells), Live(cells, base), TotalFreeCells(cells))
  }

  ghost function Join(a: Extent, b: Extent): Extent
  {
    Extent(a.sum + b.sum, a.live + b.live, a.free + b.free)
  }

  lemma {:induction false} FreeSplit(a: seq<Cell>, b: seq<Cell>)
    ensures TotalFreeCells(a + b) == TotalFreeCells(a) + TotalFreeCells(b)
  {
    if a == [] {
      assert a + b == b;
    } else {
      assert (a + b)[1..] == a[1..] + b;
      FreeSplit(a[1..], b);
    }
  }

  lemma ExtentSplit(a: seq<Cell>, b: seq<Cell>, base: int)
    ensures ExtentOf(a + b, base) == Join(ExtentOf(a, base), ExtentOf(b, base + Sum(a)))
  {
    hide Sum, Live, TotalFreeCells;
    SumSplit(a, b);
    LiveSplit(a, b, base);
    FreeSplit(a, b);
  }

  /** The three parts a rewrite in the middle leaves apart. */
  lemma Around(pre: seq<Cell>, mid: seq<Cell>, post: seq<Cell>, base: int)
    ensures ExtentOf(pre + mid + post, base) ==
            Join(Join(ExtentOf(pre, base), ExtentOf(mid, base + Sum(pre))),
                 ExtentOf(post, base + Sum(pre) + Sum(mid)))
  {
    hide Sum, Live, TotalFreeCells;
    SumSplit(pre, mid);
    ExtentSplit(pre + mid, post, base);
    ExtentSplit(pre, mid, base);
  }

  ghost function CellExtent(c: Cell, base: int): Extent
  {
    Extent(c.size, if c.kind == Used then map[base := c.size] else map[],
           if c.kind == Free then c.size else 0)
  }

  lemma One(c: Cell, base: int)
    ensures ExtentOf([c], base) == CellExtent(c, base)
  {
    assert [c][1..] == [];
    assert ExtentOf([], base + c.size) == Extent(0, map[], 0);
  }

  lemma Two(c: Cell, d: Cell, base: int)
    ensures ExtentOf([c, d], base) == Join(CellExtent(c, base), CellExtent(d, base + c.size))
  {
    hide Live, TotalFreeCells;
    assert [c] + [d] == [c, d];
    ExtentSplit([c], [d], base);
    One(c, base);
    One(d, base + c.size);
  }

  // ----- merging

  /** The list written as what stands before, at and after a position. */
  lemma Middle(pre: seq<Cell>, mid: seq<Cell>, mid': seq<Cell>, post: seq<Cell>, base: int)
    requires ExtentOf(mid, base + Sum(pre)) == ExtentOf(mid', base + Sum(pre))
    ensures ExtentOf(pre + mid + post, base) == ExtentOf(pre + mid' + post, base)
  {
    hide Sum, Live, TotalFreeCells;
    assert Sum(mid) == Sum(mid');
    Around(pre, mid, post, base);
    Around(pre, mid', post, base);
  }

  lemma SizeBound(cells: seq<Cell>, k: nat)
    requires k < |cells|
    ensures Sum(cells[..k]) + cells[k].size <= Sum(cells)
    ensures k + 1 < |cells| ==> Sum(cells[..k]) + cells[k].size + cells[k + 1].size <= Sum(cells)
  {
    assert cells == cells[..k] + cells[k..];
    SumSplit(cells[..k], cells[k..]);
    assert cells[k..][1..] == cells[k + 1..];
  }

  lemma FixAtMerges(c: seq<Cell>, k: nat)
    requires k < |c|
    ensures if k + 1 < |c| && c[k].kind == Free && c[k + 1].kind == Free then
              FixAt(c, k) == c[..k] + [Cell(Free, Wrap(c[k].size + c[k + 1].size))] + c[k + 2..]
            else FixAt(c, k) == c
  {
  }

  /** The walk merges exactly when two free blocks in a row stand on its way; the list gets shorter. */
  lemma {:induction false} WalkMergesIff(cells: seq<Cell>, k: nat, base: Word, ptr: Word)
    requires k <= |cells|
    ensures var (c, s, _) := Find(cells, k, base, ptr);
      (c == cells <==>
         forall i :: k <= i <= s && i + 1 < |cells| ==> cells[i].kind != Free || cells[i + 1].kind != Free) &&
      (c != cells ==> |c| < |cells|)
    decreases |cells| - k
  {
    if k < |cells| {
      FixAtMerges(cells, k);
      var c := FixAt(cells, k);
      if c == cells && !(c[k].kind == Used && base >= ptr && ptr <= Wrap(base + c[k].size)) {
        WalkMergesIff(cells, k + 1, Wrap(base + c[k].size), ptr);
      }
    }
  }

  /** Two free blocks become one of their bytes. */
  lemma MergeExtent(pre: seq<Cell>, a: Cell, b: Cell, post: seq<Cell>, base: int)
    requires a.kind == Free && b.kind == Free && a.size + b.size < 0x1_0000_0000
    ensures ExtentOf(pre + [Cell(Free, Wrap(a.size + b.size))] + post, base) ==
            ExtentOf(pre + [a, b] + post, base)
  {
    hide Sum, Live, TotalFreeCells, Wrap;
    WrapWord(a.size + b.size);
    var m := Cell(Free, Wrap(a.size + b.size));
    Two(a, b, base + Sum(pre));
    One(m, base + Sum(pre));
    Middle(pre, [a, b], [m], post, base);
  }

  /** `mem_fix_block` changes neither the bytes covered nor any used block. */
  lemma FixKeeps(cells: seq<Cell>, k: nat, base: int)
    requires k < |cells| && Sum(cells) < 0x1_0000_0000
    ensures ExtentOf(FixAt(cells, k), base) == ExtentOf(cells, base)
    ensures FixAt(cells, k)[k].size >= cells[k].size
  {
    hide Sum, Live, TotalFreeCells, FixAt, ExtentOf, Wrap;
    SizeBound(cells, k);
    FixAtMerges(cells, k);
    if k + 1 < |cells| && cells[k].kind == Free && cells[k + 1].kind == Free {
      WrapWord(cells[k].size + cells[k + 1].size);
      assert cells == cells[..k] + [cells[k], cells[k + 1]] + cells[k + 2..];
      MergeExtent(cells[..k], cells[k], cells[k + 1], cells[k + 2..], base);
    }
  }

  lemma FixTidy(cells: seq<Cell>, k: nat)
    requires k < |cells| && Tidy(cells)
    ensures Tidy(FixAt(cells, k))
  {
  }

  // ----- mem_alloc

  lemma SearchStep(cells: seq<Cell>, k: nat, size: Word)
    requires k <= |cells|
    ensures k == |cells| ==> Search(cells, k, size) == (cells, k)
    ensures k < |cells| ==>
              var c := FixAt(cells, k);
              Search(cells, k, size) ==
              if c[k].kind != Free && !(c[k].size >= size) then Search(c, k + 1, size) else (c, k)
  {
  }

  /** With the head free, the search never gets past it: the skip test is decided there. */
  lemma SearchStopsAtHead(cells: seq<Cell>, size: Word)
    requires cells != [] && cells[0].kind == Free
    ensures Search(cells, 0, size) == (FixAt(cells, 0), 0)
  {
  }

  /** Without a free head that covers the request the skip test stops at blocks that cannot
      serve it: at a free block that is too small, and at a used block that is big enough. */
  lemma SkipTestAloneIsNotEnough()
    ensures var c := [Cell(Free, 4), Cell(Free, 0), Cell(Used, 8)];
            Search(c, 0, 16).1 == 0 && Search(c, 0, 16).0[0].size < 16
    ensures var c := [Cell(Used, 16), Cell(Free, 64)];
            Search(c, 0, 8).1 == 0 && c[0].kind == Used &&
            AllocIn(Region(4096, 0, 64, 8192, c, 0), 8).2 == 4104
  {
    var c := [Cell(Used, 16), Cell(Free, 64)];
    assert c[..0] == [];
  }

  /** Splitting a free head in two turns exactly its last `size` bytes into a used block. */
  lemma CarveAdds(c: seq<Cell>, addr: int, size: Word)
    requires c != [] && Tidy(c) && c[0].kind == Free && 0 < size <= c[0].size
    ensures var p := addr + c[0].size - size;
      p !in Live(c, addr) &&
      ExtentOf(Carve(c, 0, size), addr) ==
      Extent(Sum(c), Live(c, addr)[p := size], TotalFreeCells(c) - size)
  {
    hide Sum, Live, TotalFreeCells, Carve;
    var head, tail := c[0], c[1..];
    assert c == [head] + tail;
    ExtentSplit([head], tail, addr);
    One(head, addr);
    CarveExtent(c, addr, size);
    assert Tidy(tail);
    LiveIntervals(tail, addr + head.size);
    AddInFront(Live(tail, addr + head.size), addr + head.size - size, size);
  }

  /** An entry put in front of a map without it. */
  lemma AddInFront(t: map<int, int>, p: int, s: int)
    requires p !in t
    ensures map[p := s] + t == (map[] + t)[p := s]
  {
  }

  /** An entry taken out between two maps without it. */
  lemma TakeOut(a: map<int, int>, b: map<int, int>, p: int, s: int)
    requires p !in a && p !in b
    ensures var l := a + map[p := s] + b;
      p in l && l[p] == s && a + map[] + b == l - {p}
  {
  }

  lemma CarveExtent(c: seq<Cell>, addr: int, size: Word)
    requires c != [] && c[0].kind == Free && size <= c[0].size
    ensures var p := addr + c[0].size - size;
      ExtentOf(Carve(c, 0, size), addr) ==
      Join(Extent(c[0].size, map[p := size], c[0].size - size),
           ExtentOf(c[1..], addr + c[0].size))
  {
    hide Sum, Live, TotalFreeCells;
    var left, got := c[0].(size := Wrap(c[0].size - size)), Cell(Used, size);
    assert Carve(c, 0, size) == [left, got] + c[1..];
    ExtentSplit([left, got], c[1..], addr);
    Two(left, got, addr);
  }

  lemma CarveTidy(c: seq<Cell>, k: nat, size: Word)
    requires k < |c| && Tidy(c) && c[k].kind == Free && size > 0
    ensures Tidy(Carve(c, k, size))
  {
  }

  /** `mem_alloc` when the head serves the request. */
  lemma AllocInFromHead(r: Region, size: Word)
    requires RegionInv(r) && r.addr != NULL && size <= r.freeSize
    ensures var c := FixAt(r.cells, 0);
      AllocIn(r, size) ==
      if |c| + r.lost >= r.maxBlocks then (r.(cells := c), true, NULL)
      else (r.(cells := Carve(c, 0, size), freeSize := r.freeSize - size), true,
            Wrap(r.addr + c[0].size - size))
    ensures FixAt(r.cells, 0)[0].kind == Free && FixAt(r.cells, 0)[0].size >= r.cells[0].size
  {
    hide Live, TotalFreeCells, Carve;
    SearchStopsAtHead(r.cells, size);
    FixKeeps(r.cells, 0, r.addr);
    assert FixAt(r.cells, 0)[..0] == [];
  }

  /** Carving from the head of a sound region: nothing wraps, the granted bytes are the last
      ones of the merged head, and the region stays sound. */
  lemma AllocInRegion(r: Region, size: Word)
    requires RegionInv(r) && r.addr != NULL && 0 < size <= r.freeSize
    ensures var (r', done, p) := AllocIn(r, size);
      var c := FixAt(r.cells, 0);
      done && RegionInv(r') && r'.addr == r.addr && r'.lost == r.lost &&
      if |c| + r.lost >= r.maxBlocks then
        p == NULL && r'.freeSize == r.freeSize &&
        ExtentOf(r'.cells, r.addr) == ExtentOf(r.cells, r.addr)
      else
        p == r.addr + c[0].size - size && p >= r.addr && r'.freeSize == r.freeSize - size &&
        p !in Live(r.cells, r.addr) &&
        ExtentOf(r'.cells, r.addr) ==
        Extent(Sum(r.cells), Live(r.cells, r.addr)[p := size], TotalFreeCells(r.cells) - size)
  {
    hide Sum, Live, TotalFreeCells, Tidy, FixAt, AllocIn;
    AllocInFromHead(r, size);
    FixKeeps(r.cells, 0, r.addr);
    FixTidy(r.cells, 0);
    var c := FixAt(r.cells, 0);
    SizeBound(c, 0);
    assert c[..0] == [];
    CarveAdds(c, r.addr, size);
    CarveTidy(c, 0, size);
  }

  /** Two stretches of bytes with none in common, the first of them not empty. */
  predicate Apart(p: int, n: int, q: int, m: int)
  {
    p + n <= q || q + m <= p
  }

  /** The table of descriptors lies over the first bytes of the region, where blocks can be granted
      too: a granted block is clear of it exactly when that much is left of the head. */
  lemma GrantClearsTableIff(r: Region, size: Word)
    requires RegionInv(r) && r.addr != NULL && 0 < size <= r.freeSize && AllocIn(r, size).2 != NULL
    ensures var p, table := AllocIn(r, size).2, DESCRIPTOR_BYTES * r.maxBlocks;
      Apart(p, size, r.addr, table) <==> FixAt(r.cells, 0)[0].size - size >= table
  {
    hide AllocIn, FixAt, Sum, Live, TotalFreeCells;
    AllocInRegion(r, size);
  }

  // ----- mem_free

  /** Only a free head grows on the walk; it stays at the head. */
  ghost predicate HeadKept(before: seq<Cell>, after: seq<Cell>)
  {
    before != [] && before[0].kind == Free ==>
      after != [] && after[0].kind == Free && after[0].size >= before[0].size
  }

  /** Everything in front of position `j` that is used starts below `ptr`. */
  ghost predicate AllBelow(c: seq<Cell>, j: nat, addr: int, ptr: int)
    requires j <= |c|
  {
    forall q :: q in Live(c[..j], addr) ==> q < ptr
  }

  lemma BelowExtends(c: seq<Cell>, k: nat, addr: int, ptr: int)
    requires k < |c| && AllBelow(c, k, addr, ptr)
    requires c[k].kind == Used ==> addr + Sum(c[..k]) < ptr
    ensures AllBelow(c, k + 1, addr, ptr) && Sum(c[..k + 1]) == Sum(c[..k]) + c[k].size
  {
    hide Sum, Live, TotalFreeCells;
    assert c[..k + 1] == c[..k] + [c[k]];
    ExtentSplit(c[..k], [c[k]], addr);
    One(c[k], addr + Sum(c[..k]));
  }

  /** Where the walk from block `k` on stops, `r`: nothing is lost on the way, and position
      `r.1` is the first one that is used and starts at or after `ptr`. */
  ghost predicate StopsAtNext(cells: seq<Cell>, r: (seq<Cell>, nat, Word), addr: int, ptr: int)
  {
    && r.1 <= |r.0| && Tidy(r.0) && ExtentOf(r.0, addr) == ExtentOf(cells, addr)
    && HeadKept(cells, r.0)
    && r.2 == addr + Sum(r.0[..r.1]) && AllBelow(r.0, r.1, addr, ptr)
    && (r.1 < |r.0| ==> r.2 >= ptr)
  }

  predicate Matches(c: Cell, base: Word, ptr: Word)
  {
    c.kind == Used && base >= ptr && ptr <= Wrap(base + c.size)
  }

  lemma FindStep(cells: seq<Cell>, k: nat, base: Word, ptr: Word)
    requires k <= |cells|
    ensures k == |cells| ==> Find(cells, k, base, ptr) == (cells, k, base)
    ensures k < |cells| ==>
              var c := FixAt(cells, k);
              Find(cells, k, base, ptr) ==
              if Matches(c[k], base, ptr) then (c, k, base)
              else Find(c, k + 1, Wrap(base + c[k].size), ptr)
  {
  }

  /** The walk of `mem_free` and `mem_realloc` leaves every used block alone and stops at the
      first one that starts at or after `ptr`. */
  lemma {:induction false} FindFindsNext(cells: seq<Cell>, k: nat, addr: Word, ptr: Word)
    requires k <= |cells| && Tidy(cells) && addr + Sum(cells) < 0x1_0000_0000
    requires addr + Sum(cells[..k]) < 0x1_0000_0000 && AllBelow(cells, k, addr, ptr)
    ensures StopsAtNext(cells, Find(cells, k, addr + Sum(cells[..k]), ptr), addr, ptr)
    decreases |cells| - k
  {
    hide Sum, Live, TotalFreeCells, Tidy, Find, FixAt;
    var base := addr + Sum(cells[..k]);
    FindStep(cells, k, base, ptr);
    if k < |cells| {
      FixKeeps(cells, k, addr);
      FixTidy(cells, k);
      var c := FixAt(cells, k);
      FixHead(cells, k);
      SizeBound(c, k);
      if !Matches(c[k], base, ptr) {
        BelowExtends(c, k, addr, ptr);
        FindFindsNext(c, k + 1, addr, ptr);
      }
    }
  }

  lemma FixHead(cells: seq<Cell>, k: nat)
    requires k < |cells| && Sum(cells) < 0x1_0000_0000
    ensures HeadKept(cells, FixAt(cells, k))
  {
    FixKeeps(cells, k, 0);
    if k > 0 {
      assert FixAt(cells, k)[..k][0] == cells[..k][0];
    }
  }

  /** Giving block `k` back frees exactly its bytes. */
  lemma ReleaseRemoves(c: seq<Cell>, k: nat, addr: int)
    requires k < |c| && Tidy(c) && Sum(c) < 0x1_0000_0000 && c[k].kind == Used
    ensures var p := addr + Sum(c[..k]);
      p in Live(c, addr) && Live(c, addr)[p] == c[k].size &&
      ExtentOf(Release(c, k), addr) ==
      Extent(Sum(c), Live(c, addr) - {p}, TotalFreeCells(c) + c[k].size)
  {
    hide Sum, Live, TotalFreeCells, Release;
    var pre, post, b := c[..k], c[k + 1..], addr + Sum(c[..k]);
    assert c == pre + [c[k]] + post;
    Around(pre, [c[k]], post, addr);
    One(c[k], b);
    assert Tidy(pre) && Tidy(post);
    LiveIntervals(pre, addr);
    LiveIntervals(post, b + c[k].size);
    ReleaseExtent(c, k, addr);
    TakeOut(Live(pre, addr), Live(post, b + c[k].size), b, c[k].size);
  }

  lemma ReleaseExtent(c: seq<Cell>, k: nat, addr: int)
    requires k < |c| && Sum(c) < 0x1_0000_0000 && c[k].kind == Used
    ensures var b := addr + Sum(c[..k]);
      ExtentOf(Release(c, k), addr) ==
      Join(Join(ExtentOf(c[..k], addr), Extent(c[k].size, map[], c[k].size)),
           ExtentOf(c[k + 1..], b + c[k].size))
  {
    hide Sum, Live, TotalFreeCells, Release;
    var freed := c[k].(kind := Free);
    ReleaseAsFreed(c, k, addr);
    Around(c[..k], [freed], c[k + 1..], addr);
    One(freed, addr + Sum(c[..k]));
  }

  lemma ReleaseAsFreed(c: seq<Cell>, k: nat, addr: int)
    requires k < |c| && Sum(c) < 0x1_0000_0000 && c[k].kind == Used
    ensures ExtentOf(Release(c, k), addr) ==
            ExtentOf(c[..k] + [c[k].(kind := Free)] + c[k + 1..], addr)
  {
    hide Sum, Live, TotalFreeCells;
    if k > 0 && c[k - 1].kind == Free {
      MergeBack(c, k, addr);
    } else {
      assert Release(c, k) == c[..k] + [c[k].(kind := Free)] + c[k + 1..];
    }
  }

  /** Merging into a free predecessor covers the same bytes as freeing in place. */
  lemma MergeBack(c: seq<Cell>, k: nat, addr: int)
    requires 0 < k < |c| && Sum(c) < 0x1_0000_0000 && c[k].kind == Used && c[k - 1].kind == Free
    ensures ExtentOf(Release(c, k), addr) ==
            ExtentOf(c[..k] + [c[k].(kind := Free)] + c[k + 1..], addr)
  {
    hide Sum, Live, TotalFreeCells;
    var f, pre, post := c[k - 1], c[..k - 1], c[k + 1..];
    var freed, m := c[k].(kind := Free), Cell(Free, Wrap(f.size + c[k].size));
    SizeBound(c, k - 1);
    Two(f, freed, addr + Sum(pre));
    One(m, addr + Sum(pre));
    Middle(pre, [f, freed], [m], post, addr);
    assert pre + [f, freed] + post == c[..k] + [freed] + post;
  }

  lemma ReleaseTidy(c: seq<Cell>, k: nat)
    requires k < |c| && Tidy(c) && c[k].kind == Used && Sum(c) < 0x1_0000_0000
    ensures Tidy(Release(c, k)) && HeadKept(c, Release(c, k))
  {
    hide Sum, Live, TotalFreeCells;
    if k > 0 {
      SizeBound(c, k - 1);
    }
  }

  /** A release gives a descriptor back exactly when the block in front is free; the bytes then join
      that block. */
  lemma ReleaseJoinsIff(c: seq<Cell>, k: nat)
    requires k < |c| && Tidy(c) && Sum(c) < 0x1_0000_0000 && c[k].kind == Used
    ensures |Release(c, k)| == |c| - 1 <==> k > 0 && c[k - 1].kind == Free
    ensures |Release(c, k)| == |c| - 1 ==> Release(c, k)[k - 1].size == c[k - 1].size + c[k].size
    ensures |Release(c, k)| == |c| || |Release(c, k)| == |c| - 1
  {
    hide Sum;
    if k > 0 {
      SizeBound(c, k - 1);
    }
  }

  // ----- counting

  /** A slot that is not registered adds nothing, whatever is in it. */
  lemma {:induction false} UnregisteredIsNotCounted(h: Heap, i: nat)
    requires i < |h| && h[i].addr == NULL
    ensures TotalFree(h) == TotalFree(h[..i] + h[i + 1..])
  {
    hide TotalFreeCells;
    var g := h[..i] + h[i + 1..];
    if i == 0 {
      assert g == h[1..];
    } else {
      UnregisteredIsNotCounted(h[1..], i - 1);
      assert g[0] == h[0] && g[1..] == h[1..][..i - 1] + h[1..][i..];
    }
  }

  // ----- registering

  /** A region goes to the first slot that is not registered, and to the last one when all are. */
  lemma {:induction false} FreeSlotIsFirst(h: Heap, i: nat)
    requires i < |h|
    ensures var slot := FreeSlot(h, i);
      i <= slot && (forall j :: i <= j < slot ==> h[j].addr != NULL) &&
      (h[slot].addr == NULL || slot == |h| - 1)
    decreases |h| - i
  {
    if h[i].addr != NULL && i + 1 < |h| {
      FreeSlotIsFirst(h, i + 1);
    }
  }

  /** The table of a region has a descriptor for every 4096 bytes, and never fewer than 8192; what is
      left is one free block, all of it to be had. A region smaller than its table is left with a
      capacity that has wrapped around. */
  lemma NewRegionLayout(addr: Word, size: Word)
    ensures var r := NewRegion(addr, size);
      r.addr == addr && r.size == size && r.maxBlocks >= 8192 &&
      (r.maxBlocks > 8192 ==> 4096 * r.maxBlocks <= size < 4096 * (r.maxBlocks + 1)) &&
      (size < 4096 * 8193 <==> r.maxBlocks == 8192) &&
      12 * r.maxBlocks + r.freeSize == (if size < 12 * 8192 then size + 0x1_0000_0000 else size) &&
      r.cells == [Cell(Free, r.freeSize)] && r.lost == 0
  {
    TablesFit(size);
  }

  lemma TablesFit(size: Word)
    ensures size >= 12 * 8192 ==> 12 * MaxBlocksFor(size) <= size
    ensures size < 12 * 8192 ==> MaxBlocksFor(size) == 8192
  {
  }
}
