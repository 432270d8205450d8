/** Where the free blocks of libc/alloc.c are: the remark in `mem_realloc` that all of them are at the
    left, and when the operations keep it true. */
module HeapOrder {
  import opened Machine
  import opened HeapSpec
  import opened HeapLaws
  import opened HeapWide

  /** Every free block stands in front of every used one. */
  ghost predicate FreeFirst(c: seq<Cell>)
  {
    forall i, j :: 0 <= i < j < |c| && c[j].kind == Free ==> c[i].kind == Free
  }

  lemma FixKeepsOrder(cells: seq<Cell>, k: nat)
    requires k < |cells| && FreeFirst(cells)
    ensures FreeFirst(FixAt(cells, k))
  {
    var c := FixAt(cells, k);
    if |c| < |cells| {
      assert forall i :: 0 <= i < |c| ==> c[i].kind == (if i <= k then cells[i] else cells[i + 1]).kind;
    }
  }

  lemma {:induction false} WalkKeepsOrder(cells: seq<Cell>, k: nat, base: Word, ptr: Word)
    requires k <= |cells| && FreeFirst(cells)
    ensures FreeFirst(Find(cells, k, base, ptr).0)
    decreases |cells| - k
  {
    hide Find, FixAt, FreeFirst, Wrap;
    FindStep(cells, k, base, ptr);
    if k < |cells| {
      FixKeepsOrder(cells, k);
      WalkKeepsOrder(FixAt(cells, k), k + 1, Wrap(base + FixAt(cells, k)[k].size), ptr);
    }
  }

  /** Giving a block back keeps the free blocks at the left exactly when there is no used block right
      in front of it. */
  lemma ReleaseOrderIff(c: seq<Cell>, k: nat)
    requires k < |c| && Tidy(c) && FreeFirst(c) && c[k].kind == Used
    ensures FreeFirst(Release(c, k)) <==> k == 0 || c[k - 1].kind == Free
  {
    var d := Release(c, k);
    if k > 0 && c[k - 1].kind == Free {
      assert forall i :: 0 <= i < |d| ==> d[i].kind == (if i < k then c[i] else c[i + 1]).kind;
    } else if k > 0 {
      assert d[k].kind == Free && d[k - 1].kind == Used;
    }
  }

  /** The same for all of `mem_free` in one region: after the walk, which keeps the order. */
  lemma FreeOrderIff(r: Region, ptr: Word)
    requires RegionInv(r) && r.addr != NULL && FreeFirst(r.cells)
    ensures var (c, k, _) := Find(r.cells, 0, r.addr, ptr);
      FreeFirst(FreeIn(r, ptr).0.cells) <==> k == |c| || k == 0 || c[k - 1].kind == Free
  {
    hide Find, Release, FreeFirst, Tidy;
    WalkKeepsOrder(r.cells, 0, r.addr, ptr);
    FindInRegion(r, ptr);
    var (c, k, _) := Find(r.cells, 0, r.addr, ptr);
    if k < |c| {
      ReleaseOrderIff(c, k);
    }
  }

  /** Granting a block keeps the free blocks at the left exactly when none is left behind the head
      once the head has swallowed one; a refused request always does. */
  lemma AllocOrderIff(r: Region, size: Word)
    requires RegionInv(r) && r.addr != NULL && 0 < size <= r.freeSize && FreeFirst(r.cells)
    ensures var c := FixAt(r.cells, 0);
      FreeFirst(AllocIn(r, size).0.cells) <==>
      |c| + r.lost >= r.maxBlocks || |c| == 1 || c[1].kind == Used
  {
    hide AllocIn, FixAt, Sum;
    AllocInFromHead(r, size);
    FixKeepsOrder(r.cells, 0);
    FixTidy(r.cells, 0);
    var c := FixAt(r.cells, 0);
    CarveOrderIff(c, size);
  }

  lemma CarveOrderIff(c: seq<Cell>, size: Word)
    requires c != [] && Tidy(c) && c[0].kind == Free && FreeFirst(c)
    ensures FreeFirst(Carve(c, 0, size)) <==> |c| == 1 || c[1].kind == Used
  {
    var d := Carve(c, 0, size);
    assert d[0].kind == Free && d[1].kind == Used;
    assert forall i :: 2 <= i < |d| ==> d[i] == c[i - 1];
    if |c| > 1 && c[1].kind == Free {
      assert d[2].kind == Free;
    } else if |c| > 1 {
      assert forall i :: 1 <= i < |c| ==> c[i].kind == Used;
    }
  }

  /** No resize in place changes the kind of a block on the list. */
  lemma ResizeKeepsOrder(r: Region, k: nat, bptr: Word, size: Word)
    requires k < |r.cells| && Plan(r.cells, k, size) != Move && FreeFirst(r.cells)
    ensures FreeFirst(ResizeInPlace(r, k, bptr, size).0.cells)
  {
    var c := ResizeInPlace(r, k, bptr, size).0.cells;
    assert |c| == |r.cells| && forall i :: 0 <= i < |c| ==> c[i].kind == r.cells[i].kind;
  }
}
