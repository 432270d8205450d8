/** What the block-list heap of libc/alloc.c computes, on values. A region is its list of
    blocks in list order; descriptors that are not on the list matter only by their number.
    Nothing here assumes that the heap is well formed: all arithmetic wraps as the C code's
    does, so that what is needed for it not to wrap is left to be proved. */
module HeapSpec {
  import opened Machine

  datatype BlockKind = Free | Used | NotPresent | Poison

  datatype Cell = Cell(kind: BlockKind, size: Word)

  /** `addr` is NULL for a slot that is not registered. `lost` counts descriptors that are
      taken but on no list: the splitting branch of `mem_realloc` leaves one behind. */
  datatype Region = Region(addr: Word, size: Word, freeSize: Word, maxBlocks: Word,
                           cells: seq<Cell>, lost: nat)

  type Heap = seq<Region>

  const DESCRIPTOR_BYTES: int := 12
  const DESCRIPTORS_PER_BYTES: int := 4096
  const MIN_BLOCKS: int := 8192

  /** The number of bytes a stretch of the list covers. */
  function Sum(cells: seq<Cell>): nat
  {
    if cells == [] then 0 else cells[0].size + Sum(cells[1..])
  }

  /** `mem_fix_block`: a free block swallows one free successor. */
  function FixAt(cells: seq<Cell>, k: nat): (r: seq<Cell>)
    requires k < |cells|
    ensures k < |r| <= |cells| && r[..k] == cells[..k] && r[k].kind == cells[k].kind
  {
    if k + 1 < |cells| && cells[k].kind == Free && cells[k + 1].kind == Free then
      cells[..k] + [Cell(Free, Wrap(cells[k].size + cells[k + 1].size))] + cells[k + 2..]
    else
      cells
  }

  /** The search of `mem_alloc`: the list after merging on the way, and the position where it
      stops (the length of the list when it runs off the end). */
  function Search(cells: seq<Cell>, k: nat, size: Word): (r: (seq<Cell>, nat))
    requires k <= |cells|
    ensures r.1 <= |r.0| <= |cells|
    decreases |cells| - k
  {
    if k == |cells| then (cells, k)
    else
      var c := FixAt(cells, k);
      if c[k].kind != Free && !(c[k].size >= size) then Search(c, k + 1, size)
      else (c, k)
  }

  /** Carves `size` bytes off the end of block `k`. */
  function Carve(c: seq<Cell>, k: nat, size: Word): (r: seq<Cell>)
    requires k < |c|
  {
    c[..k] + [c[k].(size := Wrap(c[k].size - size)), Cell(Used, size)] + c[k + 1..]
  }

  /** One region of `mem_alloc`: the region afterwards, whether the call is over, and the
      pointer it returns in that case. */
  function AllocIn(r: Region, size: Word): (Region, bool, Word)
  {
    var (c, k) := Search(r.cells, 0, size);
    if k == |c| then (r.(cells := c), false, NULL)
    else if |c| + r.lost >= r.maxBlocks then (r.(cells := c), true, NULL)
    else
      var left := Wrap(c[k].size - size);
      (r.(cells := Carve(c, k, size), freeSize := Wrap(r.freeSize - size)),
       true, Wrap(r.addr + Sum(c[..k]) + left))
  }

  function Alloc(h: Heap, size: Word): (r: (Heap, Word))
    ensures |r.0| == |h|
  {
    if h == [] then ([], NULL)
    else if h[0].addr == NULL || h[0].freeSize < size then
      var (t, p) := Alloc(h[1..], size);
      ([h[0]] + t, p)
    else
      var (r, done, p) := AllocIn(h[0], size);
      if done then ([r] + h[1..], p)
      else
        var (t, q) := Alloc(h[1..], size);
        ([r] + t, q)
  }

  /** The walk of `mem_free` and `mem_realloc`: merging on the way, it stops at the first used
      block that starts at or after `ptr`. `base` is the address block `k` starts at. */
  function Find(cells: seq<Cell>, k: nat, base: Word, ptr: Word): (r: (seq<Cell>, nat, Word))
    requires k <= |cells|
    ensures k <= r.1 <= |r.0| <= |cells|
    ensures r.1 < |r.0| ==> r.0[r.1].kind == Used
    decreases |cells| - k
  {
    if k == |cells| then (cells, k, base)
    else
      var c := FixAt(cells, k);
      if c[k].kind == Used && base >= ptr && ptr <= Wrap(base + c[k].size) then (c, k, base)
      else Find(c, k + 1, Wrap(base + c[k].size), ptr)
  }

  /** Block `k` is given back: to its predecessor when that is free, as a block of its own
      otherwise. */
  function Release(c: seq<Cell>, k: nat): (r: seq<Cell>)
    requires k < |c|
  {
    if k > 0 && c[k - 1].kind == Free then
      c[..k - 1] + [Cell(Free, Wrap(c[k - 1].size + c[k].size))] + c[k + 1..]
    else
      c[k := c[k].(kind := Free)]
  }

  function FreeIn(r: Region, ptr: Word): (Region, bool)
  {
    var (c, k, _) := Find(r.cells, 0, r.addr, ptr);
    if k < |c| then (r.(cells := Release(c, k)), true) else (r.(cells := c), false)
  }

  function FreeHeap(h: Heap, ptr: Word): (r: Heap)
    ensures |r| == |h|
  {
    if h == [] then []
    else
      var (r, found) := FreeIn(h[0], ptr);
      if found then [r] + h[1..] else [r] + FreeHeap(h[1..], ptr)
  }

  /** How `mem_realloc` treats the block it stopped at. */
  datatype ResizePlan =
    | Keep | TakeNext | TakePrev | Move
    | GiveToPrev | GiveToNext | Split

  function Plan(c: seq<Cell>, k: nat, size: Word): ResizePlan
    requires k < |c|
  {
    var diff := Wrap(size - c[k].size);
    if Signed(diff) > 0 then
      if k + 1 < |c| && c[k + 1].kind == Free && c[k + 1].size >= diff then TakeNext
      else if k > 0 && c[k - 1].kind == Free && c[k - 1].size >= diff then TakePrev
      else Move
    else if Signed(diff) < 0 then
      if k > 0 && c[k - 1].kind == Free then GiveToPrev
      else if k + 1 < |c| && c[k + 1].kind == Free then GiveToNext
      else Split
    else Keep
  }

  function Resized(c: Cell, delta: int): Cell
  {
    c.(size := Wrap(c.size + delta))
  }

  /** The in-place branches of `mem_realloc`: the region afterwards and the returned pointer.
      `bptr` is where block `k` starts. */
  function ResizeInPlace(r: Region, k: nat, bptr: Word, size: Word): (Region, Word)
    requires k < |r.cells| && Plan(r.cells, k, size) != Move
  {
    var c := r.cells;
    var up := Wrap(size - c[k].size);
    var down := Wrap(0 - up);
    match Plan(c, k, size)
    case Keep => (r, bptr)
    case TakeNext =>
      (r.(cells := c[k := Resized(c[k], up)][k + 1 := Resized(c[k + 1], 0 - up)],
          freeSize := Wrap(r.freeSize - up)), bptr)
    case TakePrev =>
      (r.(cells := c[k := Resized(c[k], up)][k - 1 := Resized(c[k - 1], 0 - up)],
          freeSize := Wrap(r.freeSize - up)), Wrap(bptr - up))
    case GiveToPrev =>
      (r.(cells := c[k := Resized(c[k], 0 - down)][k - 1 := Resized(c[k - 1], down)],
          freeSize := Wrap(r.freeSize + down)), Wrap(bptr + down))
    case GiveToNext =>
      (r.(cells := c[k := Resized(c[k], 0 - down)][k + 1 := Resized(c[k + 1], down)],
          freeSize := Wrap(r.freeSize + down)), bptr)
    case Split =>
      if |c| + r.lost >= r.maxBlocks then (r, NULL)
      else
        (r.(cells := c[k := Resized(c[k], 0 - down)], freeSize := Wrap(r.freeSize + down),
            lost := r.lost + 1), bptr)
  }

  /** `mem_realloc` from slot `i` on. The copy it makes is reported rather than carried out:
      `moved` is the number of bytes copied from `ptr` to the returned pointer. */
  function Realloc(h: Heap, i: nat, ptr: Word, size: Word): (r: (Heap, Word, nat))
    requires i <= |h|
    ensures |r.0| == |h|
    decreases |h| - i
  {
    if i == |h| then (Alloc(h, size).0, NULL, 0)
    else if h[i].addr == NULL || h[i].freeSize < size then Realloc(h, i + 1, ptr, size)
    else
      var (c, k, bptr) := Find(h[i].cells, 0, h[i].addr, ptr);
      var h0 := h[i := h[i].(cells := c)];
      if k == |c| then Realloc(h0, i + 1, ptr, size)
      else if Plan(c, k, size) == Move then
        var (h1, p) := Alloc(h0, size);
        if p == NULL then (h1, NULL, 0) else (FreeHeap(h1, ptr), p, c[k].size)
      else
        var (r, p) := ResizeInPlace(h0[i], k, bptr, size);
        (h0[i := r], p, 0)
  }

  function TotalFreeCells(cells: seq<Cell>): nat
  {
    if cells == [] then 0
    else (if cells[0].kind == Free then cells[0].size else 0) + TotalFreeCells(cells[1..])
  }

  function TotalFree(h: Heap): nat
  {
    if h == [] then 0
    else (if h[0].addr == NULL then 0 else TotalFreeCells(h[0].cells)) + TotalFree(h[1..])
  }

  /** `mem_new_region`: the slot a region goes to is the first one not registered, or the last
      one when all are taken. */
  function FreeSlot(h: Heap, i: nat): (slot: nat)
    requires i < |h|
    ensures slot < |h|
    decreases |h| - i
  {
    if h[i].addr == NULL || i + 1 == |h| then i else FreeSlot(h, i + 1)
  }

  function MaxBlocksFor(size: Word): Word
  {
    var n := size / DESCRIPTORS_PER_BYTES;
    if n < MIN_BLOCKS then MIN_BLOCKS else n
  }

  function Capacity(size: Word): Word
  {
    Wrap(size - DESCRIPTOR_BYTES * MaxBlocksFor(size))
  }

  function NewRegion(addr: Word, size: Word): Region
  {
    Region(addr, size, Capacity(size), MaxBlocksFor(size), [Cell(Free, Capacity(size))], 0)
  }
}
