/** `mem_realloc` on a sound heap: which block it changes, where its bytes go, and when the
    shrinking branches keep the heap sound. */
module HeapResize {
  import opened Machine
  import opened HeapSpec
  import opened HeapLaws
  import opened HeapWide

  // ----- one region, in place

  /** A used block in the middle takes another start and size within the same bytes. */
  lemma EditMiddle(pre: seq<Cell>, mid: seq<Cell>, mid': seq<Cell>, post: seq<Cell>, base: int,
                   p: int, q: int, o: int, s: int, free: nat, free': nat)
    requires Tidy(pre) && Tidy(post)
    requires ExtentOf(mid, base + Sum(pre)) == Extent(Sum(mid), map[p := o], free)
    requires ExtentOf(mid', base + Sum(pre)) == Extent(Sum(mid), map[q := s], free')
    requires free + o == free' + s
    requires base + Sum(pre) <= p < base + Sum(pre) + Sum(mid)
    requires base + Sum(pre) <= q < base + Sum(pre) + Sum(mid)
    ensures var l := Live(pre + mid + post, base);
      p in l && l[p] == o && (q == p || q !in l) &&
      Live(pre + mid' + post, base) == (l - {p})[q := s] &&
      Sum(pre + mid' + post) == Sum(pre + mid + post) &&
      TotalFreeCells(pre + mid' + post) + s == TotalFreeCells(pre + mid + post) + o
  {
    hide Sum, Live, TotalFreeCells, Tidy;
    Around(pre, mid, post, base);
    assert Sum(mid') == Sum(mid);
    Around(pre, mid', post, base);
    LiveIntervals(pre, base);
    LiveIntervals(post, base + Sum(pre) + Sum(mid));
    EditMaps(Live(pre, base), Live(post, base + Sum(pre) + Sum(mid)), p, q, o, s);
  }

  /** Replacing one entry between two maps. */
  lemma EditMaps(a: map<int, int>, b: map<int, int>, p: int, q: int, o: int, s: int)
    requires p !in a && p !in b && q !in a && q !in b
    ensures var l := a + map[p := o] + b;
      p in l && l[p] == o && (q == p || q !in l) && a + map[q := s] + b == (l - {p})[q := s]
  {
  }

  /** The free and the used block that trade bytes, written as the middle of the list. */
  lemma TradeExtent(f: Cell, u: Cell, delta: int, b: int)
    requires f.kind == Free && u.kind == Used
    requires 0 <= f.size - delta < 0x1_0000_0000 && 0 <= u.size + delta < 0x1_0000_0000
    ensures var f', u' := Resized(f, -delta), Resized(u, delta);
      ExtentOf([f, u], b) == Extent(f.size + u.size, map[b + f.size := u.size], f.size) &&
      ExtentOf([f', u'], b) ==
        Extent(f.size + u.size, map[b + f.size - delta := u.size + delta], f.size - delta) &&
      ExtentOf([u, f], b) == Extent(f.size + u.size, map[b := u.size], f.size) &&
      ExtentOf([u', f'], b) == Extent(f.size + u.size, map[b := u.size + delta], f.size - delta)
  {
    hide Sum, Live, TotalFreeCells;
    var f', u' := Resized(f, -delta), Resized(u, delta);
    Two(f, u, b);
    Two(f', u', b);
    Two(u, f, b);
    Two(u', f', b);
  }

  /** What a resize in place does to the caller's view of the region. */
  ghost predicate Edits(c: seq<Cell>, c': seq<Cell>, addr: int, p: int, q: int, size: int)
  {
    var l := Live(c, addr);
    p in l && Sum(c') == Sum(c) && (q == p || q !in l) && Live(c', addr) == (l - {p})[q := size] &&
    TotalFreeCells(c') + size == TotalFreeCells(c) + l[p]
  }

  /** Trading with the block behind leaves the start alone. */
  lemma TradeNext(c: seq<Cell>, k: nat, addr: int, delta: int)
    requires k + 1 < |c| && Tidy(c) && Sum(c) < 0x1_0000_0000
    requires c[k].kind == Used && c[k + 1].kind == Free
    requires 0 < c[k].size + delta && delta <= c[k + 1].size
    ensures var c' := c[k := Resized(c[k], delta)][k + 1 := Resized(c[k + 1], -delta)];
      var p := addr + Sum(c[..k]);
      Tidy(c') && Sum(c') == Sum(c) && Edits(c, c', addr, p, p, c[k].size + delta)
  {
    hide Sum, Live, TotalFreeCells;
    SizeBound(c, k);
    var pre, u, f, post := c[..k], c[k], c[k + 1], c[k + 2..];
    var u', f' := Resized(u, delta), Resized(f, -delta);
    TradeExtent(f, u, delta, addr + Sum(pre));
    assert c == pre + [u, f] + post;
    assert c[k := u'][k + 1 := f'] == pre + [u', f'] + post;
    assert Sum([u, f]) == ExtentOf([u, f], addr + Sum(pre)).sum;
    EditMiddle(pre, [u, f], [u', f'], post, addr, addr + Sum(pre), addr + Sum(pre),
               u.size, u.size + delta, f.size, f.size - delta);
  }

  /** Trading with the block in front moves the start by as much. */
  lemma TradePrev(c: seq<Cell>, k: nat, addr: int, delta: int)
    requires 0 < k < |c| && Tidy(c) && Sum(c) < 0x1_0000_0000
    requires c[k].kind == Used && c[k - 1].kind == Free
    requires 0 < c[k].size + delta && delta <= c[k - 1].size
    ensures var c' := c[k := Resized(c[k], delta)][k - 1 := Resized(c[k - 1], -delta)];
      var p := addr + Sum(c[..k]);
      Tidy(c') && Sum(c') == Sum(c) && Edits(c, c', addr, p, p - delta, c[k].size + delta)
  {
    hide Sum, Live, TotalFreeCells;
    SizeBound(c, k - 1);
    var pre, f, u, post := c[..k - 1], c[k - 1], c[k], c[k + 1..];
    var u', f' := Resized(u, delta), Resized(f, -delta);
    var b := addr + Sum(pre);
    TradeExtent(f, u, delta, b);
    assert c == pre + [f, u] + post;
    assert c[k := u'][k - 1 := f'] == pre + [f', u'] + post;
    assert c[..k] == pre + [f];
    ExtentSplit(pre, [f], addr);
    One(f, b);
    assert Sum(c[..k]) == Sum(pre) + f.size;
    assert Sum([f, u]) == ExtentOf([f, u], b).sum;
    EditMiddle(pre, [f, u], [f', u'], post, addr, b + f.size, b + f.size - delta,
               u.size, u.size + delta, f.size, f.size - delta);
  }

  /** The sign of the size difference, read as `ssize_t`. */
  lemma DiffSign(size: Word, old_: Word)
    requires size - old_ < 0x8000_0000 && old_ - size <= 0x8000_0000
    ensures Signed(Wrap(size - old_)) == size - old_
    ensures size >= old_ ==> Wrap(size - old_) == size - old_
    ensures size < old_ ==> Wrap(0 - Wrap(size - old_)) == old_ - size
  {
  }

  ghost predicate Resizes(r: Region, r': Region, p: int, q: int, size: int)
  {
    r' == r.(cells := r'.cells, freeSize := r'.freeSize) &&
    Edits(r.cells, r'.cells, r.addr, p, q, size)
  }

  /** Block `k` of a sound region is a used block that starts at `p`. */
  ghost predicate BlockAt(r: Region, k: nat, p: int)
  {
    RegionInv(r) && r.addr != NULL && k < |r.cells| && r.cells[k].kind == Used &&
    p == r.addr + Sum(r.cells[..k])
  }

  /** Growing in place keeps the region sound and gives the block exactly the size asked for;
      it starts where it did unless bytes are taken from the block in front. */
  lemma GrowInPlace(r: Region, k: nat, p: Word, size: Word)
    requires BlockAt(r, k, p) && r.cells[k].size <= size <= r.freeSize
    requires size - r.cells[k].size < 0x8000_0000 && Plan(r.cells, k, size) != Move
    ensures var (r', q) := ResizeInPlace(r, k, p, size);
      RegionInv(r') && Resizes(r, r', p, q, size) && q != NULL &&
      r'.freeSize == r.freeSize - (size - r.cells[k].size) &&
      q == if Plan(r.cells, k, size) == TakePrev then p - (size - r.cells[k].size) else p
  {
    hide Sum, Live, TotalFreeCells, Tidy, Edits, Signed, Wrap;
    var c := r.cells;
    var up := size - c[k].size;
    DiffSign(size, c[k].size);
    SizeBound(c, k);
    match Plan(c, k, size)
    case Keep =>
      KeepsBlock(r, k, p);
    case TakeNext =>
      WrapWord(r.freeSize - up);
      TradeNext(c, k, r.addr, up);
    case TakePrev =>
      SizeBound(c, k - 1);
      PrefixStep(c, k);
      WrapWord(r.freeSize - up);
      WrapWord(p - up);
      WrapWord(c[k - 1].size - up);
      TradePrev(c, k, r.addr, up);
    case _ =>
  }

  lemma PrefixStep(c: seq<Cell>, k: nat)
    requires 0 < k <= |c|
    ensures Sum(c[..k]) == Sum(c[..k - 1]) + c[k - 1].size
  {
    assert c[..k] == c[..k - 1] + [c[k - 1]];
    SumSplit(c[..k - 1], [c[k - 1]]);
    One(c[k - 1], 0);
  }

  lemma KeepsBlock(r: Region, k: nat, p: int)
    requires BlockAt(r, k, p)
    ensures Resizes(r, r, p, p, r.cells[k].size)
  {
    hide Sum, Live, TotalFreeCells;
    ReleaseRemoves(r.cells, k, r.addr);
  }

  ghost predicate Shrinks(r: Region, k: nat, p: Word, size: Word)
  {
    BlockAt(r, k, p) && 0 < size < r.cells[k].size && size <= r.freeSize &&
    r.cells[k].size - size <= 0x8000_0000
  }

  lemma ShrinkToPrev(r: Region, k: nat, p: Word, size: Word)
    requires Shrinks(r, k, p, size) && Plan(r.cells, k, size) == GiveToPrev
    ensures var (r', q) := ResizeInPlace(r, k, p, size);
      Resizes(r, r', p, q, size) && q == p + r.cells[k].size - size &&
      (RegionInv(r') <==> k == 1 || r.cells[0].size >= r.freeSize + r.cells[k].size - size)
  {
    hide Sum, Live, TotalFreeCells, Tidy, Edits, Signed, Wrap;
    var c, down := r.cells, r.cells[k].size - size;
    DiffSign(size, c[k].size);
    SizeBound(c, k);
    HeadInFront(c, k);
    WrapWord(r.freeSize + down);
    SizeBound(c, k - 1);
    PrefixStep(c, k);
    TradePrev(c, k, r.addr, -down);
    WrapWord(p + down);
    WrapWord(c[k - 1].size + down);
  }

  lemma ShrinkToNext(r: Region, k: nat, p: Word, size: Word)
    requires Shrinks(r, k, p, size) && Plan(r.cells, k, size) == GiveToNext
    ensures var (r', q) := ResizeInPlace(r, k, p, size);
      Resizes(r, r', p, q, size) && q == p &&
      (RegionInv(r') <==> r.cells[0].size >= r.freeSize + r.cells[k].size - size)
  {
    hide Sum, Live, TotalFreeCells, Tidy, Edits, Signed, Wrap;
    var c, down := r.cells, r.cells[k].size - size;
    DiffSign(size, c[k].size);
    SizeBound(c, k);
    HeadInFront(c, k);
    WrapWord(r.freeSize + down);
    TradeNext(c, k, r.addr, -down);
  }

  lemma ShrinkBySplit(r: Region, k: nat, p: Word, size: Word)
    requires Shrinks(r, k, p, size) && Plan(r.cells, k, size) == Split
    ensures var (r', q) := ResizeInPlace(r, k, p, size);
      if |r.cells| + r.lost >= r.maxBlocks then r' == r && q == NULL
      else Sum(r'.cells) == Sum(r.cells) - (r.cells[k].size - size)
  {
    hide Sum, Live, TotalFreeCells;
    DiffSign(size, r.cells[k].size);
    if |r.cells| + r.lost < r.maxBlocks {
      SumEdit(r.cells, k, Resized(r.cells[k], size - r.cells[k].size));
    }
  }

  /** Shrinking raises `free_size`, so the head no longer covers it unless the bytes go to the
      head itself or it had as many to spare. Splitting takes them off the list altogether. */
  lemma ShrinkKeepsIff(r: Region, k: nat, p: Word, size: Word)
    requires Shrinks(r, k, p, size)
    ensures var (r', q) := ResizeInPlace(r, k, p, size);
      var plan, room := Plan(r.cells, k, size), r.cells[0].size >= r.freeSize + r.cells[k].size - size;
      RegionInv(r') && Sum(r'.cells) == Sum(r.cells) <==>
      match plan
      case GiveToPrev => k == 1 || room
      case GiveToNext => room
      case _ => |r.cells| + r.lost >= r.maxBlocks
  {
    hide Sum, Live, TotalFreeCells, Tidy, ResizeInPlace, Signed, Wrap;
    DiffSign(size, r.cells[k].size);
    match Plan(r.cells, k, size)
    case GiveToPrev => ShrinkToPrev(r, k, p, size);
    case GiveToNext => ShrinkToNext(r, k, p, size);
    case Split => ShrinkBySplit(r, k, p, size);
    case _ =>
  }

  lemma HeadInFront(c: seq<Cell>, k: nat)
    requires 0 < k < |c|
    ensures c[0].size + c[k].size <= Sum(c)
  {
    SizeBound(c, k);
    assert c[..k] == [c[0]] + c[1..k];
    SumSplit([c[0]], c[1..k]);
    One(c[0], 0);
  }

  /** Changing one block changes the sum by as much. */
  lemma SumEdit(c: seq<Cell>, k: nat, x: Cell)
    requires k < |c|
    ensures Sum(c[k := x]) == Sum(c) - c[k].size + x.size
  {
    hide Sum;
    var c' := c[k := x];
    assert c == c[..k] + [c[k]] + c[k + 1..];
    assert c' == c[..k] + [x] + c[k + 1..];
    Around(c[..k], [c[k]], c[k + 1..], 0);
    Around(c[..k], [x], c[k + 1..], 0);
    One(c[k], Sum(c[..k]));
    One(x, Sum(c[..k]));
    assert Sum(c) == ExtentOf(c, 0).sum && Sum(c') == ExtentOf(c', 0).sum;
    assert Sum([c[k]]) == ExtentOf([c[k]], Sum(c[..k])).sum;
    assert Sum([x]) == ExtentOf([x], Sum(c[..k])).sum;
  }

  // ----- any size

  /** No descriptor is left. */
  predicate Full(r: Region)
  {
    |r.cells| + r.lost >= r.maxBlocks
  }

  /** The block gets smaller, and the head already has as many bytes more than `free_size`. */
  predicate Spare(r: Region, k: nat, size: Word)
    requires k < |r.cells|
  {
    size < r.cells[k].size && r.cells[0].size >= r.freeSize + (r.cells[k].size - size)
  }

  /** Whether a resize in place keeps the region sound, from what the branches test. */
  predicate InPlaceKeeps(r: Region, k: nat, size: Word)
    requires k < |r.cells|
  {
    match Plan(r.cells, k, size)
    case GiveToPrev => k == 1 || Spare(r, k, size)
    case GiveToNext => Spare(r, k, size)
    case Split => Full(r)
    case _ => true
  }

  predicate MovesStart(plan: ResizePlan)
  {
    plan == TakePrev || plan == GiveToPrev
  }

  /** Every resize in place, for every size: whether the region stays sound, and what becomes of the
      block when it does. The start moves exactly when the block in front pays or is paid. */
  ghost predicate InPlaceOutcome(r: Region, k: nat, p: Word, size: Word, r': Region, q: Word)
    requires k < |r.cells|
  {
    var plan, d := Plan(r.cells, k, size), size - r.cells[k].size;
    (RegionInv(r') && Sum(r'.cells) == Sum(r.cells) <==> InPlaceKeeps(r, k, size)) &&
    if plan == Split && Full(r) then r' == r && q == NULL
    else
      q >= r.addr &&
      (InPlaceKeeps(r, k, size) ==>
         Resizes(r, r', p, q, size) && r'.freeSize == r.freeSize - d &&
         q == if MovesStart(plan) then p - d else p)
  }

  lemma InPlaceExact(r: Region, k: nat, p: Word, size: Word)
    requires BlockAt(r, k, p) && 0 < size <= r.freeSize && Plan(r.cells, k, size) != Move
    ensures var (r', q) := ResizeInPlace(r, k, p, size); InPlaceOutcome(r, k, p, size, r', q)
  {
    hide Sum, Live, TotalFreeCells, Tidy, Edits, Signed, Wrap, ResizeInPlace;
    var o := r.cells[k].size;
    SizeBound(r.cells, k);
    assert k > 0;
    if size - o >= 0x8000_0000 {
      HugeGrowth(r, k, p, size);
    } else if size >= o {
      GrowInPlace(r, k, p, size);
      GrowthPlan(r.cells, k, size);
      TakesFromInside(r, k, p, size);
      ResizesSum(r, ResizeInPlace(r, k, p, size).0, p, ResizeInPlace(r, k, p, size).1, size);
    } else if o - size <= 0x8000_0000 {
      ShrinkInPlace(r, k, p, size);
    } else {
      HugeCutMoves(r.cells, k, size);
      assert false;
    }
  }

  lemma GrowthPlan(c: seq<Cell>, k: nat, size: Word)
    requires k < |c| && c[k].size <= size < c[k].size + 0x8000_0000
    ensures Plan(c, k, size) in {Keep, TakeNext, TakePrev, Move}
    ensures Plan(c, k, size) == TakePrev ==> size > c[k].size
  {
  }

  lemma ShrinkInPlace(r: Region, k: nat, p: Word, size: Word)
    requires Shrinks(r, k, p, size) && Plan(r.cells, k, size) != Move
    ensures var (r', q) := ResizeInPlace(r, k, p, size); InPlaceOutcome(r, k, p, size, r', q)
  {
    hide Sum, Live, TotalFreeCells, Tidy, Edits, Signed, Wrap;
    var c, down := r.cells, r.cells[k].size - size;
    DiffSign(size, c[k].size);
    ShrinkKeepsIff(r, k, p, size);
    WrapWord(r.freeSize);
    match Plan(c, k, size)
    case GiveToPrev =>
      ShrinkToPrev(r, k, p, size);
      SpareFits(r, k, size);
    case GiveToNext =>
      ShrinkToNext(r, k, p, size);
      SpareFits(r, k, size);
    case Split => ShrinkBySplit(r, k, p, size);
    case _ =>
  }

  /** What comes back fits `free_size`. */
  lemma SpareFits(r: Region, k: nat, size: Word)
    requires RegionInv(r) && r.addr != NULL && 0 < k < |r.cells| && size < r.cells[k].size
    ensures Wrap(r.freeSize + (r.cells[k].size - size)) == r.freeSize + r.cells[k].size - size
  {
    HeadInFront(r.cells, k);
  }

  /** A cut by more than half the address space reads as growth, and no neighbour can pay for it. */
  lemma HugeCutMoves(c: seq<Cell>, k: nat, size: Word)
    requires k < |c| && Sum(c) < 0x1_0000_0000 && size > 0 && c[k].size - size > 0x8000_0000
    ensures Plan(c, k, size) == Move
  {
    hide Sum;
    SizeBound(c, k);
    if k > 0 {
      SizeBound(c, k - 1);
    }
  }

  lemma ResizesSum(r: Region, r': Region, p: int, q: int, size: int)
    requires Resizes(r, r', p, q, size)
    ensures Sum(r'.cells) == Sum(r.cells)
  {
  }

  lemma TakesFromInside(r: Region, k: nat, p: Word, size: Word)
    requires BlockAt(r, k, p) && 0 <= size - r.cells[k].size < 0x8000_0000
    ensures Plan(r.cells, k, size) == TakePrev ==> p - (size - r.cells[k].size) >= r.addr
  {
    hide Sum;
    DiffSign(size, r.cells[k].size);
    PrefixStep(r.cells, k);
  }

  /** Growth by half the address space or more, on a sound region. */
  ghost predicate Huge(r: Region, k: nat, p: Word, size: Word)
    requires k < |r.cells|
  {
    BlockAt(r, k, p) && size <= r.freeSize && size - r.cells[k].size >= 0x8000_0000
  }

  /** Such growth reads as a cut. Given to the head, the wrapped difference takes the bytes from it
      after all; anywhere else bytes appear from nowhere. */
  lemma HugeGrowth(r: Region, k: nat, p: Word, size: Word)
    requires 0 < k < |r.cells| && Huge(r, k, p, size)
    ensures var (r', q) := ResizeInPlace(r, k, p, size); InPlaceOutcome(r, k, p, size, r', q)
  {
    hide Sum, Live, TotalFreeCells, Tidy, Edits, ResizeInPlace, Huge, InPlaceOutcome;
    HugePlan(r, k, p, size);
    match Plan(r.cells, k, size)
    case GiveToPrev =>
      if k == 1 {
        HugeFromHead(r, k, p, size);
      } else {
        HugeFromPrev(r, k, p, size);
      }
    case GiveToNext => HugeFromNext(r, k, p, size);
    case Split => HugeSplit(r, k, p, size);
    case _ =>
  }

  lemma HugePlan(r: Region, k: nat, p: Word, size: Word)
    requires 0 < k < |r.cells| && Huge(r, k, p, size)
    ensures Plan(r.cells, k, size) in {GiveToPrev, GiveToNext, Split}
    ensures HugeDiff(size - r.cells[k].size)
  {
    hide Sum;
  }

  ghost predicate HugeDiff(d: int)
  {
    0x8000_0000 <= d < 0x1_0000_0000 && Wrap(d) == d && Wrap(-d) == 0x1_0000_0000 - d
  }

  /** The shrinking branches in terms of the difference that was meant. */
  lemma HugeSteps(r: Region, k: nat, p: Word, size: Word)
    requires 0 < k < |r.cells| && r.cells[k].kind == Used && HugeDiff(size - r.cells[k].size)
    ensures var c, d := r.cells, size - r.cells[k].size;
      var free, u := Wrap(r.freeSize + (0x1_0000_0000 - d)), Cell(Used, size);
      (Plan(c, k, size) == GiveToPrev ==>
         ResizeInPlace(r, k, p, size) ==
         (r.(cells := c[k := u][k - 1 := Resized(c[k - 1], -d)], freeSize := free),
          Wrap(p + (0x1_0000_0000 - d)))) &&
      (Plan(c, k, size) == GiveToNext ==>
         k + 1 < |c| &&
         ResizeInPlace(r, k, p, size) ==
         (r.(cells := c[k := u][k + 1 := Resized(c[k + 1], -d)], freeSize := free), p)) &&
      (Plan(c, k, size) == Split ==>
         ResizeInPlace(r, k, p, size) ==
         if Full(r) then (r, NULL)
         else (r.(cells := c[k := u], freeSize := free, lost := r.lost + 1), p))
  {
    hide Plan;
    var c, d := r.cells, size - r.cells[k].size;
    PlanShape(c, k, size);
    assert Resized(c[k], -(0x1_0000_0000 - d)) == Cell(Used, size);
    assert Resized(c[k - 1], 0x1_0000_0000 - d) == Resized(c[k - 1], -d);
    if k + 1 < |c| {
      assert Resized(c[k + 1], 0x1_0000_0000 - d) == Resized(c[k + 1], -d);
    }
  }

  lemma PlanShape(c: seq<Cell>, k: nat, size: Word)
    requires k < |c|
    ensures Plan(c, k, size) == GiveToPrev ==> k > 0 && c[k - 1].kind == Free
    ensures Plan(c, k, size) == GiveToNext ==> k + 1 < |c| && c[k + 1].kind == Free
  {
  }

  lemma HugeFromHead(r: Region, k: nat, p: Word, size: Word)
    requires 0 < k < |r.cells| && Huge(r, k, p, size) && k == 1 && Plan(r.cells, k, size) == GiveToPrev
    ensures var (r', q) := ResizeInPlace(r, k, p, size); InPlaceOutcome(r, k, p, size, r', q)
  {
    hide Sum, Live, TotalFreeCells, Tidy, Edits, ResizeInPlace, Plan, Wrap;
    var c, d := r.cells, size - r.cells[k].size;
    HugePlan(r, k, p, size);
    HugeSteps(r, k, p, size);
    PlanShape(c, k, size);
    HeadInFront(c, k);
    FirstStart(c);
    TradePrev(c, k, r.addr, d);
    WrapWord(size);
    WrapWord(c[0].size - d);
    WrapsAround(r.freeSize, d);
    WrapsAround(p, d);
  }

  lemma WrapsAround(x: Word, d: int)
    requires 0 < d <= x
    ensures Wrap(x + (0x1_0000_0000 - d)) == x - d
  {
  }

  lemma StaysAbove(p: Word, d: int, low: nat)
    requires 0 < d < 0x1_0000_0000 && p - d >= low
    ensures Wrap(p + (0x1_0000_0000 - d)) >= low
  {
    WrapsAround(p, d);
  }

  /** Paid by the wrong block: 2^32 bytes too many. */
  lemma HugeFromPrev(r: Region, k: nat, p: Word, size: Word)
    requires 0 < k < |r.cells| && Huge(r, k, p, size) && k > 1 && Plan(r.cells, k, size) == GiveToPrev
    ensures var (r', q) := ResizeInPlace(r, k, p, size); InPlaceOutcome(r, k, p, size, r', q)
  {
    hide Sum, Live, TotalFreeCells, Tidy, Edits, Resizes, ResizeInPlace, Plan;
    var c, d := r.cells, size - r.cells[k].size;
    HugePlan(r, k, p, size);
    HugeSteps(r, k, p, size);
    HeadInFront(c, k);
    HeadInFront(c, k - 1);
    HeadBefore(c, k);
    SumEdit(c, k, Cell(Used, size));
    SumEdit(c[k := Cell(Used, size)], k - 1, Resized(c[k - 1], -d));
    StaysAbove(p, d, r.addr);
  }

  lemma HugeFromNext(r: Region, k: nat, p: Word, size: Word)
    requires 0 < k < |r.cells| && Huge(r, k, p, size) && Plan(r.cells, k, size) == GiveToNext
    ensures var (r', q) := ResizeInPlace(r, k, p, size); InPlaceOutcome(r, k, p, size, r', q)
  {
    hide Sum, Live, TotalFreeCells, Tidy, Edits, Resizes, ResizeInPlace, Plan;
    var c, d := r.cells, size - r.cells[k].size;
    HugePlan(r, k, p, size);
    HugeSteps(r, k, p, size);
    HeadInFront(c, k);
    HeadInFront(c, k + 1);
    SumEdit(c, k, Cell(Used, size));
    SumEdit(c[k := Cell(Used, size)], k + 1, Resized(c[k + 1], -d));
  }

  lemma HugeSplit(r: Region, k: nat, p: Word, size: Word)
    requires 0 < k < |r.cells| && Huge(r, k, p, size) && Plan(r.cells, k, size) == Split
    ensures var (r', q) := ResizeInPlace(r, k, p, size); InPlaceOutcome(r, k, p, size, r', q)
  {
    hide Sum, Live, TotalFreeCells, Tidy, Edits, Resizes, ResizeInPlace, Plan;
    HugePlan(r, k, p, size);
    HugeSteps(r, k, p, size);
    SumEdit(r.cells, k, Cell(Used, size));
  }

  lemma FirstStart(c: seq<Cell>)
    requires c != []
    ensures Sum(c[..1]) == c[0].size
  {
    PrefixStep(c, 1);
    assert c[..0] == [];
  }

  lemma HeadBefore(c: seq<Cell>, k: nat)
    requires 0 < k <= |c|
    ensures Sum(c[..k]) >= c[0].size
  {
    assert c[..k] == [c[0]] + c[1..k];
    SumSplit([c[0]], c[1..k]);
    One(c[0], 0);
  }
}
