/** libc/alloc.c itself: descriptors in a table, linked into a list and updated in place. Every
    method is proved against the value-level function of the same name in `HeapSpec`; what those
    functions are worth is proved in `HeapLaws` to `HeapRuns`. A pointer to a descriptor is its
    position in the table. */
module Allocator {
  import opened Machine
  import opened Memory
  import opened HeapSpec
  import opened BlockList
  import opened HeapLaws
  import opened HeapWide
  import opened HeapRealloc

  /** A fresh region: one block on the list. */
  lemma GenesisLinked(t: seq<Desc>, capacity: Word)
    requires |t| > 0 && t[0] == Desc(NONE, capacity, Free)
    requires forall i :: 0 < i < |t| ==> t[i].kind == NotPresent
    ensures Linked(t, 0, [0], {}) && CellsOf(t, [0]) == [Cell(Free, capacity)]
  {
  }

  /** `struct mem_region`. */
  class MemRegion {
    var addr: Word
    var freeSize: Word
    var size: Word
    var head: int
    var maxBlocks: Word
    var blocks: array<Desc>
    ghost var list: seq<int>       // the blocks reached from head, in order
    ghost var lost: set<int>       // taken from the table, but never linked

    ghost predicate Valid()
      reads this, blocks
    {
      blocks.Length == maxBlocks && Linked(blocks[..], head, list, lost)
    }

    ghost function Cells(): (c: seq<Cell>)
      requires Valid()
      reads this, blocks
      ensures |c| == |list|
    {
      CellsOf(blocks[..], list)
    }

    ghost function Abs(): (r: Region)
      requires Valid()
      reads this, blocks
    {
      Region(addr, size, freeSize, maxBlocks, Cells(), |lost|)
    }

    /** The position of block `k` on the list; NONE past its end. */
    ghost function At(k: nat): int
      reads this
    {
      if k < |list| then list[k] else NONE
    }

    /** The position of the block in front of block `k`; NONE for the head. */
    ghost function Before(k: nat): int
      requires k <= |list|
      reads this
    {
      if k > 0 then list[k - 1] else NONE
    }

    /** Where block `k` starts. */
    ghost function StartOf(k: nat): Word
      requires Valid() && k <= |list|
      reads this, blocks
    {
      Wrap(addr + Sum(Cells()[..k]))
    }

    lemma AtLinks(k: nat)
      requires Valid() && k < |list|
      ensures 0 <= list[k] < blocks.Length && blocks[list[k]].next == At(k + 1)
      ensures Cells()[k] == Cell(blocks[list[k]].kind, blocks[list[k]].size)
      ensures At(k + 1) != NONE <==> k + 1 < |list|
      ensures blocks[list[k]].kind != NotPresent
    {
      assert blocks[..][list[k]].next == NextOnList(list, k);
      assert list[k] in list;
    }

    lemma AtEnd(k: nat)
      requires Valid() && k <= |list|
      ensures At(k) == NONE <==> k == |list|
    {
    }

    /** A slot of the master record before it is registered. */
    constructor Empty()
      ensures Valid() && Abs() == Region(NULL, 0, 0, 0, [], 0)
      ensures fresh(blocks)
    {
      addr, freeSize, size, maxBlocks := NULL, 0, 0, 0;
      head := NONE;
      blocks := new Desc[0];
      list, lost := [], {};
    }

    /** `mem_fix_block`. */
    method FixBlock(block: int, ghost k: nat)
      requires Valid() && k < |list| && block == list[k]
      modifies this`list, blocks
      ensures Valid() && k < |list| && list[k] == block && Before(k) == old(Before(k))
      ensures Cells() == FixAt(old(Cells()), k)
      ensures StartOf(k) == old(StartOf(k))
      ensures forall x :: 0 <= x < blocks.Length && old(blocks[x].kind) == Used ==>
                blocks[x] == old(blocks[x])
    {
      hide Linked, FixAt, Wrap, Sum;
      AtLinks(k);
      FixAtMerges(Cells(), k);
      var b := blocks[block];
      if b.next != NONE {
        AtLinks(k + 1);
        var n := blocks[b.next];
        if b.kind == Free && n.kind == Free {
          ghost var t, l := blocks[..], list;
          var m := Desc(n.next, Wrap(b.size + n.size), Free);
          MergeLinked(t, head, l, lost, k, m);
          blocks[block] := b.(size := Wrap(b.size + n.size));
          blocks[b.next] := n.(kind := NotPresent);
          blocks[block] := blocks[block].(next := n.next);
          list := Without(l, k + 1);
          assert blocks[..] == Merged(t, block, b.next, m);
          assert Cells() == FixAt(old(Cells()), k);
        }
      }
    }

    /** `mem_new_block`: the first descriptor that is up for grabs, or NULL. */
    method NewBlock() returns (block: int)
      requires Valid()
      ensures block == NONE <==> |list| + |lost| >= maxBlocks
      ensures block != NONE ==> 0 <= block < blocks.Length && blocks[block].kind == NotPresent
    {
      hide Linked;
      TableFull();
      var i := 0;
      while i < maxBlocks
        invariant 0 <= i <= maxBlocks
        invariant forall j :: 0 <= j < i ==> blocks[j].kind != NotPresent
      {
        if blocks[i].kind == NotPresent {
          return i;
        }
        i := i + 1;
      }
      return NONE;
    }

    lemma TableFull()
      requires Valid()
      ensures |list| + |lost| >= maxBlocks <==>
              forall x :: 0 <= x < blocks.Length ==> blocks[x].kind != NotPresent
    {
      hide Linked;
      var t := blocks[..];
      TableCounts(t, head, list, lost);
      assert forall x :: 0 <= x < |t| ==> t[x] == blocks[x];
    }

    /** The part of `mem_new_region` that fills the slot in. */
    method Setup(addr: Word, size: Word)
      modifies this
      ensures Valid() && Abs() == NewRegion(addr, size) && fresh(blocks)
    {
      var n, capacity := MaxBlocksFor(size), Capacity(size);
      var table := new Desc[n](_ => Desc(NONE, 0, Poison));
      var i := 0;
      while i < n
        invariant 0 <= i <= n
        invariant forall j :: 0 <= j < i ==> table[j].kind == NotPresent
      {
        table[i] := table[i].(kind := NotPresent);
        i := i + 1;
      }
      table[0] := Desc(NONE, capacity, Free);
      GenesisLinked(table[..], capacity);
      this.addr, this.size, freeSize, maxBlocks := addr, size, capacity, n;
      blocks, head := table, 0;
      list, lost := [0], {};
    }

    /** The inner loop of `mem_total_free`, on top of what earlier regions had. */
    method CountFree(before: Word) returns (total: Word)
      requires Valid()
      ensures total == Wrap(before + TotalFreeCells(Cells()))
    {
      hide Linked, CellsOf, Wrap;
      var block := head;
      total := before;
      ghost var k: nat := 0;
      HeadIsFirst();
      assert Cells()[0..] == Cells();
      while block != NONE
        invariant k <= |list| && block == At(k)
        invariant Wrap(total + TotalFreeCells(Cells()[k..])) == Wrap(before + TotalFreeCells(Cells()))
        decreases |list| - k
      {
        AtLinks(k);
        assert Cells()[k..][1..] == Cells()[k + 1..];
        if blocks[block].kind == Free {
          WrapAdd(total, blocks[block].size, TotalFreeCells(Cells()[k + 1..]));
          total := Wrap(total + blocks[block].size);
        }
        block := blocks[block].next;
        k := k + 1;
      }
      AtEnd(k);
      assert Cells()[k..] == [];
      WrapAdd(total, 0, 0);
      WrapWord(total);
    }

    lemma HeadIsFirst()
      requires Valid()
      ensures head == At(0)
    {
    }

    /** `ptr += block->size; block = block->next`. */
    method Advance(block: int, ghost k: nat, ptr: Word) returns (block': int, ptr': Word)
      requires Valid() && k < |list| && block == list[k] && ptr == StartOf(k)
      ensures block' == At(k + 1) && ptr' == StartOf(k + 1) == Wrap(ptr + Cells()[k].size)
    {
      hide *;
      AtLinks(k);
      PrefixStep(k);
      ptr' := Wrap(ptr + blocks[block].size);
      block' := blocks[block].next;
    }

    /** The search of `mem_alloc`: merging on the way, it stops at a block the skip test does not
        pass over. `ptr` is where that block starts. */
    method SearchRoom(size: Word) returns (block: int, ptr: Word, ghost k: nat)
      requires Valid()
      modifies this`list, blocks
      ensures Valid() && k <= |list| && block == At(k)
      ensures (Cells(), k) == Search(old(Cells()), 0, size)
      ensures ptr == StartOf(k)
      ensures forall x :: 0 <= x < blocks.Length && old(blocks[x].kind) == Used ==>
                blocks[x] == old(blocks[x])
    {
      hide Valid, Linked, FixAt, Wrap, Sum, Search, StartOf;
      block, ptr, k := head, addr, 0;
      ghost var start := Cells();
      HeadIsFirst();
      FirstStart();
      while block != NONE
        invariant Valid() && k <= |list| && block == At(k)
        invariant ptr == StartOf(k)
        invariant forall x :: 0 <= x < blocks.Length && old(blocks[x].kind) == Used ==>
                    blocks[x] == old(blocks[x])
        invariant Search(Cells(), k, size) == Search(start, 0, size)
        decreases |list| - k
      {
        SearchStep(Cells(), k, size);
        FixBlock(block, k);
        AtLinks(k);
        if blocks[block].kind != Free && !(blocks[block].size >= size) {
          block, ptr := Advance(block, k, ptr);
          k := k + 1;
        } else {
          return;
        }
      }
      AtEnd(k);
      SearchStep(Cells(), k, size);
    }

    /** The region part of `mem_alloc`. `done` says that the call is over. */
    method AllocFrom(size: Word) returns (done: bool, ptr: Word)
      requires Valid()
      modifies this`list, this`freeSize, blocks
      ensures Valid()
      ensures (Abs(), done, ptr) == AllocIn(old(Abs()), size)
      ensures old(Cells() != [] && Cells()[0].kind == Free) ==>
                forall x :: 0 <= x < blocks.Length && old(blocks[x].kind) == Used ==>
                  blocks[x] == old(blocks[x])
    {
      hide Valid, Linked, Search, Wrap, Sum, Carve, FixAt;
      ServedFromFree(Cells(), size);
      var block, base, k := SearchRoom(size);
      AtEnd(k);
      if block == NONE {
        return false, NULL;
      }
      var newblock := NewBlock();
      if newblock == NONE {
        return true, NULL;
      }
      ptr := Serve(block, k, newblock, base, size);
      done := true;
    }

    /** A free head is where the search stops. */
    lemma ServedFromFree(c: seq<Cell>, size: Word)
      ensures c != [] && c[0].kind == Free ==>
                var (c', k) := Search(c, 0, size);
                k < |c'| && c'[k].kind == Free
    {
      if c != [] && c[0].kind == Free {
        SearchStopsAtHead(c, size);
      }
    }

    /** The block the search stopped at is split; the caller gets its tail. */
    method Serve(block: int, ghost k: nat, newblock: int, base: Word, size: Word) returns (ptr: Word)
      requires Valid() && k < |list| && block == list[k]
      requires 0 <= newblock < blocks.Length && blocks[newblock].kind == NotPresent
      requires base == StartOf(k)
      modifies this`list, this`freeSize, blocks
      ensures Valid()
      ensures var c := old(Cells());
        Abs() == old(Abs()).(cells := Carve(c, k, size), freeSize := Wrap(old(freeSize) - size)) &&
        ptr == Wrap(addr + Sum(c[..k]) + Wrap(c[k].size - size))
      ensures forall x :: 0 <= x < blocks.Length && x != block && x != newblock ==>
                blocks[x] == old(blocks[x])
    {
      hide Valid, Linked, Wrap, Sum;
      CarveBlock(block, k, newblock, size);
      AtLinks(k);
      WrapStep(addr + Sum(old(Cells())[..k]), Wrap(old(Cells())[k].size - size));
      ptr := Wrap(base + blocks[block].size);
    }

    lemma FirstStart()
      requires Valid()
      ensures StartOf(0) == addr
    {
      assert Cells()[..0] == [];
    }

    lemma PrefixStep(k: nat)
      requires Valid() && k < |list|
      ensures StartOf(k + 1) == Wrap(StartOf(k) + Cells()[k].size)
    {
      hide Valid, Wrap, Sum;
      var c := Cells();
      assert c[..k + 1] == c[..k] + [c[k]];
      SumSplit(c[..k], [c[k]]);
      One(c[k], 0);
      assert Sum([c[k]]) == ExtentOf([c[k]], 0).sum;
      WrapStep(addr + Sum(c[..k]), c[k].size);
    }

    lemma WrapStep(x: int, y: int)
      ensures Wrap(Wrap(x) + y) == Wrap(x + y)
    {
    }

    /** The five stores that split a block: the new descriptor gets the last `size` bytes and the
        place behind it in the chain. */
    method LinkBehind(block: int, newblock: int, size: Word)
      requires 0 <= block < blocks.Length && 0 <= newblock < blocks.Length && block != newblock
      modifies blocks
      ensures blocks[..] == SplitOff(old(blocks[..]), block, newblock, size)
      ensures forall x :: 0 <= x < blocks.Length && x != block && x != newblock ==>
                blocks[x] == old(blocks[x])
    {
      hide Wrap;
      blocks[newblock] := blocks[newblock].(kind := Used);
      blocks[newblock] := blocks[newblock].(next := blocks[block].next);
      blocks[block] := blocks[block].(next := newblock);
      blocks[newblock] := blocks[newblock].(size := size);
      blocks[block] := blocks[block].(size := Wrap(blocks[block].size - size));
    }

    method CarveBlock(block: int, ghost k: nat, newblock: int, size: Word)
      requires Valid() && k < |list| && block == list[k]
      requires 0 <= newblock < blocks.Length && blocks[newblock].kind == NotPresent
      modifies this`list, this`freeSize, blocks
      ensures Valid()
      ensures Abs() == old(Abs()).(cells := Carve(old(Cells()), k, size),
                                   freeSize := Wrap(old(freeSize) - size))
      ensures k < |list| && list[k] == block
      ensures forall x :: 0 <= x < blocks.Length && x != block && x != newblock ==>
                blocks[x] == old(blocks[x])
    {
      hide Linked, Wrap, CellsOf, Carve, SplitOff;
      AtLinks(k);
      SplitLinked(blocks[..], head, list, lost, k, newblock, size);
      LinkBehind(block, newblock, size);
      freeSize := Wrap(freeSize - size);
      list := With(list, k + 1, newblock);
      assert Cells() == Carve(old(Cells()), k, size);
    }

    /** Whether block `k`, which starts at `bptr`, is taken to be the one at `ptr`. */
    method Hits(block: int, ghost k: nat, bptr: Word, ptr: Word) returns (hit: bool)
      requires Valid() && k < |list| && block == list[k]
      ensures hit == Matches(Cells()[k], bptr, ptr)
    {
      hide Valid;
      AtLinks(k);
      hit := blocks[block].kind == Used && bptr >= ptr && ptr <= Wrap(bptr + blocks[block].size);
    }

    /** The walk of `mem_free` and `mem_realloc`: merging on the way, it stops at the first used
        block that starts at or after `ptr`. */
    method FindBlock(ptr: Word) returns (block: int, prev: int, bptr: Word, ghost k: nat)
      requires Valid()
      modifies this`list, blocks
      ensures Valid() && k <= |list| && block == At(k) && prev == Before(k)
      ensures (Cells(), k, bptr) == Find(old(Cells()), 0, addr, ptr)
      ensures bptr == StartOf(k)
    {
      hide Valid, Linked, FixAt, Wrap, Sum, Find, StartOf, Matches;
      block, prev, bptr, k := head, NONE, addr, 0;
      ghost var start := Cells();
      HeadIsFirst();
      FirstStart();
      while block != NONE
        invariant Valid() && k <= |list| && block == At(k) && prev == Before(k)
        invariant bptr == StartOf(k)
        invariant Find(Cells(), k, bptr, ptr) == Find(start, 0, addr, ptr)
        decreases |list| - k
      {
        FindStep(Cells(), k, bptr, ptr);
        FixBlock(block, k);
        AtLinks(k);
        var hit := Hits(block, k, bptr, ptr);
        if hit {
          return;
        }
        prev := block;
        block, bptr := Advance(block, k, bptr);
        k := k + 1;
      }
      AtEnd(k);
      FindStep(Cells(), k, bptr, ptr);
    }

    /** The stores of `mem_free` once the block is found. */
    method ReleaseStores(block: int, prev: int)
      requires 0 <= block < blocks.Length && (prev == NONE || 0 <= prev < blocks.Length)
      requires prev != block
      modifies blocks
      ensures var t := old(blocks[..]);
        blocks[..] == if prev != NONE && t[prev].kind == Free then
                        Merged(t, prev, block,
                               Desc(t[block].next, Wrap(t[prev].size + t[block].size), Free))
                      else t[block := t[block].(kind := Free)]
    {
      hide Wrap;
      if prev != NONE && blocks[prev].kind == Free {
        blocks[prev] := blocks[prev].(next := blocks[block].next);
        blocks[prev] := blocks[prev].(size := Wrap(blocks[prev].size + blocks[block].size));
        blocks[block] := blocks[block].(kind := NotPresent);
      } else {
        blocks[block] := blocks[block].(kind := Free);
      }
    }

    method ReleaseBlock(block: int, prev: int, ghost k: nat)
      requires Valid() && k < |list| && block == list[k] && prev == Before(k)
      modifies this`list, blocks
      ensures Valid() && Cells() == Release(old(Cells()), k)
    {
      hide Linked, Wrap, Release, Without, CellsOf, Merged, InTable;
      ListInTable(blocks[..], head, list, lost);
      GiveBackLinked(blocks[..], head, list, lost, k);
      BeforeDiffers(k);
      ghost var l' := GivenBack(blocks[..], list, k).1;
      ReleaseStores(block, prev);
      list := l';
    }

    lemma BeforeDiffers(k: nat)
      requires Valid() && k < |list|
      ensures 0 <= list[k] < blocks.Length && Before(k) != list[k]
      ensures k > 0 ==> 0 <= Before(k) < blocks.Length
    {
    }

    /** The region part of `mem_free`. */
    method FreeFrom(ptr: Word) returns (found: bool)
      requires Valid()
      modifies this`list, blocks
      ensures Valid() && (Abs(), found) == FreeIn(old(Abs()), ptr)
    {
      hide Valid, Linked, Find, Release, StartOf;
      var block, prev, bptr, k := FindBlock(ptr);
      AtEnd(k);
      found := block != NONE;
      if found {
        ReleaseBlock(block, prev, k);
      }
    }

    /** One store to `block->size`. */
    method SetSize(block: int, ghost k: nat, size: Word)
      requires Valid() && k < |list| && block == list[k]
      modifies blocks
      ensures Valid() && Cells() == old(Cells())[k := old(Cells())[k].(size := size)]
    {
      hide Linked, CellsOf;
      SizeLinked(blocks[..], head, list, lost, k, size);
      blocks[block] := blocks[block].(size := size);
    }

    /** Moves `delta` bytes from block `j` to block `k`, or back when it is negative. */
    method Trade(block: int, ghost k: nat, other: int, ghost j: nat, delta: int)
      requires Valid() && k < |list| && block == list[k] && j < |list| && other == list[j] && j != k
      modifies blocks
      ensures Valid()
      ensures var c := old(Cells());
        Cells() == c[k := Resized(c[k], delta)][j := Resized(c[j], -delta)]
    {
      hide Valid, Linked, Wrap;
      AtLinks(k);
      SetSize(block, k, Wrap(blocks[block].size + delta));
      AtLinks(j);
      SetSize(other, j, Wrap(blocks[other].size - delta));
    }

    /** The in-place branches of `mem_realloc`; `move` says that none of them applies. */
    method ResizeBlock(block: int, prev: int, ghost k: nat, bptr: Word, size: Word)
      returns (move: bool, ptr: Word)
      requires Valid() && k < |list| && block == list[k] && prev == Before(k)
      modifies this`freeSize, this`lost, blocks
      ensures Valid() && move == (Plan(old(Cells()), k, size) == Move)
      ensures if move then Abs() == old(Abs()) && blocks[..] == old(blocks[..])
              else (Abs(), ptr) == ResizeInPlace(old(Abs()), k, bptr, size)
    {
      hide Linked, Wrap, Signed, CellsOf;
      AtLinks(k);
      var diff: int := Wrap(size - blocks[block].size);
      if Signed(diff) > 0 {
        move, ptr := GrowBlock(block, prev, k, bptr, size, diff);
      } else if Signed(diff) < 0 {
        ptr := ShrinkBlock(block, prev, k, bptr, size, Wrap(0 - diff));
        move := false;
      } else {
        move, ptr := false, bptr;
      }
    }

    method GrowBlock(block: int, prev: int, ghost k: nat, bptr: Word, size: Word, diff: Word)
      returns (move: bool, ptr: Word)
      requires Valid() && k < |list| && block == list[k] && prev == Before(k)
      requires diff == Wrap(size - Cells()[k].size) && Signed(diff) > 0
      modifies this`freeSize, blocks
      ensures Valid() && move == (Plan(old(Cells()), k, size) == Move)
      ensures if move then Abs() == old(Abs()) && blocks[..] == old(blocks[..])
              else (Abs(), ptr) == ResizeInPlace(old(Abs()), k, bptr, size)
    {
      hide Linked, Wrap, Signed, Resized, CellsOf;
      move, ptr := false, bptr;
      AtLinks(k);
      BeforeLinks(k);
      var next := blocks[block].next;
      if next != NONE {
        AtLinks(k + 1);
      }
      if next != NONE && blocks[next].kind == Free && blocks[next].size >= diff {
        Trade(block, k, next, k + 1, diff);
        freeSize := Wrap(freeSize - diff);
      } else if prev != NONE && blocks[prev].kind == Free && blocks[prev].size >= diff {
        Trade(block, k, prev, k - 1, diff);
        freeSize := Wrap(freeSize - diff);
        ptr := Wrap(bptr - diff);
      } else {
        move := true;
      }
    }

    method ShrinkBlock(block: int, prev: int, ghost k: nat, bptr: Word, size: Word, diff: Word)
      returns (ptr: Word)
      requires Valid() && k < |list| && block == list[k] && prev == Before(k)
      requires Signed(Wrap(size - Cells()[k].size)) < 0
      requires diff == Wrap(0 - Wrap(size - Cells()[k].size))
      modifies this`freeSize, this`lost, blocks
      ensures Valid() && Plan(old(Cells()), k, size) != Move
      ensures (Abs(), ptr) == ResizeInPlace(old(Abs()), k, bptr, size)
    {
      hide Linked, Wrap, Signed, Resized, CellsOf;
      ptr := bptr;
      AtLinks(k);
      BeforeLinks(k);
      var next := blocks[block].next;
      if next != NONE {
        AtLinks(k + 1);
      }
      if prev != NONE && blocks[prev].kind == Free {
        Trade(block, k, prev, k - 1, -(diff as int));
        freeSize := Wrap(freeSize + diff);
        ptr := Wrap(bptr + diff);
      } else if next != NONE && blocks[next].kind == Free {
        Trade(block, k, next, k + 1, -(diff as int));
        freeSize := Wrap(freeSize + diff);
      } else {
        ptr := SplitUnlinked(block, k, bptr, diff);
      }
    }

    lemma BeforeLinks(k: nat)
      requires Valid() && k < |list|
      ensures Before(k) == NONE <==> k == 0
      ensures k > 0 ==> 0 <= Before(k) < blocks.Length && Before(k) != list[k]
      ensures k > 0 ==> Cells()[k - 1] == Cell(blocks[Before(k)].kind, blocks[Before(k)].size)
    {
    }

    /** The branch that splits: the rest gets a descriptor, which is not put on the list. */
    method SplitUnlinked(block: int, ghost k: nat, bptr: Word, diff: Word) returns (ptr: Word)
      requires Valid() && k < |list| && block == list[k]
      modifies this`freeSize, this`lost, blocks
      ensures Valid()
      ensures var r := old(Abs());
        if |r.cells| + r.lost >= r.maxBlocks then Abs() == r && ptr == NULL
        else
          ptr == bptr &&
          Abs() == r.(cells := r.cells[k := Resized(r.cells[k], 0 - diff)],
                      freeSize := Wrap(r.freeSize + diff), lost := r.lost + 1)
    {
      hide Linked, Wrap, CellsOf;
      var rest := NewBlock();
      if rest == NONE {
        return NULL;
      }
      ghost var t, d := blocks[..], Desc(blocks[rest].next, diff, Free);
      LoseLinked(t, head, list, lost, rest, d);
      blocks[rest] := blocks[rest].(kind := Free);
      blocks[rest] := blocks[rest].(size := diff);
      assert blocks[..] == t[rest := d];
      lost := lost + {rest};
      AtLinks(k);
      SetSize(block, k, Wrap(blocks[block].size - diff));
      freeSize := Wrap(freeSize + diff);
      return bptr;
    }
  }

  /** No used block's descriptor changed. */
  twostate predicate UsedKept(a: array<Desc>)
    reads a
  {
    forall x :: 0 <= x < a.Length && old(a[x].kind) == Used ==> a[x] == old(a[x])
  }

  twostate lemma SameKept(region: MemRegion)
    requires unchanged(region) && unchanged(region.blocks)
    ensures UsedKept(region.blocks)
  {
  }

  /** The heap, the pointer and the bytes are what `mem_realloc` is to leave. */
  ghost predicate Reallocated(h: Heap, p: Word, ram: seq<Byte>, ram': seq<Byte>, ptr: Word,
                              r: (Heap, Word, nat))
    requires |ram| > 0
  {
    h == r.0 && p == r.1 && ram' == CopyRing(ram, p, ptr, r.2)
  }

  /** `struct mem_master`: a fixed number of region slots. */
  class MemMaster {
    const regions: seq<MemRegion>

    ghost predicate Valid()
      reads this, regions, set r | r in regions :: r.blocks
    {
      && |regions| > 0
      && (forall i, j :: 0 <= i < j < |regions| ==>
            regions[i] != regions[j] && regions[i].blocks != regions[j].blocks)
      && (forall i :: 0 <= i < |regions| ==> regions[i].Valid())
    }

    /** The heap the slots make up. */
    ghost function Abs(): (h: Heap)
      requires Valid()
      reads this, regions, set r | r in regions :: r.blocks
      ensures |h| == |regions| && forall i :: 0 <= i < |h| ==> h[i] == regions[i].Abs()
    {
      seq(|regions|, i requires 0 <= i < |regions| && regions[i].Valid()
                       reads regions, set r | r in regions :: r.blocks => regions[i].Abs())
    }

    /** `mem_init_master`. */
    constructor ()
      ensures Valid() && |regions| == 4 && fresh(regions)
      ensures forall i :: 0 <= i < 4 ==> Abs()[i] == Region(NULL, 0, 0, 0, [], 0)
    {
      hide Linked, CellsOf, MemRegion.Valid, MemRegion.Abs, MemRegion.Cells;
      var slots: seq<MemRegion> := [];
      while |slots| < 4
        invariant |slots| <= 4
        invariant forall i :: 0 <= i < |slots| ==> fresh(slots[i]) && fresh(slots[i].blocks)
        invariant forall i, j :: 0 <= i < j < |slots| ==>
                    slots[i] != slots[j] && slots[i].blocks != slots[j].blocks
        invariant forall i :: 0 <= i < |slots| ==>
                    slots[i].Valid() && slots[i].Abs() == Region(NULL, 0, 0, 0, [], 0)
      {
        var slot := new MemRegion.Empty();
        slots := slots + [slot];
      }
      regions := slots;
    }

    /** When only slot `i` changes, so does only region `i` of the heap. */
    twostate lemma OneChanged(i: nat)
      requires old(Valid()) && i < |regions| && regions[i].Valid()
      requires forall j :: 0 <= j < |regions| && j != i ==>
                 regions[j].blocks != regions[i].blocks &&
                 unchanged(regions[j]) && unchanged(regions[j].blocks)
      ensures Valid() && Abs() == old(Abs())[i := regions[i].Abs()]
    {
      hide Linked, CellsOf;
      forall j | 0 <= j < |regions| && j != i
        ensures regions[j].Valid() && regions[j].Abs() == old(regions[j].Abs())
      {
      }
    }

    /** One slot of `mem_alloc`. */
    method AllocAt(region: MemRegion, ghost i: nat, size: Word) returns (done: bool, ptr: Word)
      requires Valid() && i < |regions| && region == regions[i]
      modifies region`list, region`freeSize, region.blocks
      ensures Valid()
      ensures var (r, d, p) := AllocIn(old(Abs())[i], size);
        Abs() == old(Abs())[i := r] && done == d && ptr == p
      ensures old(FreeHead(region.Abs().cells)) ==> UsedKept(region.blocks)
    {
      hide Linked, CellsOf, AllocIn, Sum, Tidy;
      done, ptr := region.AllocFrom(size);
      OneChanged(i);
    }

    /** `mem_alloc`. */
    method MemAlloc(size: Word) returns (ptr: Word)
      requires Valid()
      modifies regions`list, regions`freeSize, set r | r in regions :: r.blocks
      ensures Valid() && (Abs(), ptr) == Alloc(old(Abs()), size)
      ensures old(HeadsFree(Abs())) ==>
                forall j :: 0 <= j < |regions| ==> UsedKept(regions[j].blocks)
    {
      hide Linked, CellsOf, AllocIn, Alloc, AllocFromSlot, FreeHead, HeadsFree, MemRegion.Valid,
           MemRegion.Cells;
      AllocSlots(Abs(), size);
      var i := 0;
      while i < |regions|
        invariant 0 <= i <= |regions| && Valid()
        invariant AllocFromSlot(Abs(), i, size) == Alloc(old(Abs()), size)
        invariant old(HeadsFree(Abs())) ==> forall j :: 0 <= j < i ==> UsedKept(regions[j].blocks)
        invariant forall j :: i <= j < |regions| ==>
                    unchanged(regions[j]) && unchanged(regions[j].blocks)
      {
        AllocSlotStep(Abs(), i, size);
        var region := regions[i];
        if !(region.addr == NULL || region.freeSize < size) {
          var done;
          HeadFreeAt(old(Abs()), i);
          done, ptr := AllocAt(region, i, size);
          if done {
            forall j | i < j < |regions|
              ensures UsedKept(regions[j].blocks)
            {
              SameKept(regions[j]);
            }
            return;
          }
        } else {
          SameKept(region);
        }
        i := i + 1;
      }
      AllocSlots(Abs(), size);
      return NULL;
    }

    method FreeAt(region: MemRegion, ghost i: nat, ptr: Word) returns (found: bool)
      requires Valid() && i < |regions| && region == regions[i]
      modifies region`list, region.blocks
      ensures Valid()
      ensures var (r, f) := FreeIn(old(Abs())[i], ptr); Abs() == old(Abs())[i := r] && found == f
    {
      hide Linked, CellsOf, FreeIn;
      found := region.FreeFrom(ptr);
      OneChanged(i);
    }

    /** `mem_free`. */
    method MemFree(ptr: Word)
      requires Valid()
      modifies regions`list, set r | r in regions :: r.blocks
      ensures Valid() && Abs() == FreeHeap(old(Abs()), ptr)
    {
      hide Valid, Linked, CellsOf, FreeIn, FreeHeap, FreeFromSlot;
      FreeSlots(Abs(), ptr);
      var i := 0;
      while i < |regions|
        invariant 0 <= i <= |regions| && Valid()
        invariant FreeFromSlot(Abs(), i, ptr) == FreeHeap(old(Abs()), ptr)
      {
        FreeSlotStep(Abs(), i, ptr);
        var found := FreeAt(regions[i], i, ptr);
        if found {
          return;
        }
        i := i + 1;
      }
      FreeSlots(Abs(), ptr);
    }

    /** `mem_new_region`: the slot it fills is the first free one, or the last of all. */
    method MemNewRegion(addr: Word, size: Word) returns (region: MemRegion)
      requires Valid()
      modifies regions
      ensures Valid() && |Abs()| > 0
      ensures var i := FreeSlot(old(Abs()), 0);
        region == regions[i] && Abs() == old(Abs())[i := NewRegion(addr, size)]
    {
      hide Linked, CellsOf, NewRegion;
      region := regions[0];
      var i := 0;
      while i < |regions|
        invariant 0 <= i <= |regions|
        invariant i < |regions| ==> FreeSlot(Abs(), i) == FreeSlot(Abs(), 0)
        invariant i == |regions| ==> FreeSlot(Abs(), 0) == i - 1 && region == regions[i - 1]
      {
        region := regions[i];
        if region.addr == NULL {
          break;
        }
        i := i + 1;
      }
      ghost var slot := FreeSlot(Abs(), 0);
      region.Setup(addr, size);
      OneChanged(slot);
    }

    /** One region of `mem_total_free`, and the ones behind it. */
    lemma CountStep(h: Heap, i: nat, total: Word)
      requires i < |h|
      ensures Wrap(total + TotalFree(h[i..])) ==
              if h[i].addr == NULL then Wrap(total + TotalFree(h[i + 1..]))
              else Wrap(Wrap(total + TotalFreeCells(h[i].cells)) + TotalFree(h[i + 1..]))
    {
      hide TotalFreeCells;
      assert h[i..][1..] == h[i + 1..] && h[i..][0] == h[i];
    }

    /** `mem_total_free`. */
    method MemTotalFree() returns (total: Word)
      requires Valid()
      ensures total == Wrap(TotalFree(Abs()))
    {
      hide Linked, CellsOf, Wrap, TotalFreeCells, TotalFree;
      total := 0;
      var i := 0;
      ghost var h := Abs();
      while i < |regions|
        invariant 0 <= i <= |regions|
        invariant Wrap(total + TotalFree(h[i..])) == Wrap(TotalFree(h[0..]))
      {
        CountStep(h, i, total);
        var region := regions[i];
        if region.addr != NULL {
          total := region.CountFree(total);
        }
        i := i + 1;
      }
      NoneLeft(h, total);
    }

    lemma NoneLeft(h: Heap, total: Word)
      ensures Wrap(total + TotalFree(h[|h|..])) == total && h[0..] == h
    {
    }

    method FindAt(region: MemRegion, ghost i: nat, ptr: Word)
      returns (block: int, prev: int, bptr: Word, ghost k: nat)
      requires Valid() && i < |regions| && region == regions[i]
      modifies region`list, region.blocks
      ensures Valid() && k <= |region.list| && block == region.At(k) && prev == region.Before(k)
      ensures block == NONE <==> k == |region.list|
      ensures var (c, j, b) := Find(old(Abs())[i].cells, 0, old(Abs())[i].addr, ptr);
        Abs() == old(Abs())[i := old(Abs())[i].(cells := c)] && k == j && bptr == b
    {
      hide Linked, CellsOf, Find;
      block, prev, bptr, k := region.FindBlock(ptr);
      region.AtEnd(k);
      OneChanged(i);
    }

    method ResizeAt(region: MemRegion, ghost i: nat, block: int, prev: int, ghost k: nat, bptr: Word,
                    size: Word) returns (move: bool, ptr: Word)
      requires Valid() && i < |regions| && region == regions[i]
      requires k < |region.list| && block == region.list[k] && prev == region.Before(k)
      modifies region`freeSize, region`lost, region.blocks
      ensures Valid() && k < |old(Abs())[i].cells|
      ensures move == (Plan(old(Abs())[i].cells, k, size) == Move)
      ensures if move then Abs() == old(Abs()) && region.blocks[..] == old(region.blocks[..])
              else
                var (r, p) := ResizeInPlace(old(Abs())[i], k, bptr, size);
                Abs() == old(Abs())[i := r] && ptr == p
    {
      hide Linked, CellsOf, ResizeInPlace, Plan;
      move, ptr := region.ResizeBlock(block, prev, k, bptr, size);
      OneChanged(i);
      assert old(Abs())[i := old(Abs())[i]] == old(Abs());
    }

    /** Allocate, copy, free: what `mem_realloc` does when no bytes can be had in place. */
    method MoveBlock(ram: array<Byte>, region: MemRegion, ghost i: nat, block: int, ghost k: nat,
                     ptr: Word, size: Word) returns (newPtr: Word)
      requires Valid() && HeadsFree(Abs()) && ram.Length == 0x1_0000_0000
      requires i < |regions| && region == regions[i]
      requires k < |region.list| && block == region.list[k] && region.Cells()[k].kind == Used
      modifies regions`list, regions`freeSize, set r | r in regions :: r.blocks
      modifies ram
      ensures Valid()
      ensures var (h1, p) := Alloc(old(Abs()), size);
        newPtr == p &&
        if p == NULL then Abs() == h1 && ram[..] == old(ram[..])
        else
          Abs() == FreeHeap(h1, ptr) &&
          ram[..] == CopyRing(old(ram[..]), p, ptr, old(region.Cells())[k].size)
    {
      hide Linked, CellsOf, Alloc, FreeHeap, HeadsFree, CopyRing, MemRegion.Valid, MemRegion.Cells;
      region.AtLinks(k);
      ghost var n := region.Cells()[k].size;
      newPtr := MemAlloc(size);
      assert UsedKept(regions[i].blocks);
      if newPtr == NULL {
        return;
      }
      assert region.blocks[block].size == n;
      CopyAround(ram, newPtr, ptr, region.blocks[block].size);
      MemFree(ptr);
    }

    /** One slot of `mem_realloc`, from the walk over its blocks on. */
    method ReallocAt(ram: array<Byte>, region: MemRegion, ghost i: nat, ptr: Word, size: Word)
      returns (done: bool, newPtr: Word)
      requires Valid() && HeadsFree(Abs()) && ram.Length == 0x1_0000_0000
      requires i < |regions| && region == regions[i] && region.addr != NULL && size <= region.freeSize
      modifies regions`list, regions`freeSize, regions`lost, set r | r in regions :: r.blocks
      modifies ram
      ensures Valid()
      ensures if done then
                Reallocated(Abs(), newPtr, old(ram[..]), ram[..], ptr,
                            Realloc(old(Abs()), i, ptr, size))
              else
                HeadsFree(Abs()) && ram[..] == old(ram[..]) &&
                Realloc(Abs(), i + 1, ptr, size) == Realloc(old(Abs()), i, ptr, size)
    {
      hide Linked, CellsOf, Realloc, Alloc, FreeHeap, FreeHead, Plan, Find, ResizeInPlace, CopyRing;
      ghost var h := Abs();
      ReallocStep(h, i, ptr, size);
      WalkKeepsHead(h[i].cells, 0, h[i].addr, ptr);
      NoBytesCopied(ram[..], ptr);
      var block, prev, bptr, k := FindAt(region, i, ptr);
      done, newPtr := block != NONE, NULL;
      if done {
        var move;
        move, newPtr := ResizeAt(region, i, block, prev, k, bptr, size);
        if move {
          newPtr := MoveBlock(ram, region, i, block, k, ptr, size);
        }
      }
    }

    lemma NoBytesCopied(ram: seq<Byte>, ptr: Word)
      requires |ram| > 0
      ensures forall p: Word :: CopyRing(ram, p, ptr, 0) == ram
    {
    }

    /** `mem_realloc`. The bytes of memory are those of `ram`. */
    method MemRealloc(ram: array<Byte>, ptr: Word, size: Word) returns (newPtr: Word)
      requires Valid() && HeadsFree(Abs()) && ram.Length == 0x1_0000_0000
      modifies regions`list, regions`freeSize, regions`lost, set r | r in regions :: r.blocks
      modifies ram
      ensures Valid()
      ensures Reallocated(Abs(), newPtr, old(ram[..]), ram[..], ptr, Realloc(old(Abs()), 0, ptr, size))
    {
      hide Valid, Linked, CellsOf, Realloc, Alloc, HeadsFree, CopyRing;
      NoBytesCopied(ram[..], ptr);
      var i := 0;
      while i < |regions|
        invariant 0 <= i <= |regions| && Valid() && HeadsFree(Abs())
        invariant Realloc(Abs(), i, ptr, size) == Realloc(old(Abs()), 0, ptr, size)
        invariant ram[..] == old(ram[..])
      {
        ReallocStep(Abs(), i, ptr, size);
        var region := regions[i];
        if !(region.addr == NULL || region.freeSize < size) {
          var done;
          done, newPtr := ReallocAt(ram, region, i, ptr, size);
          if done {
            return;
          }
        }
        i := i + 1;
      }
      ReallocStep(Abs(), i, ptr, size);
      var dropped := MemAlloc(size);
      return NULL;
    }
  }
}
