/** Whole runs of the heap, seen from its callers: a ledger of what they hold is always exactly
    what the block lists say. */
module HeapRuns {
  import opened Machine
  import opened HeapSpec
  import opened HeapLaws
  import opened HeapWide
  import opened HeapRealloc
  import opened HeapContents

  datatype Op = Malloc(size: Word) | Return(ptr: Word) | Resize(ptr: Word, size: Word)

  /** The heap next to its callers' ledger: the blocks they hold, the bytes in them, and the
      bytes taken off `free_size` on balance. */
  datatype World = World(heap: Heap, live: map<int, int>, held: int, granted: int)

  /** Callers ask for at least one byte, give back what they hold, and resize what they hold, up or
      down, whenever `mem_realloc` does its job. */
  ghost predicate Allowed(w: World, op: Op)
  {
    match op
    case Malloc(size) => size > 0
    case Return(p) => p in w.live
    case Resize(p, size) => p in w.live && size > 0 && DoesItsJob(w.heap, p, size)
  }

  ghost function Step(w: World, op: Op): World
    requires Allowed(w, op)
  {
    match op
    case Malloc(size) =>
      var (h, p) := Alloc(w.heap, size);
      if p == NULL then w.(heap := h)
      else World(h, w.live[p := size], w.held + size, w.granted + size)
    case Return(p) =>
      World(FreeHeap(w.heap, p), w.live - {p}, w.held - w.live[p], w.granted)
    case Resize(p, size) =>
      var (h, q, _) := Realloc(w.heap, 0, p, size);
      if q == NULL then w.(heap := h)
      else
        var taken := Taken(DecidedPlan(w.heap, p, size), q, w.live[p], size);
        World(h, (w.live - {p})[q := size], w.held - w.live[p] + size, w.granted + taken)
  }

  ghost predicate AllAllowed(w: World, ops: seq<Op>)
    decreases |ops|
  {
    ops == [] || (Allowed(w, ops[0]) && AllAllowed(Step(w, ops[0]), ops[1..]))
  }

  ghost function Run(w: World, ops: seq<Op>): World
    requires AllAllowed(w, ops)
    decreases |ops|
  {
    if ops == [] then w else Run(Step(w, ops[0]), ops[1..])
  }

  function Covered(h: Heap): nat
  {
    if h == [] then 0 else Sum(h[0].cells) + Covered(h[1..])
  }

  /** The ledger agrees with the heap, for the bytes and for the accounts. */
  ghost predicate Agrees(w: World, start: Heap)
  {
    HeapInv(w.heap) && SameSlots(start, w.heap) && w.live == HeapLive(w.heap) &&
    TotalFree(w.heap) + w.held == Covered(start) &&
    FreeSizes(w.heap) + w.granted == FreeSizes(start)
  }

  /** One call keeps ledger and heap in agreement. */
  lemma StepAgrees(w: World, op: Op, start: Heap)
    requires Agrees(w, start) && Allowed(w, op)
    ensures Agrees(Step(w, op), start)
  {
    hide HeapLive, TotalFree, Alloc, FreeHeap, Realloc, FreeSizes, HeapInv, DoesItsJob, DecidedPlan, Placed;
    match op
    case Malloc(size) => AllocGrants(w.heap, size);
    case Return(p) => FreeIsExact(w.heap, p);
    case Resize(p, size) => ReallocExactIff(w.heap, p, size);
  }

  /** Over every run: the head of every region stays free and covers `free_size`, the callers
      hold exactly the used blocks, and the accounts balance to the byte. */
  lemma {:induction false} RunAgrees(w: World, ops: seq<Op>, start: Heap)
    requires Agrees(w, start) && AllAllowed(w, ops)
    ensures Agrees(Run(w, ops), start)
    decreases |ops|
  {
    hide Agrees, Step, Allowed;
    if ops != [] {
      StepAgrees(w, ops[0], start);
      RunAgrees(Step(w, ops[0]), ops[1..], start);
    }
  }

  /** Blocks held at any moment are non-empty, do not start at NULL, and do not overlap. */
  lemma RunKeepsApart(w: World, ops: seq<Op>, start: Heap)
    requires Agrees(w, start) && AllAllowed(w, ops)
    ensures var live := Run(w, ops).live;
      (forall p :: p in live ==> 0 < p && 0 < live[p] && p + live[p] < 0x1_0000_0000) &&
      (forall p, q :: p in live && q in live && p < q ==> p + live[p] <= q)
  {
    hide Run, HeapLive;
    RunAgrees(w, ops, start);
    HeapIntervals(Run(w, ops).heap);
  }

  ghost predicate Spares(op: Op, p: int)
  {
    match op
    case Malloc(_) => true
    case Return(q) => q != p
    case Resize(q, _) => q != p
  }

  lemma StepSpares(w: World, op: Op, start: Heap, p: int)
    requires Agrees(w, start) && Allowed(w, op) && Spares(op, p) && p in w.live
    ensures p in Step(w, op).live && Step(w, op).live[p] == w.live[p]
  {
    hide HeapLive, TotalFree, Alloc, FreeHeap, Realloc, FreeSizes, HeapInv, DoesItsJob, DecidedPlan, Placed;
    match op
    case Malloc(size) => AllocGrants(w.heap, size);
    case Return(q) =>
    case Resize(q, size) => ReallocExactIff(w.heap, q, size);
  }

  /** A block stays where it was granted, at the size granted, until it is itself given back or
      resized, whatever else the run does. */
  lemma {:induction false} BlockOutlivesRun(w: World, ops: seq<Op>, start: Heap, p: int)
    requires Agrees(w, start) && AllAllowed(w, ops) && p in w.live
    requires forall i :: 0 <= i < |ops| ==> Spares(ops[i], p)
    ensures p in HeapLive(Run(w, ops).heap) && HeapLive(Run(w, ops).heap)[p] == w.live[p]
    decreases |ops|
  {
    hide HeapLive, TotalFree, Step, Allowed, FreeSizes, Spares, HeapInv;
    if ops != [] {
      StepAgrees(w, ops[0], start);
      StepSpares(w, ops[0], start, p);
      assert forall i :: 0 <= i < |ops[1..]| ==> ops[1..][i] == ops[i + 1];
      BlockOutlivesRun(Step(w, ops[0]), ops[1..], start, p);
    }
  }

  // ----- the bytes of memory over a run

  /** What a call does to memory; only a resize writes to blocks. */
  ghost function StepBytes(w: World, op: Op, ram: seq<Byte>): (r: seq<Byte>)
    requires Allowed(w, op) && |ram| == 0x1_0000_0000
    ensures |r| == |ram|
  {
    match op
    case Resize(p, size) => var (_, q, moved) := Realloc(w.heap, 0, p, size); Copied(ram, p, q, moved)
    case _ => ram
  }

  ghost function RunBytes(w: World, ops: seq<Op>, ram: seq<Byte>): (r: seq<Byte>)
    requires AllAllowed(w, ops) && |ram| == 0x1_0000_0000
    ensures |r| == |ram|
    decreases |ops|
  {
    if ops == [] then ram else RunBytes(Step(w, ops[0]), ops[1..], StepBytes(w, ops[0], ram))
  }

  lemma HalfSizedKept(h: Heap, h': Heap)
    requires HalfSized(h) && SameSlots(h, h')
    ensures HalfSized(h')
  {
  }

  lemma StepSparesBytes(w: World, op: Op, start: Heap, x: int, ram: seq<Byte>)
    requires Agrees(w, start) && HalfSized(start) && Allowed(w, op) && Spares(op, x) && x in w.live
    requires |ram| == 0x1_0000_0000
    ensures 0 < x && 0 < w.live[x] && x + w.live[x] < 0x1_0000_0000 &&
            Preserves(ram, StepBytes(w, op, ram), x, x, w.live[x])
  {
    hide HeapLive, TotalFree, Alloc, FreeHeap, Realloc, FreeSizes, HeapInv, DoesItsJob, DecidedPlan, Copied,
         HalfSized, CopyFits;
    HeapIntervals(w.heap);
    if op.Resize? {
      HalfSizedKept(start, w.heap);
      CopyFitsNewBlock(w.heap, op.ptr, op.size, ram);
      ResizeSparesOthers(w.heap, op.ptr, op.size, x, ram);
    }
  }

  /** In regions below 2 GiB, a block that a run does not name keeps every byte: nothing the run does,
      copies included, writes to it. */
  lemma {:induction false} BytesOutliveRun(w: World, ops: seq<Op>, start: Heap, x: int, ram: seq<Byte>)
    requires Agrees(w, start) && HalfSized(start) && AllAllowed(w, ops) && x in w.live
    requires forall i :: 0 <= i < |ops| ==> Spares(ops[i], x)
    requires |ram| == 0x1_0000_0000
    ensures 0 < x && 0 < w.live[x] && x + w.live[x] < 0x1_0000_0000 &&
            Preserves(ram, RunBytes(w, ops, ram), x, x, w.live[x])
    decreases |ops|
  {
    hide HeapLive, TotalFree, Step, Allowed, FreeSizes, Spares, HeapInv, HalfSized, StepBytes, Agrees;
    if ops != [] {
      StepAgrees(w, ops[0], start);
      StepSpares(w, ops[0], start, x);
      StepSparesBytes(w, ops[0], start, x, ram);
      assert forall i :: 0 <= i < |ops[1..]| ==> ops[1..][i] == ops[i + 1];
      BytesOutliveRun(Step(w, ops[0]), ops[1..], start, x, StepBytes(w, ops[0], ram));
    } else {
      LiveIsInside(w, start, x);
    }
  }

  lemma LiveIsInside(w: World, start: Heap, x: int)
    requires Agrees(w, start) && x in w.live
    ensures 0 < x && 0 < w.live[x] && x + w.live[x] < 0x1_0000_0000
  {
    hide HeapLive, HeapInv;
    HeapIntervals(w.heap);
  }

  // ----- the descriptor tables over a run

  /** Everything live in a region starts behind its head. */
  lemma LiveBehindHead(h: Heap, i: nat, p: int)
    requires HeapInv(h) && i < |h| && h[i].addr != NULL && p in Live(h[i].cells, h[i].addr)
    ensures p >= h[i].addr + h[i].freeSize
  {
    hide Sum;
    var c := h[i].cells;
    assert Tidy(c[1..]);
    LiveIntervals(c[1..], h[i].addr + c[0].size);
  }

  /** Over every run: as long as a region's `free_size` is at least the size of the table that lies over
      its first bytes, every block held in it is clear of the table. */
  lemma RunClearsTables(w: World, ops: seq<Op>, start: Heap, i: nat, p: int)
    requires Agrees(w, start) && AllAllowed(w, ops) && i < |start| && start[i].addr != NULL
    requires var h := Run(w, ops).heap;
      i < |h| && p in Live(h[i].cells, h[i].addr) &&
      h[i].freeSize >= DESCRIPTOR_BYTES * start[i].maxBlocks
    ensures var h := Run(w, ops).heap;
      Apart(p, Live(h[i].cells, h[i].addr)[p], start[i].addr, DESCRIPTOR_BYTES * start[i].maxBlocks)
  {
    hide Run, Live, HeapLive;
    RunAgrees(w, ops, start);
    LiveBehindHead(Run(w, ops).heap, i, p);
  }

  /** What `free_size` promises is there: per region it is at most the head, over the heap it is
      at most what `mem_total_free` counts, which is at most what the regions cover. */
  lemma {:induction false} PromisesAreCovered(h: Heap)
    requires HeapInv(h)
    ensures FreeSizes(h) <= TotalFree(h) <= Covered(h)
  {
    if h != [] {
      HeapInvParts(h);
      PromisesAreCovered(h[1..]);
      FreeWithinSum(h[0].cells);
    }
  }

  /** Disjoint regions fit into the address space together, so the count does not wrap. */
  lemma {:induction false} CoveredFits(h: Heap, low: Word)
    requires HeapInv(h)
    requires forall i :: 0 <= i < |h| && h[i].addr != NULL ==> low <= h[i].addr
    ensures low + Covered(h) < 0x1_0000_0000
  {
    hide Sum, Tidy;
    if h != [] {
      HeapInvParts(h);
      var t := h[1..];
      assert forall i :: 0 <= i < |t| ==> t[i] == h[i + 1];
      CoveredFits(t, if h[0].addr == NULL then low else h[0].addr + Sum(h[0].cells));
      EmptySum(h[0]);
    }
  }

  lemma EmptySum(r: Region)
    requires RegionInv(r)
    ensures r.addr == NULL ==> Sum(r.cells) == 0
    ensures r.addr != NULL ==> r.addr + Sum(r.cells) < 0x1_0000_0000
  {
  }

  lemma {:induction false} FreeWithinSum(cells: seq<Cell>)
    ensures TotalFreeCells(cells) <= Sum(cells)
  {
    if cells != [] {
      FreeWithinSum(cells[1..]);
    }
  }
}
