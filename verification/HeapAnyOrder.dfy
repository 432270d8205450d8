/** `mem_free` when regions are registered in any address order, which `mem_new_region` of libc/alloc.c
    does not prevent. */
module HeapAnyOrder {
  import opened Machine
  import opened HeapSpec
  import opened HeapLaws
  import opened HeapWide

  /** Every region sound by itself, no two with a byte in common. */
  ghost predicate Disjoint(h: Heap)
  {
    (forall i :: 0 <= i < |h| ==> RegionInv(h[i])) &&
    (forall i, j :: 0 <= i < j < |h| && h[i].addr != NULL && h[j].addr != NULL ==>
       h[i].addr + Sum(h[i].cells) <= h[j].addr || h[j].addr + Sum(h[j].cells) <= h[i].addr)
  }

  ghost function LiveOf(r: Region): map<int, int>
  {
    Live(r.cells, r.addr)
  }

  /** The walk over `r` for `ptr` runs off its end. */
  ghost predicate AllBelowPtr(r: Region, ptr: int)
  {
    forall q :: q in LiveOf(r) ==> q < ptr
  }

  lemma DisjointRest(h: Heap)
    requires Disjoint(h) && h != []
    ensures Disjoint(h[1..]) && RegionInv(h[0])
  {
    assert forall i :: 0 <= i < |h[1..]| ==> h[1..][i] == h[i + 1];
  }

  lemma {:induction false} LiveSomewhere(h: Heap, q: int)
    requires q in HeapLive(h)
    ensures exists i :: 0 <= i < |h| && q in LiveOf(h[i])
  {
    if q in HeapLive(h[1..]) {
      LiveSomewhere(h[1..], q);
      var i :| 0 <= i < |h[1..]| && q in LiveOf(h[1..][i]);
      assert h[1..][i] == h[i + 1];
    } else {
      assert q in LiveOf(h[0]);
    }
  }

  lemma ApartLive(r: Region, s: Region, q: int)
    requires RegionInv(r) && RegionInv(s) && q in LiveOf(r)
    requires r.addr != NULL && s.addr != NULL ==>
               r.addr + Sum(r.cells) <= s.addr || s.addr + Sum(s.cells) <= r.addr
    ensures q !in LiveOf(s)
  {
    hide Live, Sum;
    EmptyIsNotLive(r);
    EmptyIsNotLive(s);
    LiveIntervals(r.cells, r.addr);
    LiveIntervals(s.cells, s.addr);
  }

  /** No address is live twice. */
  lemma LiveOnce(h: Heap, q: int)
    requires Disjoint(h) && h != [] && q in LiveOf(h[0])
    ensures q !in HeapLive(h[1..])
  {
    hide Live, HeapLive, Sum, RegionInv;
    if q in HeapLive(h[1..]) {
      LiveSomewhere(h[1..], q);
      var i :| 0 <= i < |h[1..]| && q in LiveOf(h[1..][i]);
      assert h[1..][i] == h[i + 1];
      ApartLive(h[0], h[i + 1], q);
    }
  }

  lemma {:induction false} LiveInSlot(h: Heap, m: nat, p: int)
    requires m < |h| && p in LiveOf(h[m])
    ensures p in HeapLive(h)
  {
    if m > 0 {
      assert h[1..][m - 1] == h[m];
      LiveInSlot(h[1..], m - 1, p);
    }
  }

  /** `mem_free` makes no block. */
  lemma {:induction false} FreeOnlyRemoves(h: Heap, ptr: Word, q: int)
    requires (forall i :: 0 <= i < |h| ==> RegionInv(h[i])) && q in HeapLive(FreeHeap(h, ptr))
    ensures q in HeapLive(h)
  {
    hide Live, Sum, FreeIn, WithoutNext, RegionInv;
    if h != [] {
      FreeInRegion(h[0], ptr);
      var (r, found) := FreeIn(h[0], ptr);
      WithoutLess(LiveOf(h[0]), ptr, q);
      var t := if found then h[1..] else FreeHeap(h[1..], ptr);
      assert FreeHeap(h, ptr) == [r] + t && ([r] + t)[1..] == t;
      assert forall i :: 0 <= i < |h[1..]| ==> h[1..][i] == h[i + 1];
      if !found && q in HeapLive(t) {
        FreeOnlyRemoves(h[1..], ptr, q);
      }
    }
  }

  lemma WithoutLess(live: map<int, int>, ptr: int, q: int)
    ensures q in WithoutNext(live, ptr) ==> q in live
  {
  }

  /** A live pointer gives back its own block and nothing else exactly when no earlier slot holds a
      block at or above it. */
  lemma {:induction false} FreeExactIff(h: Heap, m: nat, p: Word)
    requires Disjoint(h) && m < |h| && p in LiveOf(h[m])
    ensures HeapLive(FreeHeap(h, p)) == HeapLive(h) - {p} <==>
            forall i :: 0 <= i < m ==> AllBelowPtr(h[i], p)
    decreases m
  {
    hide Live, Sum, FreeIn, WithoutNext, RegionInv, HeapLive;
    DisjointRest(h);
    FreeInRegion(h[0], p);
    var (r, found) := FreeIn(h[0], p);
    var t := if found then h[1..] else FreeHeap(h[1..], p);
    HeapLiveCons(r, t);
    HeapLiveCons(h[0], h[1..]);
    assert FreeHeap(h, p) == [r] + t && h == [h[0]] + h[1..];
    if m == 0 {
      NextOfLive(LiveOf(h[0]), p);
      LiveOnce(h, p);
      TakenFromFront(LiveOf(h[0]), HeapLive(t), p);
    } else {
      assert h[1..][m - 1] == h[m];
      LiveInSlot(h[1..], m - 1, p);
      if p in LiveOf(h[0]) {
        LiveOnce(h, p);
      }
      if found {
        var q :| q in LiveOf(h[0]) && IsNext(LiveOf(h[0]), p, q);
        LiveOnce(h, q);
        NextGone(LiveOf(h[0]), p, q);
        assert !AllBelowPtr(h[0], p);
      } else {
        FreeExactIff(h[1..], m - 1, p);
        EarlierSlots(h, m, p);
        NoneNext(LiveOf(h[0]), p);
        RestDecides(h, p, t);
      }
    }
  }

  lemma HeapLiveCons(r: Region, t: Heap)
    ensures HeapLive([r] + t) == LiveOf(r) + HeapLive(t)
  {
    hide Live;
    assert ([r] + t)[1..] == t;
  }

  lemma TakenFromFront(l: map<int, int>, t: map<int, int>, p: int)
    requires p in l && p !in t
    ensures (l - {p}) + t == (l + t) - {p}
  {
  }

  lemma NextGone(live: map<int, int>, ptr: int, q: int)
    requires IsNext(live, ptr, q)
    ensures q !in WithoutNext(live, ptr) && q >= ptr
  {
  }

  lemma EarlierSlots(h: Heap, m: nat, p: int)
    requires 0 < m <= |h| && AllBelowPtr(h[0], p)
    ensures (forall i :: 0 <= i < m ==> AllBelowPtr(h[i], p)) <==>
            (forall i :: 0 <= i < m - 1 ==> AllBelowPtr(h[1..][i], p))
  {
    hide AllBelowPtr;
    assert forall i :: 0 <= i < m - 1 ==> h[1..][i] == h[i + 1];
    assert forall i :: 0 < i < m ==> h[i] == h[1..][i - 1];
  }

  /** What the first region holds makes no difference to what the others lose. */
  lemma RestDecides(h: Heap, p: Word, t: Heap)
    requires Disjoint(h) && h != [] && t == FreeHeap(h[1..], p) && p !in LiveOf(h[0])
    ensures LiveOf(h[0]) + HeapLive(t) == (LiveOf(h[0]) + HeapLive(h[1..])) - {p} <==>
            HeapLive(t) == HeapLive(h[1..]) - {p}
  {
    hide Live, HeapLive, FreeHeap, LiveOf;
    DisjointRest(h);
    forall q | q in LiveOf(h[0])
      ensures q !in HeapLive(h[1..]) && q !in HeapLive(t)
    {
      LiveOnce(h, q);
      if q in HeapLive(t) {
        FreeOnlyRemoves(h[1..], p, q);
      }
    }
    SameBehind(LiveOf(h[0]), HeapLive(t), HeapLive(h[1..]), p);
  }

  lemma SameBehind(l: map<int, int>, x: map<int, int>, y: map<int, int>, p: int)
    requires p !in l && forall q :: q in l ==> q !in x && q !in y
    ensures l + x == (l + y) - {p} <==> x == y - {p}
  {
    if l + x == (l + y) - {p} {
      forall q
        ensures q in x <==> q in y - {p}
        ensures q in x ==> x[q] == (y - {p})[q]
      {
        assert q in l + x <==> q in (l + y) - {p};
        assert q in x ==> (l + x)[q] == ((l + y) - {p})[q];
      }
      assert x == y - {p};
    }
  }
}
