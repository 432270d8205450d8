/** The linked list `mem_region` threads through its table of descriptors, as values: a table,
    and the positions the list visits in it. */
module BlockList {
  import opened Machine
  import opened HeapSpec

  /** `struct mem_block`. `next` is the position of the next block, or NONE. */
  datatype Desc = Desc(next: int, size: Word, kind: BlockKind)

  const NONE: int := -1

  ghost predicate Distinct(list: seq<int>)
  {
    forall i, j :: 0 <= i < j < |list| ==> list[i] != list[j]
  }

  ghost predicate InTable(t: seq<Desc>, list: seq<int>)
  {
    forall i :: 0 <= i < |list| ==> 0 <= list[i] < |t|
  }

  ghost function NextOnList(list: seq<int>, i: nat): int
    requires i < |list|
  {
    if i + 1 < |list| then list[i + 1] else NONE
  }

  ghost predicate Chained(t: seq<Desc>, list: seq<int>)
    requires InTable(t, list)
  {
    forall i {:trigger t[list[i]]} :: 0 <= i < |list| ==> t[list[i]].next == NextOnList(list, i)
  }

  /** A descriptor is up for grabs exactly when it is neither on the list nor lost. */
  ghost predicate Accounted(t: seq<Desc>, list: seq<int>, lost: set<int>)
  {
    && (forall x :: x in lost ==> 0 <= x < |t| && x !in list)
    && (forall x :: 0 <= x < |t| ==> (t[x].kind == NotPresent <==> x !in list && x !in lost))
  }

  /** The list from `head` is acyclic and ends, visits each of its blocks once, and visits exactly
      the descriptors that are present (save the lost ones). */
  ghost predicate Linked(t: seq<Desc>, head: int, list: seq<int>, lost: set<int>)
  {
    && Distinct(list) && InTable(t, list) && Chained(t, list)
    && head == (if list == [] then NONE else list[0])
    && Accounted(t, list, lost)
  }

  /** What the blocks on the list say. */
  ghost function CellsOf(t: seq<Desc>, list: seq<int>): (c: seq<Cell>)
    requires InTable(t, list)
    ensures |c| == |list|
    ensures forall i :: 0 <= i < |list| ==> c[i] == Cell(t[list[i]].kind, t[list[i]].size)
  {
    seq(|list|, i requires 0 <= i < |list| => Cell(t[list[i]].kind, t[list[i]].size))
  }

  ghost function Without(s: seq<int>, j: nat): seq<int>
    requires j < |s|
  {
    s[..j] + s[j + 1..]
  }

  ghost function With(s: seq<int>, j: nat, x: int): seq<int>
    requires j <= |s|
  {
    s[..j] + [x] + s[j..]
  }

  lemma WithoutAt(s: seq<int>, j: nat)
    requires j < |s|
    ensures |Without(s, j)| == |s| - 1
    ensures forall i :: 0 <= i < |s| - 1 ==> Without(s, j)[i] == s[if i < j then i else i + 1]
  {
  }

  lemma WithAt(s: seq<int>, j: nat, x: int)
    requires j <= |s|
    ensures |With(s, j, x)| == |s| + 1
    ensures forall i :: 0 <= i <= |s| ==>
              With(s, j, x)[i] == if i < j then s[i] else if i == j then x else s[i - 1]
  {
  }

  lemma WithoutKeeps(s: seq<int>, j: nat)
    requires Distinct(s) && j < |s|
    ensures Distinct(Without(s, j))
    ensures forall b :: b in Without(s, j) <==> b in s && b != s[j]
    ensures forall i :: 0 <= i < |s| - 1 ==> Without(s, j)[i] == s[if i < j then i else i + 1]
  {
    var t := Without(s, j);
    forall b | b in s && b != s[j]
      ensures b in t
    {
      var i :| 0 <= i < |s| && s[i] == b;
      assert t[if i < j then i else i - 1] == b;
    }
  }

  lemma WithKeeps(s: seq<int>, j: nat, x: int)
    requires Distinct(s) && j <= |s| && x !in s
    ensures Distinct(With(s, j, x))
    ensures forall b :: b in With(s, j, x) <==> b in s || b == x
    ensures forall i :: 0 <= i <= |s| ==>
              With(s, j, x)[i] == if i < j then s[i] else if i == j then x else s[i - 1]
  {
    var t := With(s, j, x);
    assert t[j] == x;
    forall b | b in s
      ensures b in t
    {
      var i :| 0 <= i < |s| && s[i] == b;
      assert t[if i < j then i else i + 1] == b;
    }
  }

  // ----- two neighbours become one

  /** The table when the block at `a` takes the one at `b` in: `m` replaces the first, the second
      is up for grabs. */
  ghost function Merged(t: seq<Desc>, a: int, b: int, m: Desc): seq<Desc>
    requires 0 <= a < |t| && 0 <= b < |t|
  {
    t[a := m][b := t[b].(kind := NotPresent)]
  }

  ghost predicate MayMerge(t: seq<Desc>, head: int, list: seq<int>, lost: set<int>, k: nat, m: Desc)
  {
    Linked(t, head, list, lost) && k + 1 < |list| &&
    m.kind != NotPresent && m.next == t[list[k + 1]].next
  }

  lemma MergeChained(t: seq<Desc>, head: int, list: seq<int>, lost: set<int>, k: nat, m: Desc)
    requires MayMerge(t, head, list, lost, k, m)
    ensures InTable(t, Without(list, k + 1))
    ensures Chained(Merged(t, list[k], list[k + 1], m), Without(list, k + 1))
  {
    hide Accounted, Without;
    WithoutAt(list, k + 1);
    var t', list' := Merged(t, list[k], list[k + 1], m), Without(list, k + 1);
    forall i | 0 <= i < |list'|
      ensures t'[list'[i]].next == NextOnList(list', i)
    {
      var j := if i <= k then i else i + 1;
      assert t[list[j]].next == NextOnList(list, j);
      assert i == k ==> t[list[k + 1]].next == NextOnList(list, k + 1);
    }
  }

  lemma MergeAccounted(t: seq<Desc>, head: int, list: seq<int>, lost: set<int>, k: nat, m: Desc)
    requires MayMerge(t, head, list, lost, k, m)
    ensures Accounted(Merged(t, list[k], list[k + 1], m), Without(list, k + 1), lost)
  {
    hide Chained;
    WithoutKeeps(list, k + 1);
    assert list[k] in list && list[k + 1] in list;
  }

  lemma MergeCells(t: seq<Desc>, list: seq<int>, k: nat, m: Desc)
    requires InTable(t, list) && Distinct(list) && k + 1 < |list|
    ensures InTable(Merged(t, list[k], list[k + 1], m), Without(list, k + 1))
    ensures CellsOf(Merged(t, list[k], list[k + 1], m), Without(list, k + 1)) ==
            CellsOf(t, list)[..k] + [Cell(m.kind, m.size)] + CellsOf(t, list)[k + 2..]
  {
    hide Without;
    WithoutAt(list, k + 1);
    var t', list', c := Merged(t, list[k], list[k + 1], m), Without(list, k + 1), CellsOf(t, list);
    var r := c[..k] + [Cell(m.kind, m.size)] + c[k + 2..];
    forall i | 0 <= i < |list'|
      ensures CellsOf(t', list')[i] == r[i]
    {
      assert r[i] == if i < k then c[i] else if i == k then Cell(m.kind, m.size) else c[i + 1];
    }
  }

  lemma MergeLinked(t: seq<Desc>, head: int, list: seq<int>, lost: set<int>, k: nat, m: Desc)
    requires MayMerge(t, head, list, lost, k, m)
    ensures 0 <= list[k] < |t| && 0 <= list[k + 1] < |t|
    ensures Linked(Merged(t, list[k], list[k + 1], m), head, Without(list, k + 1), lost)
    ensures CellsOf(Merged(t, list[k], list[k + 1], m), Without(list, k + 1)) ==
            CellsOf(t, list)[..k] + [Cell(m.kind, m.size)] + CellsOf(t, list)[k + 2..]
  {
    hide Accounted, Chained;
    MergeChained(t, head, list, lost, k, m);
    MergeAccounted(t, head, list, lost, k, m);
    MergeCells(t, list, k, m);
    WithoutKeeps(list, k + 1);
  }

  // ----- a block is put on the list behind block `k`

  ghost function Inserted(t: seq<Desc>, a: int, x: int, left: Desc, got: Desc): seq<Desc>
    requires 0 <= a < |t| && 0 <= x < |t|
  {
    t[x := got][a := left]
  }

  ghost predicate MayInsert(t: seq<Desc>, head: int, list: seq<int>, lost: set<int>, k: nat, x: int,
                            left: Desc, got: Desc)
  {
    Linked(t, head, list, lost) && k < |list| && 0 <= x < |t| && t[x].kind == NotPresent &&
    left.kind != NotPresent && left.next == x &&
    got.kind != NotPresent && got.next == t[list[k]].next
  }

  lemma WithInTable(t: seq<Desc>, list: seq<int>, k: nat, x: int)
    requires InTable(t, list) && k <= |list| && 0 <= x < |t|
    ensures InTable(t, With(list, k, x))
  {
  }

  /** The link from position `i` of the longer list. */
  lemma InsertLink(t: seq<Desc>, list: seq<int>, k: nat, x: int, left: Desc, got: Desc, i: nat)
    requires InTable(t, list) && Distinct(list) && Chained(t, list)
    requires k < |list| && 0 <= x < |t| && i <= |list|
    requires forall j :: 0 <= j < |list| ==> list[j] != x
    requires left.next == x && got.next == t[list[k]].next
    ensures var list' := With(list, k + 1, x);
      |list'| == |list| + 1 && 0 <= list'[i] < |t| &&
      Inserted(t, list[k], x, left, got)[list'[i]].next == NextOnList(list', i)
  {
    var list' := With(list, k + 1, x);
    assert list'[i] == if i <= k then list[i] else if i == k + 1 then x else list[i - 1];
    assert i + 1 < |list'| ==>
             list'[i + 1] == if i < k then list[i + 1] else if i == k then x else list[i];
    hide With;
    if i <= k {
      assert list'[i] == list[i] && t[list[i]].next == NextOnList(list, i);
    } else if i == k + 1 {
      assert list'[i] == x && t[list[k]].next == NextOnList(list, k);
    } else {
      assert list'[i] == list[i - 1] && t[list[i - 1]].next == NextOnList(list, i - 1);
    }
  }

  lemma InsertChained(t: seq<Desc>, head: int, list: seq<int>, lost: set<int>, k: nat, x: int,
                      left: Desc, got: Desc)
    requires MayInsert(t, head, list, lost, k, x, left, got)
    requires forall i :: 0 <= i < |list| ==> list[i] != x
    ensures InTable(t, With(list, k + 1, x))
    ensures Chained(Inserted(t, list[k], x, left, got), With(list, k + 1, x))
  {
    hide Accounted;
    var list' := With(list, k + 1, x);
    WithInTable(t, list, k + 1, x);
    forall i | 0 <= i < |list'|
      ensures Inserted(t, list[k], x, left, got)[list'[i]].next == NextOnList(list', i)
    {
      InsertLink(t, list, k, x, left, got, i);
    }
  }

  lemma InsertAccounted(t: seq<Desc>, head: int, list: seq<int>, lost: set<int>, k: nat, x: int,
                        left: Desc, got: Desc)
    requires MayInsert(t, head, list, lost, k, x, left, got)
    ensures x !in list && x !in lost
    ensures Accounted(Inserted(t, list[k], x, left, got), With(list, k + 1, x), lost)
  {
    hide Chained;
    WithKeeps(list, k + 1, x);
    assert list[k] in list;
  }

  lemma InsertCells(t: seq<Desc>, list: seq<int>, k: nat, x: int, left: Desc, got: Desc)
    requires InTable(t, list) && Distinct(list) && k < |list| && 0 <= x < |t|
    requires forall i :: 0 <= i < |list| ==> list[i] != x
    ensures InTable(Inserted(t, list[k], x, left, got), With(list, k + 1, x))
    ensures CellsOf(Inserted(t, list[k], x, left, got), With(list, k + 1, x)) ==
            CellsOf(t, list)[..k] + [Cell(left.kind, left.size), Cell(got.kind, got.size)] +
            CellsOf(t, list)[k + 1..]
  {
    WithInTable(t, list, k + 1, x);
    hide With;
    WithAt(list, k + 1, x);
    var t', list', c := Inserted(t, list[k], x, left, got), With(list, k + 1, x), CellsOf(t, list);
    var r := c[..k] + [Cell(left.kind, left.size), Cell(got.kind, got.size)] + c[k + 1..];
    forall i | 0 <= i < |list'|
      ensures CellsOf(t', list')[i] == r[i]
    {
      assert r[i] == if i < k then c[i] else if i == k then Cell(left.kind, left.size)
                     else if i == k + 1 then Cell(got.kind, got.size) else c[i - 1];
    }
  }

  lemma InsertLinked(t: seq<Desc>, head: int, list: seq<int>, lost: set<int>, k: nat, x: int,
                     left: Desc, got: Desc)
    requires MayInsert(t, head, list, lost, k, x, left, got)
    ensures 0 <= list[k] < |t|
    ensures Linked(Inserted(t, list[k], x, left, got), head, With(list, k + 1, x), lost)
    ensures CellsOf(Inserted(t, list[k], x, left, got), With(list, k + 1, x)) ==
            CellsOf(t, list)[..k] + [Cell(left.kind, left.size), Cell(got.kind, got.size)] +
            CellsOf(t, list)[k + 1..]
  {
    hide Accounted, Chained;
    InsertAccounted(t, head, list, lost, k, x, left, got);
    forall i | 0 <= i < |list|
      ensures list[i] != x
    {
      assert list[i] in list;
    }
    InsertChained(t, head, list, lost, k, x, left, got);
    InsertCells(t, list, k, x, left, got);
    WithKeeps(list, k + 1, x);
  }

  /** Splitting block `k` so that a new block behind it gets its last `size` bytes. */
  ghost function SplitOff(t: seq<Desc>, a: int, x: int, size: Word): seq<Desc>
    requires 0 <= a < |t| && 0 <= x < |t|
  {
    Inserted(t, a, x, Desc(x, Wrap(t[a].size - size), t[a].kind), Desc(t[a].next, size, Used))
  }

  lemma SplitFits(t: seq<Desc>, head: int, list: seq<int>, lost: set<int>, k: nat, x: int, size: Word)
    requires Linked(t, head, list, lost) && k < |list| && 0 <= x < |t| && t[x].kind == NotPresent
    ensures 0 <= list[k] < |t| && x != list[k]
    ensures var b := t[list[k]];
      CellsOf(t, list)[k] == Cell(b.kind, b.size) &&
      MayInsert(t, head, list, lost, k, x, Desc(x, Wrap(b.size - size), b.kind),
                Desc(b.next, size, Used))
  {
    assert list[k] in list;
  }

  lemma SplitLinked(t: seq<Desc>, head: int, list: seq<int>, lost: set<int>, k: nat, x: int, size: Word)
    requires Linked(t, head, list, lost) && k < |list| && 0 <= x < |t| && t[x].kind == NotPresent
    ensures 0 <= list[k] < |t| && x != list[k]
    ensures Linked(SplitOff(t, list[k], x, size), head, With(list, k + 1, x), lost)
    ensures CellsOf(SplitOff(t, list[k], x, size), With(list, k + 1, x)) ==
            Carve(CellsOf(t, list), k, size)
  {
    hide Linked, Wrap, MayInsert, CellsOf, With;
    SplitFits(t, head, list, lost, k, x, size);
    var b := t[list[k]];
    InsertLinked(t, head, list, lost, k, x, Desc(x, Wrap(b.size - size), b.kind),
                 Desc(b.next, size, Used));
  }

  /** Block `k` is given back: its free predecessor takes it in, or it becomes free itself. */
  ghost function GivenBack(t: seq<Desc>, list: seq<int>, k: nat): (r: (seq<Desc>, seq<int>))
    requires InTable(t, list) && k < |list|
  {
    var b := t[list[k]];
    if k > 0 && t[list[k - 1]].kind == Free then
      (Merged(t, list[k - 1], list[k], Desc(b.next, Wrap(t[list[k - 1]].size + b.size), Free)),
       Without(list, k))
    else (t[list[k] := b.(kind := Free)], list)
  }

  lemma GiveBackFits(t: seq<Desc>, head: int, list: seq<int>, lost: set<int>, k: nat)
    requires Linked(t, head, list, lost) && 0 < k < |list| && t[list[k - 1]].kind == Free
    ensures var f, b, c := t[list[k - 1]], t[list[k]], CellsOf(t, list);
      c[k - 1] == Cell(Free, f.size) && c[k] == Cell(b.kind, b.size) &&
      MayMerge(t, head, list, lost, k - 1, Desc(b.next, Wrap(f.size + b.size), Free))
  {
  }

  lemma GiveBackLinked(t: seq<Desc>, head: int, list: seq<int>, lost: set<int>, k: nat)
    requires Linked(t, head, list, lost) && k < |list|
    ensures var (t', list') := GivenBack(t, list, k);
      Linked(t', head, list', lost) && CellsOf(t', list') == Release(CellsOf(t, list), k)
  {
    hide Linked, MayMerge, Merged, Without, Wrap, CellsOf, InTable;
    ListInTable(t, head, list, lost);
    CellIs(t, list, k);
    if k > 0 {
      CellIs(t, list, k - 1);
    }
    if k > 0 && t[list[k - 1]].kind == Free {
      GiveBackFits(t, head, list, lost, k);
      MergeLinked(t, head, list, lost, k - 1,
                  Desc(t[list[k]].next, Wrap(t[list[k - 1]].size + t[list[k]].size), Free));
    } else {
      KindLinked(t, head, list, lost, k, Free);
    }
  }

  lemma ListInTable(t: seq<Desc>, head: int, list: seq<int>, lost: set<int>)
    requires Linked(t, head, list, lost)
    ensures InTable(t, list)
  {
  }

  lemma CellIs(t: seq<Desc>, list: seq<int>, k: nat)
    requires InTable(t, list) && k < |list|
    ensures 0 <= list[k] < |t| && CellsOf(t, list)[k] == Cell(t[list[k]].kind, t[list[k]].size)
  {
  }

  // ----- changes that leave the links alone

  /** Block `k` gets another size and kind. */
  lemma KindLinked(t: seq<Desc>, head: int, list: seq<int>, lost: set<int>, k: nat, kind: BlockKind)
    requires Linked(t, head, list, lost) && k < |list| && kind != NotPresent
    ensures 0 <= list[k] < |t|
    ensures var t' := t[list[k] := t[list[k]].(kind := kind)];
      Linked(t', head, list, lost) &&
      CellsOf(t', list) == CellsOf(t, list)[k := CellsOf(t, list)[k].(kind := kind)]
  {
    assert list[k] in list;
    var t' := t[list[k] := t[list[k]].(kind := kind)];
    RewriteLinked(t, t', head, list, lost);
  }

  lemma SizeLinked(t: seq<Desc>, head: int, list: seq<int>, lost: set<int>, k: nat, size: Word)
    requires Linked(t, head, list, lost) && k < |list|
    ensures 0 <= list[k] < |t|
    ensures var t' := t[list[k] := t[list[k]].(size := size)];
      Linked(t', head, list, lost) &&
      CellsOf(t', list) == CellsOf(t, list)[k := CellsOf(t, list)[k].(size := size)]
  {
    var t' := t[list[k] := t[list[k]].(size := size)];
    RewriteLinked(t, t', head, list, lost);
  }

  /** Blocks keep their places when only sizes change, or a block changes its kind. */
  lemma RewriteLinked(t: seq<Desc>, t': seq<Desc>, head: int, list: seq<int>, lost: set<int>)
    requires Linked(t, head, list, lost) && |t'| == |t|
    requires forall x :: 0 <= x < |t| ==>
               (t'[x].next == t[x].next && (t'[x].kind == NotPresent <==> t[x].kind == NotPresent))
    ensures Linked(t', head, list, lost)
  {
  }

  /** A descriptor is taken but left off the list. */
  lemma LoseLinked(t: seq<Desc>, head: int, list: seq<int>, lost: set<int>, x: int, d: Desc)
    requires Linked(t, head, list, lost) && 0 <= x < |t| && t[x].kind == NotPresent
    requires d.kind != NotPresent
    ensures x !in list && x !in lost
    ensures Linked(t[x := d], head, list, lost + {x})
    ensures CellsOf(t[x := d], list) == CellsOf(t, list)
  {
    forall i | 0 <= i < |list|
      ensures list[i] != x
    {
      assert list[i] in list;
    }
  }

  lemma {:induction false} CountDistinct(list: seq<int>)
    requires Distinct(list)
    ensures |set x | x in list| == |list|
  {
    if list != [] {
      var init, last := list[..|list| - 1], list[|list| - 1];
      CountDistinct(init);
      assert list == init + [last];
      assert (set x | x in list) == (set x | x in init) + {last};
    } else {
      assert (set x | x in list) == {};
    }
  }

  ghost function Below(n: nat): (s: set<int>)
    ensures |s| == n && forall x :: x in s <==> 0 <= x < n
  {
    if n == 0 then {} else Below(n - 1) + {n - 1}
  }

  lemma SubsetCount(a: set<int>, b: set<int>)
    requires a <= b
    ensures |a| <= |b|
  {
    assert b == a + (b - a);
  }

  /** The table is exhausted exactly when list and lost blocks fill it. */
  lemma TableCounts(t: seq<Desc>, head: int, list: seq<int>, lost: set<int>)
    requires Linked(t, head, list, lost)
    ensures |list| + |lost| >= |t| <==> forall x :: 0 <= x < |t| ==> t[x].kind != NotPresent
  {
    hide Distinct, Accounted, Chained, Below;
    var on := set x | x in list;
    var table := Below(|t|);
    CountDistinct(list);
    TakenIffPresent(t, list, lost, on);
    var taken := on + lost;
    assert |taken| == |on| + |lost|;
    if x :| 0 <= x < |t| && x !in taken {
      assert |taken + {x}| == |taken| + 1;
      SubsetCount(taken + {x}, table);
    } else {
      SubsetCount(table, taken);
    }
  }

  lemma TakenIffPresent(t: seq<Desc>, list: seq<int>, lost: set<int>, on: set<int>)
    requires InTable(t, list) && Accounted(t, list, lost) && on == set x | x in list
    ensures on + lost <= Below(|t|) && on !! lost
    ensures forall x :: 0 <= x < |t| ==> (t[x].kind != NotPresent <==> x in on + lost)
  {
  }
}
