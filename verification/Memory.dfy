/** `memcpy` and the forward branch of `memmove` of libc/lib.c: both copy upwards, one element
    at a time. */
module Memory {

  /** What an upward copy of `n` elements leaves, whether or not the ranges overlap. */
  function CopyUp<T>(a: seq<T>, dst: nat, src: nat, n: nat): (r: seq<T>)
    requires dst + n <= |a| && src + n <= |a|
    ensures |r| == |a|
  {
    if n == 0 then a
    else
      var before := CopyUp(a, dst, src, n - 1);
      before[dst + n - 1 := before[src + n - 1]]
  }

  /** An upward copy is exact, a snapshot of the source as it was, when the destination does not
      start inside the source's tail. */
  lemma {:induction false} CopyUpIsSnapshot<T>(a: seq<T>, dst: nat, src: nat, n: nat)
    requires dst + n <= |a| && src + n <= |a|
    requires dst <= src || src + n <= dst
    ensures var r := CopyUp(a, dst, src, n);
      r[dst..dst + n] == a[src..src + n] && r[..dst] == a[..dst] && r[dst + n..] == a[dst + n..]
  {
    if n > 0 {
      CopyUpIsSnapshot(a, dst, src, n - 1);
      var before := CopyUp(a, dst, src, n - 1);
      SourceTailUntouched(a, before, dst, src, n);
      Extended(a, before, dst, src, n);
    }
  }

  lemma Extended<T>(a: seq<T>, before: seq<T>, dst: nat, src: nat, n: nat)
    requires 0 < n && dst + n <= |a| == |before| && src + n <= |a|
    requires before[dst..dst + n - 1] == a[src..src + n - 1]
    requires before[src + n - 1] == a[src + n - 1]
    requires before[..dst] == a[..dst] && before[dst + n - 1..] == a[dst + n - 1..]
    ensures var r := before[dst + n - 1 := before[src + n - 1]];
      r[dst..dst + n] == a[src..src + n] && r[..dst] == a[..dst] && r[dst + n..] == a[dst + n..]
  {
    var r := before[dst + n - 1 := before[src + n - 1]];
    assert r[dst..dst + n] == before[dst..dst + n - 1] + [a[src + n - 1]];
    assert a[src..src + n] == a[src..src + n - 1] + [a[src + n - 1]];
    assert r[dst + n..] == before[dst + n - 1..][1..];
  }

  lemma SourceTailUntouched<T>(a: seq<T>, b: seq<T>, dst: nat, src: nat, n: nat)
    requires 0 < n && dst + n <= |a| && src + n <= |a| == |b|
    requires dst <= src || src + n <= dst
    requires b[..dst] == a[..dst] && b[dst + n - 1..] == a[dst + n - 1..]
    ensures b[src + n - 1] == a[src + n - 1]
  {
    if dst <= src {
      assert b[src + n - 1] == b[dst + n - 1..][src - dst];
    } else {
      assert b[src + n - 1] == b[..dst][src + n - 1];
    }
  }

  /** `memcpy(d, s, n)` and `memmove(d, s, n)` with `d` below `s`, inside one array. */
  method CopyForward<T>(a: array<T>, dst: nat, src: nat, n: nat)
    requires dst + n <= a.Length && src + n <= a.Length
    modifies a
    ensures a[..] == CopyUp(old(a[..]), dst, src, n)
  {
    var left := n;
    var d, s := dst, src;
    while left > 0
      invariant 0 <= left <= n && d == dst + (n - left) && s == src + (n - left)
      invariant a[..] == CopyUp(old(a[..]), dst, src, n - left)
    {
      a[d] := a[s];
      d := d + 1;
      s := s + 1;
      left := left - 1;
    }
  }

  // ----- addresses that wrap around

  /** What an upward copy leaves in a memory whose addresses wrap around. */
  function CopyRing<T>(a: seq<T>, dst: nat, src: nat, n: nat): (r: seq<T>)
    requires |a| > 0
    ensures |r| == |a|
  {
    if n == 0 then a
    else
      var before := CopyRing(a, dst, src, n - 1);
      before[(dst + (n - 1)) % |a| := before[(src + (n - 1)) % |a|]]
  }

  /** While both ranges end inside the memory nothing wraps. */
  lemma {:induction false} RingIsUp<T>(a: seq<T>, dst: nat, src: nat, n: nat)
    requires |a| > 0 && dst + n <= |a| && src + n <= |a|
    ensures CopyRing(a, dst, src, n) == CopyUp(a, dst, src, n)
  {
    if n > 0 {
      RingIsUp(a, dst, src, n - 1);
      Inside(dst + (n - 1), |a|);
      Inside(src + (n - 1), |a|);
    }
  }

  lemma Inside(x: nat, m: nat)
    requires x < m
    ensures x % m == x
  {
  }

  /** Position `x` is behind `dst` by `i` places, around the end if need be. */
  lemma PlaceDiffers(dst: nat, i: nat, x: nat, m: nat)
    requires dst < m && x < m && i < m && (if x >= dst then x - dst else x + m - dst) != i
    ensures (dst + i) % m != x
  {
    if dst + i < m {
      Inside(dst + i, m);
    } else {
      Inside(dst + i - m, m);
      assert (dst + i) % m == (dst + i - m) % m by { OneRound(dst + i - m, m); }
    }
  }

  lemma OneRound(x: nat, m: nat)
    requires x < m
    ensures (x + m) % m == x
  {
  }

  /** A place the copy does not reach keeps its element. */
  lemma {:induction false} RingSpares<T>(a: seq<T>, dst: nat, src: nat, n: nat, x: nat)
    requires dst < |a| && src < |a| && x < |a| && n <= |a|
    requires (if x >= dst then x - dst else x + |a| - dst) >= n
    ensures CopyRing(a, dst, src, n)[x] == a[x]
  {
    if n > 0 {
      RingSpares(a, dst, src, n - 1, x);
      PlaceDiffers(dst, n - 1, x, |a|);
    }
  }

  /** The first `w` elements arrive as they were when source and destination of these are apart or
      the destination is the lower one, however many more are copied. */
  lemma {:induction false} RingStart<T>(a: seq<T>, dst: nat, src: nat, n: nat, i: nat, w: nat)
    requires w <= n <= |a| && i < w && dst + w <= |a| && src + w <= |a|
    requires src + w <= dst || dst + w <= src
    ensures CopyRing(a, dst, src, n)[dst + i] == a[src + i]
  {
    if n > i + 1 {
      if n - 1 < w {
        RingStart(a, dst, src, n - 1, i, n - 1);
      } else {
        RingStart(a, dst, src, n - 1, i, w);
      }
      PlaceDiffers(dst, n - 1, dst + i, |a|);
    } else {
      RingSpares(a, dst, src, i, src + i);
      Inside(dst + i, |a|);
      Inside(src + i, |a|);
    }
  }

  /** Once written, a place keeps what the copy found at its source. */
  lemma {:induction false} RingSettles<T>(a: seq<T>, dst: nat, src: nat, n: nat, w: nat)
    requires w < n <= |a| && dst + w < |a| && src + w < |a|
    ensures CopyRing(a, dst, src, n)[dst + w] == CopyRing(a, dst, src, w)[src + w]
  {
    if n == w + 1 {
      Inside(dst + w, |a|);
      Inside(src + w, |a|);
    } else {
      RingSettles(a, dst, src, n - 1, w);
      PlaceDiffers(dst, n - 1, dst + w, |a|);
    }
  }

  /** Copying upwards within a stretch of equal elements leaves it as it is. */
  lemma {:induction false} RingQuiet<T>(a: seq<T>, dst: nat, src: nat, n: nat, v: T, bound: nat)
    requires src < dst && dst + n <= bound <= |a| && forall y :: 0 <= y < bound ==> a[y] == v
    ensures forall y :: 0 <= y < bound ==> CopyRing(a, dst, src, n)[y] == v
  {
    if n > 0 {
      RingQuiet(a, dst, src, n - 1, v, bound);
      Inside(dst + (n - 1), |a|);
      Inside(src + (n - 1), |a|);
    }
  }

  /** An element that differs from all others does not survive where the copy goes. */
  lemma RingOverwrites<T>(a: seq<T>, dst: nat, src: nat, n: nat, w: nat, v: T)
    requires dst != src && w < n <= |a| && dst + w < |a| && src + w < |a|
    requires forall y :: 0 <= y < |a| && y != dst + w ==> a[y] == v
    ensures CopyRing(a, dst, src, n)[dst + w] == v
  {
    hide CopyRing;
    RingSettles(a, dst, src, n, w);
    if src < dst {
      RingQuiet(a, dst, src, w, v, dst + w);
    } else {
      RingSpares(a, dst, src, w, src + w);
    }
  }

  /** `memcpy(d, s, n)` over the whole address space. */
  method CopyAround<T>(a: array<T>, dst: nat, src: nat, n: nat)
    requires dst < a.Length && src < a.Length
    modifies a
    ensures a[..] == CopyRing(old(a[..]), dst, src, n)
  {
    var i := 0;
    while i < n
      invariant 0 <= i <= n
      invariant a[..] == CopyRing(old(a[..]), dst, src, i)
    {
      a[(dst + i) % a.Length] := a[(src + i) % a.Length];
      i := i + 1;
    }
  }
}
