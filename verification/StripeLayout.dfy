/**
 The layout of stripes over the configured spans: every span is cut into one or
 more stripes, and no stripe crosses a span.
 */
module StripeLayout {

  /** A stripe: a piece of one span. */
  datatype Chunk = Chunk(span: nat, size: nat, offset: nat)

  function Sum(s: seq<nat>): nat {
    if s == [] then 0 else Sum(s[..|s| - 1]) + s[|s| - 1]
  }

  lemma SumOneMore(s: seq<nat>, i: nat)
    requires i < |s|
    ensures Sum(s[..i + 1]) == Sum(s[..i]) + s[i]
  {
    assert s[..i + 1][..i] == s[..i];
  }

  lemma {:induction false} SumUpdate(s: seq<nat>, i: nat, v: nat)
    requires i < |s|
    ensures Sum(s[i := v]) == Sum(s) - s[i] + v
  {
    var n := |s| - 1;
    if i == n {
      assert s[i := v][..n] == s[..n];
    } else {
      SumUpdate(s[..n], i, v);
      assert s[i := v][..n] == s[..n][i := v];
    }
  }

  /** With at least one for everybody, the part of a sum leaves at least one for each of the rest. */
  lemma {:induction false} SumLeaves(s: seq<nat>, i: nat)
    requires i <= |s| && forall j | 0 <= j < |s| :: s[j] >= 1
    ensures Sum(s[..i]) + (|s| - i) <= Sum(s)
    decreases |s|
  {
    if i == |s| {
      assert s[..i] == s;
    } else {
      SumLeaves(s[..|s| - 1], i);
      assert s[..|s| - 1][..i] == s[..i];
    }
  }

  lemma {:induction false} SumOfOnes(s: seq<nat>)
    requires forall j | 0 <= j < |s| :: s[j] <= 1
    ensures Sum(s) <= |s|
  {
    if s != [] {
      SumOfOnes(s[..|s| - 1]);
    }
  }

  /** The index of the first largest span. */
  method Largest(sizes: seq<nat>) returns (m: nat)
    requires sizes != []
    ensures IsLargest(sizes, m)
  {
    m := 0;
    for i := 1 to |sizes|
      invariant m < i && (forall j | 0 <= j < i :: sizes[j] <= sizes[m]) && forall j | 0 <= j < m :: sizes[j] < sizes[m]
    {
      if sizes[i] > sizes[m] {
        m := i;
      }
    }
  }

  /** The first span with more than one stripe. */
  method FirstAboveOne(alloc: seq<nat>) returns (m: int)
    ensures m == -1 ==> forall j | 0 <= j < |alloc| :: alloc[j] <= 1
    ensures m != -1 ==> 0 <= m < |alloc| && alloc[m] > 1 && forall j | 0 <= j < m :: alloc[j] <= 1
  {
    for i := 0 to |alloc|
      invariant forall j | 0 <= j < i :: alloc[j] <= 1
    {
      if alloc[i] > 1 {
        return i;
      }
    }
    return -1;
  }

  /** The share of a span in `n` stripes, rounded down, but at least one. */
  function Portion(size: nat, n: nat, total: nat): nat
    requires total > 0
  {
    if size * n / total == 0 then 1 else size * n / total
  }

  /** A share is in proportion: as many stripes as fit into it, or one if none does. */
  lemma PortionIsInProportion(size: nat, n: nat, total: nat)
    requires total > 0
    ensures
      var p := Portion(size, n, total);
      if total <= size * n then p * total <= size * n < (p + 1) * total else p == 1
  {
    var x := size * n;
    assert x == total * (x / total) + x % total;
    assert (x / total + 1) * total == total * (x / total) + total;
  }

  /** The first largest span. */
  predicate IsLargest(sizes: seq<nat>, m: nat) {
    && m < |sizes| && (forall j | 0 <= j < |sizes| :: sizes[j] <= sizes[m]) && (forall j | 0 <= j < m :: sizes[j] < sizes[m])
  }

  function PortionsOf(sizes: seq<nat>, n: nat): (p: seq<nat>)
    requires Sum(sizes) > 0
    ensures |p| == |sizes|
  {
    seq(|sizes|, i requires 0 <= i < |sizes| => Portion(sizes[i], n, Sum(sizes)))
  }

  ghost function LargestOf(sizes: seq<nat>): (m: nat)
    requires sizes != []
    ensures IsLargest(sizes, m)
  {
    if |sizes| == 1 then 0
    else
      var m := LargestOf(sizes[..|sizes| - 1]);
      if sizes[|sizes| - 1] > sizes[m] then |sizes| - 1 else m
  }

  /** How many can be taken from the first `j` places, leaving one of each. */
  function Spare(p: seq<nat>, j: nat): int
    requires j <= |p|
  {
    Sum(p[..j]) - j
  }

  /** What is left at place `j` when `e` are taken away from the front, leaving one of each. */
  function Left(p: seq<nat>, e: nat, j: nat): int
    requires j < |p|
  {
    if e <= Spare(p, j) then p[j] else if e - Spare(p, j) < p[j] then p[j] - (e - Spare(p, j)) else 1
  }

  predicate Taken(p: seq<nat>, e: nat, r: seq<nat>) {
    |r| == |p| && forall j | 0 <= j < |p| :: r[j] == Left(p, e, j)
  }

  lemma {:induction false} SpareGrows(p: seq<nat>, i: nat, j: nat)
    requires i <= j <= |p| && forall k | 0 <= k < |p| :: p[k] >= 1
    ensures 0 <= Spare(p, i) <= Spare(p, j)
    decreases j
  {
    if j > 0 {
      SumOneMore(p, j - 1);
      SpareGrows(p, if i < j then i else j - 1, j - 1);
    }
  }

  /** Where all earlier places have one left, everything spare there has been taken. */
  lemma {:induction false} AllTaken(p: seq<nat>, e: nat, i: nat)
    requires i <= |p| && forall j | 0 <= j < i :: Left(p, e, j) <= 1
    ensures Spare(p, i) <= e
  {
    if i > 0 {
      AllTaken(p, e, i - 1);
      SumOneMore(p, i - 1);
      assert Left(p, e, i - 1) <= 1;
    }
  }

  /** Taking one more takes it from the first place that has more than one. */
  lemma TakeOneMore(p: seq<nat>, e: nat, r: seq<nat>, i: nat)
    requires Taken(p, e, r) && forall j | 0 <= j < |p| :: p[j] >= 1
    requires i < |p| && r[i] > 1 && forall j | 0 <= j < i :: r[j] <= 1
    ensures Taken(p, e + 1, r[i := r[i] - 1])
  {
    AllTaken(p, e, i);
    forall j | 0 <= j < |p| && j != i
      ensures Left(p, e + 1, j) == Left(p, e, j)
    {
      if j < i {
        assert r[j] <= 1;
      } else {
        SumOneMore(p, i);
        SpareGrows(p, i + 1, j);
      }
    }
  }

  /** The stripes that span `j` is given: its portion, evened out at the largest span or from the front. */
  ghost function Allotted(sizes: seq<nat>, n: nat, j: nat): int
    requires Sum(sizes) > 0 && j < |sizes|
  {
    var p := PortionsOf(sizes, n);
    if Sum(p) > n then Left(p, Sum(p) - n, j) else if j == LargestOf(sizes) then p[j] + (n - Sum(p)) else p[j]
  }

  /**
   Stripes for every span: in proportion to its size, at least one, and exactly
   `n` together.  What rounding leaves over goes to the largest span; what is
   too much is taken from the first spans, which keep at least one.  No span is
   dropped.
   */
  method Allot(sizes: seq<nat>, n: nat, total: nat) returns (alloc: seq<nat>)
    requires sizes != [] && n >= |sizes| && total == Sum(sizes) > 0
    ensures |alloc| == |sizes| && forall j | 0 <= j < |sizes| :: alloc[j] == Allotted(sizes, n, j)
    ensures Sum(alloc) == n && forall j | 0 <= j < |alloc| :: alloc[j] >= 1
  {
    alloc := Portions(sizes, n, total);
    assert alloc == PortionsOf(sizes, n);
    var sum := Total(alloc);
    if sum <= n {
      alloc := Grow(sizes, alloc, sum, n);
    } else {
      alloc := Shrink(alloc, sum, n);
    }
  }

  /** Give extra stripes to the largest span. */
  method Grow(sizes: seq<nat>, portions: seq<nat>, first: nat, n: nat) returns (alloc: seq<nat>)
    requires sizes != [] && |portions| == |sizes| && first == Sum(portions) <= n && forall j | 0 <= j < |portions| :: portions[j] >= 1
    ensures
      var m := LargestOf(sizes);
      alloc == portions[m := portions[m] + (n - first)] && Sum(alloc) == n
    ensures forall j | 0 <= j < |alloc| :: alloc[j] >= 1
  {
    alloc := portions;
    var sum := first;
    ghost var m := LargestOf(sizes);
    while sum < n
      invariant first <= sum <= n && alloc == portions[m := portions[m] + (sum - first)] && sum == Sum(alloc)
    {
      var i := Largest(sizes);
      OneLargest(sizes, i, m);
      SumUpdate(alloc, i, alloc[i] + 1);
      alloc := alloc[i := alloc[i] + 1];
      sum := sum + 1;
      assert alloc[m] == portions[m] + (sum - first) && forall j | 0 <= j < |alloc| && j != m :: alloc[j] == portions[j];
    }
  }

  lemma OneLargest(sizes: seq<nat>, i: nat, j: nat)
    requires IsLargest(sizes, i) && IsLargest(sizes, j)
    ensures i == j
  {
    assert sizes[i] <= sizes[j] && sizes[j] <= sizes[i];
  }

  /** Take stripes from spans that have more than one. */
  method Shrink(portions: seq<nat>, first: nat, n: nat) returns (alloc: seq<nat>)
    requires n >= |portions| && first == Sum(portions) >= n && forall j | 0 <= j < |portions| :: portions[j] >= 1
    ensures Taken(portions, first - n, alloc) && Sum(alloc) == n && forall j | 0 <= j < |alloc| :: alloc[j] >= 1
  {
    alloc := portions;
    var sum := first;
    forall j | 0 <= j < |portions| ensures Spare(portions, j) >= 0 { SpareGrows(portions, 0, j); }
    while sum > n
      invariant n <= sum == Sum(alloc) && sum <= first && Taken(portions, first - sum, alloc)
      invariant forall j | 0 <= j < |alloc| :: alloc[j] >= 1
    {
      var i := FirstAboveOne(alloc);
      if i == -1 {
        SumOfOnes(alloc);
        assert false;
      }
      SumUpdate(alloc, i, alloc[i] - 1);
      TakeOneMore(portions, first - sum, alloc, i);
      alloc := alloc[i := alloc[i] - 1];
      sum := sum - 1;
    }
  }

  method Portions(sizes: seq<nat>, n: nat, total: nat) returns (alloc: seq<nat>)
    requires total > 0
    ensures |alloc| == |sizes| && forall j | 0 <= j < |alloc| :: alloc[j] == Portion(sizes[j], n, total) >= 1
  {
    alloc := [];
    for i := 0 to |sizes|
      invariant |alloc| == i && forall j | 0 <= j < i :: alloc[j] == Portion(sizes[j], n, total) >= 1
    {
      var portion := sizes[i] * n / total;
      if portion == 0 {
        portion := 1;
      }
      alloc := alloc + [portion];
    }
  }

  // -------------------------------------------------------------- the tiling

  predicate Covers(c: Chunk, span: nat, b: nat) {
    c.span == span && c.offset <= b < c.offset + c.size
  }

  /** The chunks are not empty, lie inside their spans, and follow one another without overlap. */
  predicate Apart(layout: seq<Chunk>, sizes: seq<nat>) {
    && (forall j | 0 <= j < |layout| ::
      layout[j].span < |sizes| && layout[j].size > 0 && layout[j].offset + layout[j].size <= sizes[layout[j].span])
    && (forall j, k | 0 <= j < k < |layout| && layout[j].span == layout[k].span ::
      layout[j].offset + layout[j].size <= layout[k].offset)
  }

  predicate Held(layout: seq<Chunk>, span: nat, b: nat) {
    exists j | 0 <= j < |layout| :: Covers(layout[j], span, b)
  }

  predicate Covered(layout: seq<Chunk>, span: nat, size: nat) {
    forall b: nat | b < size :: Held(layout, span, b)
  }

  /** Every byte of every span is in exactly one chunk. */
  predicate Tiling(layout: seq<Chunk>, sizes: seq<nat>) {
    Apart(layout, sizes) && forall i: nat | i < |sizes| :: Covered(layout, i, sizes[i])
  }

  /** The state of the layout: spans before `i` are tiled, span `i` up to `off`. */
  ghost predicate Progress(layout: seq<Chunk>, sizes: seq<nat>, i: nat, off: nat) {
    && Apart(layout, sizes) && i <= |sizes|
    && (forall j | 0 <= j < |layout| :: layout[j].span <= i && (layout[j].span == i ==> layout[j].offset + layout[j].size <= off))
    && (forall d: nat | d < i :: Covered(layout, d, sizes[d])) && Covered(layout, i, off)
  }

  lemma CoveredStays(layout: seq<Chunk>, c: Chunk, span: nat, size: nat)
    requires Covered(layout, span, size)
    ensures Covered(layout + [c], span, size)
  {
    forall b: nat | b < size
      ensures Held(layout + [c], span, b)
    {
      assert Held(layout, span, b);
      var j :| 0 <= j < |layout| && Covers(layout[j], span, b);
      assert Covers((layout + [c])[j], span, b);
    }
  }

  lemma AddChunk(layout: seq<Chunk>, sizes: seq<nat>, i: nat, off: nat, size: nat)
    requires Progress(layout, sizes, i, off) && i < |sizes| && size > 0 && off + size <= sizes[i]
    ensures Progress(layout + [Chunk(i, size, off)], sizes, i, off + size)
  {
    var c := Chunk(i, size, off);
    var layout' := layout + [c];
    forall d: nat | d < i
      ensures Covered(layout', d, sizes[d])
    {
      CoveredStays(layout, c, d, sizes[d]);
    }
    CoveredStays(layout, c, i, off);
    forall b: nat | b < off + size
      ensures Held(layout', i, b)
    {
      if b >= off {
        assert Covers(layout'[|layout|], i, b);
      }
    }
  }

  /** Stripe `j` of a span of `size` bytes in `n` stripes: all equal, the first ones one byte longer. */
  function Share(size: nat, n: nat, j: nat): nat
    requires n > 0
  {
    size / n + if j < size % n then 1 else 0
  }

  /** Where stripe `j` begins. */
  function ShareStart(size: nat, n: nat, j: nat): nat
    requires n > 0
  {
    size / n * j + if j < size % n then j else size % n
  }

  lemma ShareNext(size: nat, n: nat, j: nat)
    requires n > 0
    ensures ShareStart(size, n, j + 1) == ShareStart(size, n, j) + Share(size, n, j)
    ensures ShareStart(size, n, 0) == 0
  {
    assert size / n * (j + 1) == size / n * j + size / n;
  }

  lemma ShareEnd(size: nat, n: nat)
    requires n > 0
    ensures ShareStart(size, n, n) == size
  {
  }

  lemma ShareInside(size: nat, n: nat, j: nat)
    requires n > 0 && j <= n
    ensures ShareStart(size, n, j) <= size
    decreases n - j
  {
    if j == n {
      ShareEnd(size, n);
    } else {
      ShareInside(size, n, j + 1);
      ShareNext(size, n, j);
    }
  }

  /** Cut one span; stripes that would be empty are left out. */
  method LaySpan(before: seq<Chunk>, sizes: seq<nat>, i: nat, n: nat, limit: nat) returns (layout: seq<Chunk>)
    requires i < |sizes| && n > 0 && Progress(before, sizes, i, 0) && |before| < limit && |before| + n <= limit
    ensures before <= layout && |layout| <= |before| + n
    ensures Progress(layout, sizes, i, sizes[i])
    ensures |layout| == |before| + n <==> sizes[i] >= n
  {
    layout := before;
    var off, j := 0, 0;
    ShareNext(sizes[i], n, 0);
    while j < n && |layout| != limit
      invariant j <= n && off == ShareStart(sizes[i], n, j) <= sizes[i]
      invariant before <= layout && |layout| <= |before| + j && Progress(layout, sizes, i, off)
      invariant |layout| == |before| + j <==> forall k | 0 <= k < j :: Share(sizes[i], n, k) > 0
      decreases n - j
    {
      var size := Share(sizes[i], n, j);
      ShareNext(sizes[i], n, j);
      ShareInside(sizes[i], n, j + 1);
      if size != 0 {
        AddChunk(layout, sizes, i, off, size);
        layout := layout + [Chunk(i, size, off)];
        off := off + size;
      }
      j := j + 1;
    }
    ShareEnd(sizes[i], n);
    AllShares(sizes[i], n);
  }

  /** No stripe is empty exactly when there is a byte for each. */
  lemma AllShares(size: nat, n: nat)
    requires n > 0
    ensures (forall k | 0 <= k < n :: Share(size, n, k) > 0) <==> size >= n
  {
    if size >= n {
      assert size / n >= 1;
    } else {
      assert size / n == 0 && size % n == size;
      assert Share(size, n, n - 1) == 0;
    }
  }

  lemma NextSpan(layout: seq<Chunk>, sizes: seq<nat>, i: nat)
    requires i < |sizes| && Progress(layout, sizes, i, sizes[i])
    ensures Progress(layout, sizes, i + 1, 0)
  {
  }

  /** Every span has a byte for each of the stripes it was given. */
  predicate Enough(sizes: seq<nat>, alloc: seq<nat>) {
    |alloc| == |sizes| && forall i | 0 <= i < |sizes| :: sizes[i] >= alloc[i]
  }

  /**
   Lay out exactly `n` stripes that tile the spans, or fail: because the request
   makes no sense, or because a span has fewer bytes than stripes.
   */
  method BuildStripeLayout(sizes: seq<nat>, n: int) returns (ok: bool, layout: seq<Chunk>)
    ensures ok ==> |layout| == n && Tiling(layout, sizes)
    ensures ok <==> n >= |sizes| >= 1 && Sum(sizes) > 0 && forall j | 0 <= j < |sizes| :: sizes[j] >= Allotted(sizes, n, j)
  {
    layout := [];
    if n <= 0 || |sizes| == 0 || n < |sizes| {
      return false, [];
    }
    var total := Total(sizes);
    if total == 0 {
      return false, [];
    }
    var alloc := Allot(sizes, n, total);
    layout := LayAll(sizes, alloc, n);
    ok := |layout| >= n;
    if !ok {
      layout := [];
    }
  }

  method Total(sizes: seq<nat>) returns (total: nat)
    ensures total == Sum(sizes)
  {
    total := 0;
    for i := 0 to |sizes|
      invariant total == Sum(sizes[..i])
    {
      SumOneMore(sizes, i);
      total := total + sizes[i];
    }
    assert sizes[..|sizes|] == sizes;
  }

  /** Cut all spans in turn; the loops stop as soon as there are `n` stripes. */
  method LayAll(sizes: seq<nat>, alloc: seq<nat>, n: nat) returns (layout: seq<Chunk>)
    requires sizes != [] && |alloc| == |sizes| && Sum(alloc) == n && forall j | 0 <= j < |alloc| :: alloc[j] >= 1
    ensures |layout| <= n && Tiling(layout, sizes) && (|layout| == n <==> Enough(sizes, alloc))
  {
    layout := [];
    var i := 0;
    SumLeaves(alloc, 0);
    while i < |sizes| && |layout| != n
      invariant i <= |sizes| && |layout| <= Sum(alloc[..i]) && Progress(layout, sizes, i, 0)
      invariant |layout| == Sum(alloc[..i]) <==> forall j | 0 <= j < i :: sizes[j] >= alloc[j]
    {
      SumOneMore(alloc, i);
      SumLeaves(alloc, i + 1);
      layout := LaySpan(layout, sizes, i, alloc[i], n);
      NextSpan(layout, sizes, i);
      i := i + 1;
    }
    SumLeaves(alloc, i);
    assert i == |sizes|;
    assert alloc[..i] == alloc;
  }
}
