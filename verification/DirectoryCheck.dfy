/**
 The check that a stored segment must pass before it is used, and the form in
 which segments are stored.
 */
module DirectoryCheck {
  import opened Common
  import opened DirEntry
  import opened DirectoryRep
  import opened DirectoryView
  import opened DirectoryMoves
  import opened DirectorySegment

  /** The chains read so far: `seen` is exactly what is on them. */
  ghost predicate Read(cells: seq<Dir>, chains: seq<seq<nat>>, owner: seq<nat>, seen: set<nat>) {
    && |owner| == |cells|
    && (forall c | 0 <= c < |chains| :: ChainOk(cells, owner, c, chains[c]))
    && (forall x | x in seen :: x < |cells| && owner[x] < |chains| && x in chains[owner[x]])
    && (forall c, x | 0 <= c < |chains| && x in chains[c] :: x in seen)
  }

  /** A chain of which the first cells have been read. */
  ghost predicate Partly(cells: seq<Dir>, b: nat, cur: seq<nat>) {
    && NoDup(cur)
    && forall i | 0 <= i < |cur| ::
         && cur[i] < |cells| && cells[cur[i]].Used()
         && (if i == 0 then cur[i] == 4 * b else cur[i] % 4 != 0)
         && (i + 1 < |cur| ==> cells[cur[i]].next == cur[i + 1])
  }

  /** Reading goes along a chain that is known to be there. */
  ghost predicate Along(w: Rep, b: nat, cur: seq<nat>, i: nat) {
    b < |w.chains| && |cur| < |w.chains[b]| && cur == w.chains[b][..|cur|] && i == w.chains[b][|cur|]
  }

  ghost function Owned(owner: seq<nat>, cur: seq<nat>, b: nat): (r: seq<nat>)
    ensures |r| == |owner|
  {
    seq(|owner|, x requires 0 <= x < |owner| => if x in cur then b else owner[x])
  }

  /** In a well-formed segment the next cell of a chain passes every test. */
  lemma NextPasses(cells: seq<Dir>, chains: seq<seq<nat>>, owner: seq<nat>, seen: set<nat>, b: nat, cur: seq<nat>, i: nat, free: nat, w: Rep)
    requires Linked(cells, free, w) && Read(cells, chains, owner, seen) && b == |chains|
    requires b < |w.chains| && chains == w.chains[..b] && Along(w, b, cur, i)
    ensures i < |cells| && i !in seen && i !in cur && (i == 4 * b || i % 4 != 0) && cells[i].Used()
    ensures cells[i].next == 0 <==> cur + [i] == w.chains[b]
    ensures cells[i].next != 0 ==> Along(w, b, cur + [i], cells[i].next)
  {
    var k := |cur|;
    var chain := w.chains[b];
    assert ChainOk(cells, w.owner, b, chain) && LinkOk(cells, w.owner, b, chain, k);
    if k + 1 < |chain| { assert LinkOk(cells, w.owner, b, chain, k + 1); }
    assert chain[..k + 1] == cur + [i];
    assert i in chain;
    if i in seen {
      assert i in chains[owner[i]];
      assert chains[owner[i]] == w.chains[owner[i]];
      OnChain(cells, w.chains, w.owner, owner[i], i);
    }
    OnChain(cells, w.chains, w.owner, b, i);
    NotInPrefix(chain, k);
  }

  lemma NotInPrefix(s: seq<nat>, k: nat)
    requires NoDup(s) && k < |s|
    ensures s[k] !in s[..k]
  {
  }

  lemma ReadOn(cells: seq<Dir>, chains: seq<seq<nat>>, owner: seq<nat>, seen: set<nat>, b: nat, cur: seq<nat>)
    requires Read(cells, chains, owner, seen) && b == |chains| && 4 * b < |cells|
    requires Partly(cells, b, cur) && (forall x | x in cur :: x !in seen)
    requires if cur == [] then !cells[4 * b].Used() && cells[4 * b].next == 0 else cells[cur[|cur| - 1]].next == 0
    ensures Read(cells, chains + [cur], Owned(owner, cur, b), seen + (set x | x in cur))
  {
    var owner' := Owned(owner, cur, b);
    var chains' := chains + [cur];
    forall c | 0 <= c < |chains'| ensures ChainOk(cells, owner', c, chains'[c]) {
      if c < b {
        forall x | x in chains[c] ensures x < |cells| && owner'[x] == owner[x] {
          assert x in seen;
        }
        ChainFrame(cells, cells, owner, owner', c, chains[c]);
      } else {
        forall i | 0 <= i < |cur| ensures LinkOk(cells, owner', b, cur, i) { assert cur[i] in cur; }
      }
    }
    forall x | x in seen + (set x | x in cur) ensures x < |cells| && owner'[x] < |chains'| && x in chains'[owner'[x]] {
      if x in cur { assert chains'[b] == cur; }
    }
  }

  /** Walk a chain that is not empty. */
  method WalkChain(cells: seq<Dir>, b: nat, seen: set<nat>, ghost chains: seq<seq<nat>>, ghost owner: seq<nat>, ghost free: nat, ghost w: Rep)
    returns (ok: bool, seen': set<nat>, ghost cur: seq<nat>)
    requires 4 * b < |cells| && b == |chains| && Read(cells, chains, owner, seen) && cells[4 * b].Used()
    ensures ok ==> cur != [] && Partly(cells, b, cur) && cells[cur[|cur| - 1]].next == 0
    ensures ok ==> seen' == seen + (set x | x in cur) && forall x | x in cur :: x !in seen
    ensures Follows(cells, chains, b, free, w) ==> ok && cur == w.chains[b]
  {
    ghost var good := Follows(cells, chains, b, free, w);
    cur := [];
    seen' := seen;
    var i := 4 * b;
    if good { StartsAlong(cells, b, free, w); }
    while true
      invariant Partly(cells, b, cur) && (forall x | x in cur :: x !in seen)
      invariant seen' == seen + (set x | x in cur)
      invariant if cur == [] then i == 4 * b else i != 0 && cells[cur[|cur| - 1]].next == i
      invariant good ==> Along(w, b, cur, i)
      decreases |cells| - |cur|
    {
      if good { NextPasses(cells, chains, owner, seen, b, cur, i, free, w); }
      if i >= |cells| || i in seen' || (i != 4 * b && i % 4 == 0) || !cells[i].Used() {
        return false, seen', cur;
      }
      seen' := seen' + {i};
      PartlyExtends(cells, b, cur, i);
      cur := cur + [i];
      if cells[i].next == 0 { break; }
      i := cells[i].next;
    }
    ok := true;
  }

  /** The segment is well-formed and the chains read so far are its chains. */
  ghost predicate Follows(cells: seq<Dir>, chains: seq<seq<nat>>, b: nat, free: nat, w: Rep) {
    Linked(cells, free, w) && b < |w.chains| && chains == w.chains[..b]
  }

  lemma StartsAlong(cells: seq<Dir>, b: nat, free: nat, w: Rep)
    requires Linked(cells, free, w) && b < |w.chains|
    ensures 4 * b < |cells|
    ensures cells[4 * b].Used() ==> Along(w, b, [], 4 * b)
    ensures !cells[4 * b].Used() ==> w.chains[b] == [] && cells[4 * b].next == 0
  {
    assert ChainOk(cells, w.owner, b, w.chains[b]);
    if w.chains[b] != [] { assert LinkOk(cells, w.owner, b, w.chains[b], 0); }
  }

  lemma PartlyExtends(cells: seq<Dir>, b: nat, cur: seq<nat>, i: nat)
    requires Partly(cells, b, cur) && i < |cells| && i !in cur && cells[i].Used() && (i == 4 * b || i % 4 != 0)
    requires if cur == [] then i == 4 * b else cells[cur[|cur| - 1]].next == i
    ensures Partly(cells, b, cur + [i]) && |cur| < |cells|
  {
    assert cur != [] ==> cur[0] in cur;
    var cur' := cur + [i];
    forall x | x in cur' ensures x < |cells| {
      var k :| 0 <= k < |cur'| && cur'[k] == x;
    }
    NoDupBound(cur', |cells|);
  }

  /** Read the chain of bucket `b`; it fails only on a segment that is not well-formed. */
  method CheckChain(cells: seq<Dir>, b: nat, seen: set<nat>, ghost chains: seq<seq<nat>>, ghost owner: seq<nat>, ghost free: nat, ghost w: Rep)
    returns (ok: bool, seen': set<nat>, ghost cur: seq<nat>)
    requires 4 * b < |cells| && b == |chains| && Read(cells, chains, owner, seen)
    ensures ok ==> Read(cells, chains + [cur], Owned(owner, cur, b), seen')
    ensures Follows(cells, chains, b, free, w) ==> ok && cur == w.chains[b]
  {
    if Follows(cells, chains, b, free, w) { StartsAlong(cells, b, free, w); }
    if !cells[4 * b].Used() {
      cur := [];
      if cells[4 * b].next != 0 { return false, seen, cur; }
      ReadOn(cells, chains, owner, seen, b, []);
      assert seen + (set x | x in cur) == seen;
      return true, seen, cur;
    }
    ok, seen', cur := WalkChain(cells, b, seen, chains, owner, free, w);
    if ok { ReadOn(cells, chains, owner, seen, b, cur); }
  }

  /** The free list as far as it has been read, and the cell that comes next. */
  ghost predicate FreeRead(cells: seq<Dir>, start: nat, list: seq<nat>, next: nat) {
    && NoDup(list)
    && (forall k | 0 <= k < |list| :: FreePartly(cells, list, k))
    && if list == [] then next == start else First(list) == start && Last(list) < |cells| && cells[Last(list)].next == next
  }

  /** Reading goes along a free list that is known to be there. */
  ghost predicate AlongFree(w: Rep, list: seq<nat>, next: nat) {
    && |list| <= |w.free| && list == w.free[..|list|]
    && if |list| < |w.free| then next == w.free[|list|] != 0 else next == 0
  }

  /** Read the free list behind the chains. */
  method CheckFree(cells: seq<Dir>, start: nat, seen: set<nat>, ghost chains: seq<seq<nat>>, ghost owner: seq<nat>, ghost w: Rep)
    returns (ok: bool, seen': set<nat>, ghost list: seq<nat>)
    requires Read(cells, chains, owner, seen)
    ensures ok ==> FreeLinked(cells, list) && First(list) == start && seen' == seen + (set x | x in list)
    ensures Linked(cells, start, w) && chains == w.chains ==> ok && list == w.free
  {
    ghost var good := Linked(cells, start, w) && chains == w.chains;
    var free: nat, prev: nat := start, 0;
    list := [];
    seen' := seen;
    if good { FreeStartsAlong(cells, start, w); }
    while free != 0
      invariant FreeRead(cells, start, list, free) && prev == Last(list)
      invariant seen' == seen + (set x | x in list)
      invariant good ==> AlongFree(w, list, free)
      decreases |cells| - |list|
    {
      if good { FreePasses(cells, chains, owner, seen, list, start, w); }
      if free >= |cells| || free in seen' || free % 4 == 0 || cells[free].Used() || cells[free].link != prev {
        return false, seen', list;
      }
      seen' := seen' + {free};
      FreeExtends(cells, start, list, free);
      list := list + [free];
      prev := free;
      free := cells[free].next;
    }
    forall k | 0 <= k < |list| ensures FreeLinkOk(cells, list, k) { assert FreePartly(cells, list, k); }
    ok := true;
  }

  lemma FreeStartsAlong(cells: seq<Dir>, start: nat, w: Rep)
    requires Linked(cells, start, w)
    ensures AlongFree(w, [], start)
  {
    if w.free != [] { assert FreeLinkOk(cells, w.free, 0); }
  }

  /** A cell of the free list, of whose successor nothing is known yet if it is the last. */
  ghost predicate FreePartly(cells: seq<Dir>, list: seq<nat>, k: nat)
    requires k < |list|
  {
    && 0 < list[k] < |cells| && list[k] % 4 != 0 && !cells[list[k]].Used()
    && cells[list[k]].link == Before(list, k)
    && (k + 1 < |list| ==> cells[list[k]].next == list[k + 1])
  }

  lemma FreeExtends(cells: seq<Dir>, start: nat, list: seq<nat>, x: nat)
    requires FreeRead(cells, start, list, x)
    requires 0 < x < |cells| && x % 4 != 0 && !cells[x].Used() && cells[x].link == Last(list) && x !in list
    ensures FreeRead(cells, start, list + [x], cells[x].next) && |list| < |cells|
  {
    var list' := list + [x];
    forall k | 0 <= k < |list'| ensures FreePartly(cells, list', k) {
      if k < |list| { assert FreePartly(cells, list, k); }
    }
    forall y | y in list' ensures y < |cells| {
      var k :| 0 <= k < |list'| && list'[k] == y;
      assert FreePartly(cells, list', k);
    }
    NoDupBound(list', |cells|);
  }

  lemma FreePasses(cells: seq<Dir>, chains: seq<seq<nat>>, owner: seq<nat>, seen: set<nat>, list: seq<nat>, start: nat, w: Rep)
    requires Linked(cells, start, w) && Read(cells, chains, owner, seen) && chains == w.chains
    requires |list| < |w.free| && list == w.free[..|list|]
    ensures
      var x := w.free[|list|];
      && x < |cells| && x !in seen && x !in list && x % 4 != 0 && !cells[x].Used() && cells[x].link == Last(list)
      && AlongFree(w, list + [x], cells[x].next)
  {
    var k := |list|;
    var x := w.free[k];
    assert FreeLinkOk(cells, w.free, k);
    if k + 1 < |w.free| { assert FreeLinkOk(cells, w.free, k + 1); }
    if x in seen {
      assert x in chains[owner[x]];
      OnChain(cells, w.chains, w.owner, owner[x], x);
    }
    NotInPrefix(w.free, k);
  }

  /** Everything that must be reachable has been reached. */
  method CheckReached(cells: seq<Dir>, seen: set<nat>) returns (ok: bool)
    ensures ok <==> forall x | 0 <= x < |cells| && (x % 4 != 0 || cells[x].Used()) :: x in seen
  {
    for i := 0 to |cells|
      invariant forall x | 0 <= x < i && (x % 4 != 0 || cells[x].Used()) :: x in seen
    {
      if i !in seen && (i % 4 != 0 || cells[i].Used()) { return false; }
    }
    ok := true;
  }

  /** A segment is well-formed if its cells can be read as chains and a free list. */
  ghost predicate WellFormedSegment(cells: seq<Dir>, free: nat) {
    exists rep :: Linked(cells, free, rep)
  }

  /** The check accepts exactly the well-formed segments. */
  method ValidateDirectory(cells: seq<Dir>, free: nat) returns (ok: bool)
    requires 0 < |cells| <= 4 * MAX_BUCKETS && |cells| % 4 == 0
    ensures ok <==> WellFormedSegment(cells, free)
  {
    ghost var good := WellFormedSegment(cells, free);
    ghost var w := if good then (var rep :| Linked(cells, free, rep); rep) else Rep([], [], []);
    ghost var chains: seq<seq<nat>>, owner: seq<nat> := [], seq(|cells|, _ => 0);
    var seen: set<nat> := {};
    var n := |cells| / 4;
    for b := 0 to n
      invariant |chains| == b && Read(cells, chains, owner, seen)
      invariant good ==> |w.chains| == n && chains == w.chains[..b]
    {
      var fine: bool;
      ghost var cur: seq<nat>;
      fine, seen, cur := CheckChain(cells, b, seen, chains, owner, free, w);
      if !fine { return false; }
      owner := Owned(owner, cur, b);
      chains := chains + [cur];
    }
    assert good ==> chains == w.chains;
    var fine: bool;
    var reached: set<nat>;
    ghost var list: seq<nat>;
    fine, reached, list := CheckFree(cells, free, seen, chains, owner, w);
    if !fine { return false; }
    ok := CheckReached(cells, reached);
    if ok {
      ReachedIsLinked(cells, chains, owner, seen, list, free);
    } else if good {
      LinkedIsReached(cells, chains, owner, seen, w, free);
    }
  }

  lemma ReachedIsLinked(cells: seq<Dir>, chains: seq<seq<nat>>, owner: seq<nat>, seen: set<nat>, list: seq<nat>, free: nat)
    requires 0 < |cells| <= 4 * MAX_BUCKETS && |cells| == 4 * |chains| && Read(cells, chains, owner, seen)
    requires FreeLinked(cells, list) && First(list) == free
    requires forall x | 0 <= x < |cells| && (x % 4 != 0 || cells[x].Used()) :: x in seen + (set x | x in list)
    ensures WellFormedSegment(cells, free)
  {
    forall x | x in list ensures x < |cells| && !cells[x].Used() {
      var k :| 0 <= k < |list| && list[k] == x;
      assert FreeLinkOk(cells, list, k);
    }
    forall x | x in seen ensures x < |cells| && cells[x].Used() {
      var c := owner[x];
      var k :| 0 <= k < |chains[c]| && chains[c][k] == x;
      assert ChainOk(cells, owner, c, chains[c]) && LinkOk(cells, owner, c, chains[c], k);
    }
    assert Linked(cells, free, Rep(chains, owner, list));
  }

  lemma LinkedIsReached(cells: seq<Dir>, chains: seq<seq<nat>>, owner: seq<nat>, seen: set<nat>, w: Rep, free: nat)
    requires Linked(cells, free, w) && chains == w.chains && Read(cells, chains, owner, seen)
    ensures forall x | 0 <= x < |cells| && (x % 4 != 0 || cells[x].Used()) :: x in seen + (set x | x in w.free)
  {
    forall x | 0 <= x < |cells| && (x % 4 != 0 || cells[x].Used()) ensures x in seen + (set x | x in w.free) {
      if cells[x].Used() { assert x in chains[w.owner[x]]; }
    }
  }

  // ------------------------------------------------------------ storage

  /** The stored form of a segment: its cells, then the start of its free list. */
  function Marshal(cells: seq<Dir>, free: Word): (data: seq<Octet>)
    ensures |data| == 10 * |cells| + 2
  {
    MarshalCells(cells) + WordBytes(free)
  }

  function MarshalCells(cells: seq<Dir>): (data: seq<Octet>)
    ensures |data| == 10 * |cells|
  {
    if cells == [] then [] else Bytes(Pack(cells[0])) + MarshalCells(cells[1..])
  }

  /** Read `n` cells from the front of the data. */
  function UnmarshalCells(data: seq<Octet>, n: nat): (cells: seq<Dir>)
    requires |data| >= 10 * n
    ensures |cells| == n
  {
    if n == 0 then [] else [Unpack(FromBytes(data[..10]))] + UnmarshalCells(data[10..], n - 1)
  }

  lemma {:induction false} CellsReadBack(cells: seq<Dir>, rest: seq<Octet>)
    ensures UnmarshalCells(MarshalCells(cells) + rest, |cells|) == cells
  {
    if cells != [] {
      var first, more := Bytes(Pack(cells[0])), MarshalCells(cells[1..]);
      var data := MarshalCells(cells) + rest;
      FrontOf(first, more, rest);
      CellReadsBack(cells[0]);
      CellsReadBack(cells[1..], rest);
    }
  }

  lemma CellReadsBack(d: Dir)
    ensures Unpack(FromBytes(Bytes(Pack(d)))) == d
  {
    BytesReadBack(Pack(d));
    PackUnpack(d);
  }

  lemma FrontOf(first: seq<Octet>, more: seq<Octet>, rest: seq<Octet>)
    requires |first| == 10
    ensures (first + more + rest)[..10] == first && (first + more + rest)[10..] == more + rest
  {
  }

  lemma UnmarshalStep(data: seq<Octet>, n: nat, j: nat)
    requires j < n && |data| >= 10 * n
    ensures UnmarshalCells(data[10 * j..], n - j)
            == [Unpack(FromBytes(data[10 * j..10 * j + 10]))] + UnmarshalCells(data[10 * (j + 1)..], n - (j + 1))
  {
    assert data[10 * j..][10..] == data[10 * (j + 1)..];
    assert data[10 * j..][..10] == data[10 * j..10 * j + 10];
  }

  /** The segment of `n` buckets that the stored form stands for, or nothing if it must not be used. */
  ghost function Restored(data: seq<Octet>, n: nat): Option<(seq<Dir>, Word)> {
    if |data| != 40 * n + 2 then None
    else
      var cells, free := UnmarshalCells(data, 4 * n), WordAt(data, 40 * n);
      if WellFormedSegment(cells, free) then Some((cells, free)) else None
  }

  method Unmarshal(data: seq<Octet>, n: nat) returns (r: Option<(seq<Dir>, Word)>)
    requires 0 < n <= MAX_BUCKETS
    ensures r == Restored(data, n)
  {
    if |data| != 40 * n + 2 { return None; }
    var cells := ReadCells(data, 4 * n);
    var free := WordAt(data, 40 * n);
    var ok := ValidateDirectory(cells, free);
    if !ok { return None; }
    return Some((cells, free));
  }

  /** Read the cells one by one. */
  method ReadCells(data: seq<Octet>, n: nat) returns (cells: seq<Dir>)
    requires |data| >= 10 * n
    ensures cells == UnmarshalCells(data, n)
  {
    cells := [];
    assert data[0..] == data;
    for j := 0 to n
      invariant |cells| == j && cells + UnmarshalCells(data[10 * j..], n - j) == UnmarshalCells(data, n)
    {
      UnmarshalStep(data, n, j);
      cells := cells + [Unpack(FromBytes(data[10 * j..10 * j + 10]))];
    }
    assert UnmarshalCells(data[10 * n..], 0) == [];
  }

  /** Every segment that the directory's operations can reach is restored from its stored form. */
  lemma StoredSegmentReadsBack(s: State, free: Word)
    requires Ok(s) && FreeOk(s.cells, s.rep.free) && free == First(s.rep.free)
    ensures Restored(Marshal(s.cells, free), |s.rep.chains|) == Some((s.cells, free))
  {
    assert Linked(s.cells, free, s.rep);
    CellsReadBack(s.cells, WordBytes(free));
  }

  lemma ValidSegmentReadsBack(segment: Segment)
    requires segment.Valid()
    ensures Restored(Marshal(segment.cells[..], segment.freeStart), segment.Buckets())
            == Some((segment.cells[..], segment.freeStart))
  {
    StoredSegmentReadsBack(segment.Now(), segment.freeStart);
  }
}
