/**
 What the cells of one directory segment mean.

 A segment is a flat array of entries, four to a bucket. The first of the four
 is the head of the bucket's chain; the others are on some chain or on the free
 list. The chains and the free list are made explicit here as sequences of cell
 indices, and every way of relinking the cells is shown to keep them.
 */
module DirectoryRep {
  import opened DirEntry

  const MAX_BUCKETS: nat := 16384

  /** `owner` tells for a cell that is in use which bucket's chain it is on. */
  datatype Rep = Rep(chains: seq<seq<nat>>, owner: seq<nat>, free: seq<nat>)

  function After(s: seq<nat>, i: nat): nat
    requires i < |s|
  {
    if i + 1 < |s| then s[i + 1] else 0
  }

  function Before(s: seq<nat>, i: nat): nat
    requires i < |s|
  {
    if i > 0 then s[i - 1] else 0
  }

  function Without<T>(s: seq<T>, i: nat): (r: seq<T>)
    requires i < |s|
    ensures |r| == |s| - 1
    ensures forall k | 0 <= k < |r| :: r[k] == if k < i then s[k] else s[k + 1]
  {
    s[..i] + s[i + 1..]
  }

  predicate NoDup(s: seq<nat>) {
    forall i, j | 0 <= i < j < |s| :: s[i] != s[j]
  }

  predicate LinkOk(cells: seq<Dir>, owner: seq<nat>, b: nat, chain: seq<nat>, i: nat)
    requires i < |chain| && |owner| == |cells|
  {
    var x := chain[i];
    && x < |cells|
    && cells[x].Used()
    && owner[x] == b
    && (if i == 0 then x == 4 * b else x % 4 != 0)
    && cells[x].next == After(chain, i)
  }

  predicate ChainOk(cells: seq<Dir>, owner: seq<nat>, b: nat, chain: seq<nat>)
    requires |owner| == |cells|
  {
    && 4 * b < |cells|
    && NoDup(chain)
    && (chain == [] ==> !cells[4 * b].Used() && cells[4 * b].next == 0)
    && forall i | 0 <= i < |chain| :: LinkOk(cells, owner, b, chain, i)
  }

  predicate Covered(cells: seq<Dir>, chains: seq<seq<nat>>, owner: seq<nat>)
    requires |owner| == |cells|
  {
    forall x | 0 <= x < |cells| && cells[x].Used() :: owner[x] < |chains| && x in chains[owner[x]]
  }

  /** Every cell in use is on exactly one chain, in one place, and every chain ends. */
  predicate ChainsOk(cells: seq<Dir>, chains: seq<seq<nat>>, owner: seq<nat>) {
    && 0 < |chains| <= MAX_BUCKETS
    && |cells| == 4 * |chains| == |owner|
    && (forall b | 0 <= b < |chains| :: ChainOk(cells, owner, b, chains[b]))
    && Covered(cells, chains, owner)
  }

  predicate FreeLinkOk(cells: seq<Dir>, free: seq<nat>, i: nat)
    requires i < |free|
  {
    var x := free[i];
    && 0 < x < |cells|
    && x % 4 != 0
    && !cells[x].Used()
    && cells[x].next == After(free, i)
    && cells[x].link == Before(free, i)
  }

  predicate FreeLinked(cells: seq<Dir>, free: seq<nat>) {
    && NoDup(free)
    && forall i | 0 <= i < |free| :: FreeLinkOk(cells, free, i)
  }

  /** The free list holds every unused cell that is no head, `except` possibly one. */
  predicate FreeCovers(cells: seq<Dir>, free: seq<nat>, except: nat) {
    forall x | 0 <= x < |cells| && x % 4 != 0 && !cells[x].Used() && x != except :: x in free
  }

  predicate FreeOk(cells: seq<Dir>, free: seq<nat>) {
    FreeLinked(cells, free) && FreeCovers(cells, free, 0)
  }

  function First(free: seq<nat>): nat {
    if free == [] then 0 else free[0]
  }

  predicate Linked(cells: seq<Dir>, freeStart: nat, rep: Rep) {
    && ChainsOk(cells, rep.chains, rep.owner)
    && FreeOk(cells, rep.free)
    && freeStart == First(rep.free)
  }

  /** Two segments whose cells agree on what makes up the chains. */
  predicate SameLinks(cells: seq<Dir>, cells': seq<Dir>, x: nat)
    requires x < |cells| && x < |cells'|
  {
    cells[x].Used() == cells'[x].Used() && cells[x].next == cells'[x].next
  }

  /** A chain does not depend on cells that are not on it. */
  lemma ChainFrame(cells: seq<Dir>, cells': seq<Dir>, owner: seq<nat>, owner': seq<nat>, b: nat, chain: seq<nat>)
    requires |owner| == |cells| == |cells'| == |owner'|
    requires ChainOk(cells, owner, b, chain)
    requires forall x | x in chain :: x < |cells| && SameLinks(cells, cells', x) && owner'[x] == owner[x]
    requires chain == [] ==> SameLinks(cells, cells', 4 * b)
    ensures ChainOk(cells', owner', b, chain)
  {
    forall i | 0 <= i < |chain| ensures LinkOk(cells', owner', b, chain, i) {
      assert LinkOk(cells, owner, b, chain, i);
      assert chain[i] in chain;
    }
  }

  /** A cell in use is owned by the bucket on whose chain it is. */
  lemma OnChain(cells: seq<Dir>, chains: seq<seq<nat>>, owner: seq<nat>, b: nat, x: nat)
    requires ChainsOk(cells, chains, owner) && b < |chains| && x in chains[b]
    ensures x < |cells| && cells[x].Used() && owner[x] == b && (x % 4 == 0 ==> x == 4 * b)
  {
    var i :| 0 <= i < |chains[b]| && chains[b][i] == x;
    assert LinkOk(cells, owner, b, chains[b], i);
  }

  /** Storing another entry in a cell of a chain, with the old link. */
  lemma ReplaceEntry(cells: seq<Dir>, chains: seq<seq<nat>>, owner: seq<nat>, x: nat, d: Dir)
    requires ChainsOk(cells, chains, owner) && x < |cells|
    requires d.Used() == cells[x].Used() && d.next == cells[x].next
    ensures ChainsOk(cells[x := d], chains, owner)
  {
    var cells' := cells[x := d];
    forall b | 0 <= b < |chains| ensures ChainOk(cells', owner, b, chains[b]) {
      forall y | y in chains[b] ensures y < |cells| && SameLinks(cells, cells', y) { OnChain(cells, chains, owner, b, y); }
      ChainFrame(cells, cells', owner, owner, b, chains[b]);
    }
  }

  lemma ReplaceUsedKeepsFree(cells: seq<Dir>, free: seq<nat>, except: nat, x: nat, d: Dir)
    requires FreeLinked(cells, free) && FreeCovers(cells, free, except) && x < |cells|
    requires d.Used() && (cells[x].Used() || x % 4 == 0)
    ensures FreeLinked(cells[x := d], free) && FreeCovers(cells[x := d], free, except)
  {
    var cells' := cells[x := d];
    forall i | 0 <= i < |free| ensures FreeLinkOk(cells', free, i) { assert FreeLinkOk(cells, free, i); }
  }

  /** What happens to head cells does not concern the free list. */
  lemma HeadKeepsFree(cells: seq<Dir>, free: seq<nat>, except: nat, x: nat, d: Dir)
    requires FreeLinked(cells, free) && FreeCovers(cells, free, except) && x < |cells| && x % 4 == 0
    ensures FreeLinked(cells[x := d], free) && FreeCovers(cells[x := d], free, except)
  {
    var cells' := cells[x := d];
    forall i | 0 <= i < |free| ensures FreeLinkOk(cells', free, i) { assert FreeLinkOk(cells, free, i); }
  }

  /** The first entry of a bucket. */
  lemma FillHead(cells: seq<Dir>, chains: seq<seq<nat>>, owner: seq<nat>, b: nat, d: Dir)
    requires ChainsOk(cells, chains, owner) && b < |chains| && chains[b] == []
    requires d.Used() && d.next == 0
    ensures ChainsOk(cells[4 * b := d], chains[b := [4 * b]], owner[4 * b := b])
  {
    var cells', chains', owner' := cells[4 * b := d], chains[b := [4 * b]], owner[4 * b := b];
    assert ChainOk(cells, owner, b, chains[b]);
    forall c | 0 <= c < |chains'| ensures ChainOk(cells', owner', c, chains'[c]) {
      if c == b {
        assert LinkOk(cells', owner', b, [4 * b], 0);
      } else {
        forall y | y in chains[c] ensures y < |cells| && y != 4 * b { OnChain(cells, chains, owner, c, y); }
        ChainFrame(cells, cells', owner, owner', c, chains[c]);
      }
    }
    forall x | 0 <= x < |cells'| && cells'[x].Used() ensures owner'[x] < |chains'| && x in chains'[owner'[x]] {
      if x != 4 * b { assert cells[x].Used(); }
    }
  }

  /** Another entry at the end of a chain, in a cell that was not in use. */
  lemma AppendEntry(cells: seq<Dir>, chains: seq<seq<nat>>, owner: seq<nat>, b: nat, x: nat, d: Dir)
    requires ChainsOk(cells, chains, owner) && b < |chains| && chains[b] != []
    requires 0 < x < |cells| && x % 4 != 0 && !cells[x].Used() && x < 0x1_0000
    requires d.Used() && d.next == 0
    ensures
      var last := chains[b][|chains[b]| - 1];
      && last < |cells| && last != x
      && ChainsOk(cells[x := d][last := cells[last].SetNext(x)], chains[b := chains[b] + [x]], owner[x := b])
  {
    var chain := chains[b];
    var last := chain[|chain| - 1];
    assert ChainOk(cells, owner, b, chain) && LinkOk(cells, owner, b, chain, |chain| - 1);
    var cells', chains', owner' := cells[x := d][last := cells[last].SetNext(x)], chains[b := chain + [x]], owner[x := b];
    forall c | 0 <= c < |chains'| ensures ChainOk(cells', owner', c, chains'[c]) {
      if c == b {
        forall i | 0 <= i < |chain| + 1 ensures LinkOk(cells', owner', b, chain + [x], i) {
          if i < |chain| { assert LinkOk(cells, owner, b, chain, i); }
        }
        assert x !in chain by { if x in chain { OnChain(cells, chains, owner, b, x); } }
      } else {
        forall y | y in chains[c] ensures y < |cells| && y != x && y != last { OnChain(cells, chains, owner, c, y); }
        assert ChainOk(cells, owner, c, chains[c]);
        ChainFrame(cells, cells', owner, owner', c, chains[c]);
      }
    }
    forall y | 0 <= y < |cells'| && cells'[y].Used() ensures owner'[y] < |chains'| && y in chains'[owner'[y]] {
      if y != x { assert cells[y].Used(); }
    }
  }

  /** Take the entry at place `i > 0` out of its chain. */
  lemma RemoveTail(cells: seq<Dir>, chains: seq<seq<nat>>, owner: seq<nat>, b: nat, i: nat)
    requires ChainsOk(cells, chains, owner) && b < |chains| && 0 < i < |chains[b]|
    ensures
      var p, x := chains[b][i - 1], chains[b][i];
      && p < |cells| && x < |cells| && p != x && x % 4 != 0
      && ChainsOk(cells[p := cells[p].SetNext(cells[x].next)][x := EMPTY], chains[b := Without(chains[b], i)], owner)
  {
    var chain := chains[b];
    var p, x := chain[i - 1], chain[i];
    assert ChainOk(cells, owner, b, chain) && LinkOk(cells, owner, b, chain, i - 1) && LinkOk(cells, owner, b, chain, i);
    var chain' := Without(chain, i);
    var cells', chains' := cells[p := cells[p].SetNext(cells[x].next)][x := EMPTY], chains[b := chain'];
    forall c | 0 <= c < |chains'| ensures ChainOk(cells', owner, c, chains'[c]) {
      if c == b {
        forall k | 0 <= k < |chain'| ensures LinkOk(cells', owner, b, chain', k) {
          assert LinkOk(cells, owner, b, chain, if k < i then k else k + 1);
        }
      } else {
        OtherChainKept(cells, cells', chains, owner, b, c);
      }
    }
    forall y | 0 <= y < |cells'| && cells'[y].Used() ensures owner[y] < |chains'| && y in chains'[owner[y]] {
      assert cells[y].Used();
      if owner[y] == b { StillIn(chain, i, y); }
    }
  }

  /** Cells of one bucket's chain may change without affecting another bucket. */
  lemma OtherChainKept(cells: seq<Dir>, cells': seq<Dir>, chains: seq<seq<nat>>, owner: seq<nat>, b: nat, c: nat)
    requires ChainsOk(cells, chains, owner) && b < |chains| && c < |chains| && b != c && |cells'| == |cells|
    requires forall y | 0 <= y < |cells| && y !in chains[b] :: cells'[y] == cells[y]
    ensures ChainOk(cells', owner, c, chains[c])
  {
    forall y | y in chains[c] ensures y < |cells| && y !in chains[b] {
      OnChain(cells, chains, owner, c, y);
      if y in chains[b] { OnChain(cells, chains, owner, b, y); }
    }
    assert ChainOk(cells, owner, c, chains[c]);
    if chains[c] == [] && 4 * c in chains[b] { OnChain(cells, chains, owner, b, 4 * c); }
    ChainFrame(cells, cells', owner, owner, c, chains[c]);
  }

  lemma StillIn(s: seq<nat>, i: nat, y: nat)
    requires i < |s| && y in s && y != s[i]
    ensures y in Without(s, i)
  {
    var k :| 0 <= k < |s| && s[k] == y;
    assert Without(s, i)[if k < i then k else k - 1] == y;
  }

  /** Take the first entry out of a chain: the second one moves into the head cell. */
  lemma RemoveHead(cells: seq<Dir>, chains: seq<seq<nat>>, owner: seq<nat>, b: nat)
    requires ChainsOk(cells, chains, owner) && b < |chains| && 1 < |chains[b]|
    ensures
      var h, x := chains[b][0], chains[b][1];
      && h == 4 * b < |cells| && x < |cells| && x != h && x % 4 != 0 && cells[h].next == x
      && ChainsOk(cells[h := cells[x]][x := EMPTY], chains[b := Without(chains[b], 1)], owner)
  {
    var chain := chains[b];
    var h, x := chain[0], chain[1];
    assert ChainOk(cells, owner, b, chain) && LinkOk(cells, owner, b, chain, 0) && LinkOk(cells, owner, b, chain, 1);
    var chain' := Without(chain, 1);
    var cells', chains' := cells[h := cells[x]][x := EMPTY], chains[b := chain'];
    forall c | 0 <= c < |chains'| ensures ChainOk(cells', owner, c, chains'[c]) {
      if c == b {
        forall k | 0 <= k < |chain'| ensures LinkOk(cells', owner, b, chain', k) {
          assert LinkOk(cells, owner, b, chain, if k < 1 then k else k + 1);
        }
      } else {
        OtherChainKept(cells, cells', chains, owner, b, c);
      }
    }
    forall y | 0 <= y < |cells'| && cells'[y].Used() ensures owner[y] < |chains'| && y in chains'[owner[y]] {
      assert cells[y].Used();
      if owner[y] == b { StillIn(chain, 1, y); }
    }
  }

  /** Clear all cells of a chain. */
  lemma ClearChain(cells: seq<Dir>, cells': seq<Dir>, chains: seq<seq<nat>>, owner: seq<nat>, b: nat)
    requires ChainsOk(cells, chains, owner) && b < |chains| && |cells'| == |cells|
    requires forall y | 0 <= y < |cells| && y !in chains[b] && y != 4 * b :: cells'[y] == cells[y]
    requires forall y | y in chains[b] && y < |cells| :: cells'[y] == EMPTY
    requires cells'[4 * b] == EMPTY
    ensures ChainsOk(cells', chains[b := []], owner)
  {
    var chains' := chains[b := []];
    assert ChainOk(cells, owner, b, chains[b]);
    forall c | 0 <= c < |chains'| ensures ChainOk(cells', owner, c, chains'[c]) {
      if c != b {
        forall y | y in chains[c] ensures y < |cells| && y !in chains[b] && y != 4 * b {
          OnChain(cells, chains, owner, c, y);
          if y in chains[b] { OnChain(cells, chains, owner, b, y); }
        }
        assert ChainOk(cells, owner, c, chains[c]);
        if chains[c] == [] && 4 * c in chains[b] { OnChain(cells, chains, owner, b, 4 * c); }
        ChainFrame(cells, cells', owner, owner, c, chains[c]);
      }
    }
    forall y | 0 <= y < |cells'| && cells'[y].Used() ensures owner[y] < |chains'| && y in chains'[owner[y]] {
      assert y !in chains[b];
      assert cells[y].Used();
    }
  }

  // ------------------------------------------------------- the free list

  /** The cells after taking place `i` out of the free list, as `freeChainDelete` does. */
  function Unlinked(cells: seq<Dir>, free: seq<nat>, i: nat): seq<Dir>
    requires i < |free| && FreeLinked(cells, free)
  {
    assert FreeLinkOk(cells, free, i);
    var cells1 := if i > 0 then
                    assert FreeLinkOk(cells, free, i - 1);
                    cells[free[i - 1] := cells[free[i - 1]].SetNext(cells[free[i]].next)]
                  else cells;
    if i + 1 < |free| then
      assert FreeLinkOk(cells, free, i + 1);
      cells1[free[i + 1] := cells1[free[i + 1]].SetPrev(cells[free[i]].link)]
    else cells1
  }

  lemma UnlinkFree(cells: seq<Dir>, free: seq<nat>, i: nat)
    requires i < |free| && FreeOk(cells, free)
    ensures |Unlinked(cells, free, i)| == |cells|
    ensures FreeLinked(Unlinked(cells, free, i), Without(free, i))
    ensures FreeCovers(Unlinked(cells, free, i), Without(free, i), free[i])
    ensures forall x | 0 <= x < |cells| && x !in Without(free, i) :: Unlinked(cells, free, i)[x] == cells[x]
    ensures forall x | 0 <= x < |cells| :: Unlinked(cells, free, i)[x].Used() == cells[x].Used()
  {
    var cells', free' := Unlinked(cells, free, i), Without(free, i);
    assert FreeLinkOk(cells, free, i);
    if i > 0 {
      assert FreeLinkOk(cells, free, i - 1);
      assert free'[i - 1] == free[i - 1];
    }
    if i + 1 < |free| {
      assert FreeLinkOk(cells, free, i + 1);
      assert free'[i] == free[i + 1];
    }
    forall k | 0 <= k < |free'| ensures FreeLinkOk(cells', free', k) {
      assert FreeLinkOk(cells, free, if k < i then k else k + 1);
    }
    forall x | 0 <= x < |cells'| && x % 4 != 0 && !cells'[x].Used() && x != free[i] ensures x in free' {
      assert !cells[x].Used();
      StillIn(free, i, x);
    }
  }

  /** Changes to cells that are not in use and no heads do not touch the chains. */
  lemma FreeChangesKeepChains(cells: seq<Dir>, cells': seq<Dir>, chains: seq<seq<nat>>, owner: seq<nat>)
    requires ChainsOk(cells, chains, owner) && |cells'| == |cells|
    requires forall x | 0 <= x < |cells| && (cells[x].Used() || x % 4 == 0) :: SameLinks(cells, cells', x)
    requires forall x | 0 <= x < |cells| :: cells'[x].Used() == cells[x].Used()
    ensures ChainsOk(cells', chains, owner)
  {
    forall b | 0 <= b < |chains| ensures ChainOk(cells', owner, b, chains[b]) {
      forall y | y in chains[b] ensures y < |cells| && SameLinks(cells, cells', y) { OnChain(cells, chains, owner, b, y); }
      assert ChainOk(cells, owner, b, chains[b]);
      ChainFrame(cells, cells', owner, owner, b, chains[b]);
    }
  }

  /**
   The cells after `freeChainSet`: the old first cell, or cell 0 when there is
   none, gets a back link to `x`, whatever it holds.
   */
  function Pushed(cells: seq<Dir>, first: Word, x: Word): seq<Dir>
    requires first < |cells| && x < |cells|
  {
    var cells1 := cells[first := cells[first].SetPrev(x)];
    cells1[x := cells1[x].SetNext(first)]
  }

  lemma PushFree(cells: seq<Dir>, free: seq<nat>, x: Word)
    requires FreeLinked(cells, free) && FreeCovers(cells, free, x)
    requires 0 < x < |cells| && x % 4 != 0 && cells[x] == EMPTY && x !in free
    requires First(free) < 0x1_0000 && First(free) < |cells|
    ensures FreeOk(Pushed(cells, First(free), x), [x] + free)
    ensures forall y | 0 <= y < |cells| :: SameUse(cells, Pushed(cells, First(free), x), y)
  {
    var first := First(free);
    var cells', free' := Pushed(cells, first, x), [x] + free;
    assert free != [] ==> FreeLinkOk(cells, free, 0);
    forall k | 0 <= k < |free'| ensures FreeLinkOk(cells', free', k) {
      if k > 0 {
        assert FreeLinkOk(cells, free, k - 1);
        assert free'[k] == free[k - 1];
        assert k > 1 ==> free[k - 1] != free[0];
      }
    }
    forall y | 0 <= y < |cells'| && y % 4 != 0 && !cells'[y].Used() ensures y in free' {
      if y != x { assert y in free; }
    }
  }

  function Last(free: seq<nat>): nat {
    if free == [] then 0 else free[|free| - 1]
  }

  /** The cells after putting `x` at the end of a free list under construction. */
  function Relinked(cells: seq<Dir>, free: seq<nat>, x: nat): seq<Dir>
    requires x < |cells| && x < 0x1_0000 && Last(free) < 0x1_0000 && Last(free) < |cells|
  {
    var cells1 := cells[x := EMPTY.SetPrev(Last(free))];
    if free == [] then cells1 else cells1[Last(free) := cells1[Last(free)].SetNext(x)]
  }

  lemma LastIsCell(cells: seq<Dir>, free: seq<nat>)
    requires FreeLinked(cells, free) && 0 < |cells| <= 0x1_0000
    ensures Last(free) < 0x1_0000 && Last(free) < |cells|
    ensures free != [] ==> Last(free) > 0 && Last(free) % 4 != 0 && !cells[Last(free)].Used()
  {
    if free != [] { assert FreeLinkOk(cells, free, |free| - 1); }
  }

  lemma RelinkFree(cells: seq<Dir>, free: seq<nat>, x: nat)
    requires FreeLinked(cells, free) && |cells| <= 0x1_0000
    requires 0 < x < |cells| && x % 4 != 0 && !cells[x].Used() && forall y | y in free :: y < x
    ensures Last(free) < 0x1_0000 && Last(free) < |cells|
    ensures FreeLinked(Relinked(cells, free, x), free + [x])
  {
    LastIsCell(cells, free);
    var cells', free' := Relinked(cells, free, x), free + [x];
    assert free != [] ==> Last(free) in free;
    assert cells'[x] == EMPTY.SetPrev(Last(free));
    forall i | 0 <= i < |free'| ensures FreeLinkOk(cells', free', i) {
      if i < |free| {
        assert free'[i] == free[i] && Before(free', i) == Before(free, i);
        assert FreeLinkOk(cells, free, i);
        assert free[i] in free;
        if i + 1 < |free| { assert free[i] != free[|free| - 1]; }
      }
    }
    forall i, j | 0 <= i < j < |free'| ensures free'[i] != free'[j] {
      assert free'[i] == free[i] && free[i] in free;
      if j < |free| { assert free'[j] == free[j]; }
    }
  }

  /** A free list under construction: all cells below `upTo` have been looked at. */
  predicate Rebuilding(was: seq<Dir>, cells: seq<Dir>, free: seq<nat>, upTo: nat) {
    && |cells| == |was| <= 0x1_0000
    && FreeLinked(cells, free)
    && (forall y | y in free :: y < upTo)
    && (forall y | 0 <= y < upTo && y < |cells| && y % 4 != 0 && !cells[y].Used() :: y in free)
    && (forall y | 0 <= y < |cells| && (was[y].Used() || y % 4 == 0) :: cells[y] == was[y])
    && (forall y | 0 <= y < |cells| :: cells[y].Used() == was[y].Used())
  }

  lemma RebuildStep(was: seq<Dir>, cells: seq<Dir>, free: seq<nat>, x: nat)
    requires Rebuilding(was, cells, free, x) && 0 < x < |cells| && x % 4 != 0 && !cells[x].Used()
    ensures Last(free) < 0x1_0000 && Last(free) < |cells|
    ensures free != [] ==> Last(free) != 0
    ensures Rebuilding(was, Relinked(cells, free, x), free + [x], x + 1)
  {
    LastIsCell(cells, free);
    RelinkFree(cells, free, x);
  }

  predicate SameUse(cells: seq<Dir>, cells': seq<Dir>, y: nat)
    requires |cells| == |cells'| && y < |cells|
  {
    && cells'[y].Used() == cells[y].Used()
    && (cells[y].Used() || y % 4 == 0 ==> cells'[y].next == cells[y].next)
  }

  // ------------------------------------------------------- a new segment

  /** The free list of a new segment: all cells that are no heads, in order. */
  function NewFree(n: nat): (free: seq<nat>)
    ensures |free| == 3 * n
    ensures forall k | 0 <= k < |free| :: free[k] == 4 * (k / 3) + 1 + k % 3
  {
    seq(3 * n, k requires 0 <= k < 3 * n => 4 * (k / 3) + 1 + k % 3)
  }

  function NewNext(x: nat, n: nat): nat {
    if x % 4 == 0 then 0 else if x % 4 != 3 then x + 1 else if x + 1 < 4 * n then x + 2 else 0
  }

  function NewPrev(x: nat): nat {
    if x % 4 == 0 then 0 else if x % 4 != 1 then x - 1 else if x == 1 then 0 else x - 2
  }

  lemma NewFreeLinks(n: nat, k: nat)
    requires k < 3 * n
    ensures
      var x := NewFree(n)[k];
      && 0 < x < 4 * n && x % 4 != 0
      && After(NewFree(n), k) == NewNext(x, n) && Before(NewFree(n), k) == NewPrev(x)
  {
    var q, r := k / 3, k % 3;
    assert k == 3 * q + r;
    if r == 2 { assert (k + 1) / 3 == q + 1 && (k + 1) % 3 == 0; } else { assert (k + 1) / 3 == q && (k + 1) % 3 == r + 1; }
    if r == 0 && k > 0 { assert (k - 1) / 3 == q - 1 && (k - 1) % 3 == 2; }
    if r > 0 { assert (k - 1) / 3 == q && (k - 1) % 3 == r - 1; }
  }

  lemma NewFreeCovers(n: nat, x: nat)
    requires x < 4 * n && x % 4 != 0
    ensures x in NewFree(n)
  {
    var q, r := x / 4, x % 4;
    var k := 3 * q + r - 1;
    assert k / 3 == q && k % 3 == r - 1;
    assert NewFree(n)[k] == x;
  }

  function NewRep(n: nat): Rep {
    Rep(seq(n, _ => []), seq(4 * n, _ => 0), NewFree(n))
  }

  /** Cells linked as `linkEmptyDirs` leaves them form a segment with empty chains. */
  lemma NewSegment(cells: seq<Dir>, n: nat)
    requires 0 < n <= MAX_BUCKETS && |cells| == 4 * n
    requires forall x | 0 <= x < |cells| :: !cells[x].Used() && cells[x].next == NewNext(x, n) && cells[x].link == NewPrev(x)
    ensures Linked(cells, 1, NewRep(n))
  {
    var rep := NewRep(n);
    forall b | 0 <= b < n ensures ChainOk(cells, rep.owner, b, rep.chains[b]) {
      assert NewNext(4 * b, n) == 0;
    }
    forall k | 0 <= k < |rep.free| ensures FreeLinkOk(cells, rep.free, k) { NewFreeLinks(n, k); }
    forall i, j | 0 <= i < j < |rep.free| ensures rep.free[i] != rep.free[j] { NewFreeIncreases(n, i, j); }
    forall x | 0 <= x < |cells| && x % 4 != 0 ensures x in rep.free { NewFreeCovers(n, x); }
  }

  lemma NewFreeIncreases(n: nat, i: nat, j: nat)
    requires i < j < 3 * n
    ensures NewFree(n)[i] < NewFree(n)[j]
  {
    var qi, ri, qj, rj := i / 3, i % 3, j / 3, j % 3;
    assert i == 3 * qi + ri && j == 3 * qj + rj;
  }
}
