/** What each way of relinking cells does to the table that a segment shows. */
module DirectoryMoves {
  import opened DirEntry
  import opened DirectoryRep
  import opened DirectoryView

  /** Cells, identities and what they mean, for one segment. */
  datatype State = State(cells: seq<Dir>, ids: seq<Identity>, rep: Rep)

  predicate Ok(s: State) {
    |s.cells| == |s.ids| && ChainsOk(s.cells, s.rep.chains, s.rep.owner)
  }

  function Table(s: State): DirectoryView.Table
    requires Ok(s)
  {
    TableOf(s.cells, s.ids, s.rep)
  }

  /** The table changes in bucket `b` only. */
  lemma OneBucket(s: State, s': State, b: nat, bucket: Bucket)
    requires Ok(s) && Ok(s') && |s'.cells| == |s.cells| && b < |s.rep.chains|
    requires |s'.rep.chains| == |s.rep.chains|
    requires Inside(s'.rep.chains[b], |s'.cells|) && BucketOf(s'.cells, s'.ids, s'.rep.chains[b]) == bucket
    requires forall c | 0 <= c < |s.rep.chains| && c != b :: s'.rep.chains[c] == s.rep.chains[c]
    requires forall x | 0 <= x < |s.cells| && s.cells[x].Used() && s.rep.owner[x] != b ::
               SlotAt(s'.cells, s'.ids, x) == SlotAt(s.cells, s.ids, x)
    ensures Table(s') == Table(s)[b := bucket]
  {
    forall c | 0 <= c < |s.rep.chains| && c != b ensures Table(s')[c] == Table(s)[c] {
      forall x | x in s.rep.chains[c] && x < |s.cells| ensures SlotAt(s'.cells, s'.ids, x) == SlotAt(s.cells, s.ids, x) {
        OnChain(s.cells, s.rep.chains, s.rep.owner, c, x);
      }
      TableFrame(s.cells, s.ids, s.rep, s'.cells, s'.ids, s'.rep, c);
    }
  }

  function Replaced(s: State, x: nat, d: Dir, id: Identity): State
    requires x < |s.cells| == |s.ids|
  {
    s.(cells := s.cells[x := d.SetNext(s.cells[x].next)], ids := s.ids[x := id])
  }

  lemma ReplaceMove(s: State, b: nat, i: nat, d: Dir, id: Identity)
    requires Ok(s) && b < |s.rep.chains| && i < |s.rep.chains[b]| && d.Used() && d.next == 0
    ensures
      var x := s.rep.chains[b][i];
      && x < |s.cells| && s.cells[x].Used()
      && var s' := Replaced(s, x, d, id);
         Ok(s') && Table(s') == Table(s)[b := Table(s)[b][i := Slot(d, id)]]
  {
    var chain := s.rep.chains[b];
    var x := chain[i];
    assert ChainOk(s.cells, s.rep.owner, b, chain) && LinkOk(s.cells, s.rep.owner, b, chain, i);
    ReplaceEntry(s.cells, s.rep.chains, s.rep.owner, x, d.SetNext(s.cells[x].next));
    var s' := Replaced(s, x, d, id);
    ChainsInside(s.cells, s.rep.chains, s.rep.owner, b);
    var bucket := BucketOf(s'.cells, s'.ids, chain);
    forall k | 0 <= k < |chain| ensures bucket[k] == Table(s)[b][i := Slot(d, id)][k] {
      assert chain[k] in chain;
    }
    OneBucket(s, s', b, Table(s)[b][i := Slot(d, id)]);
  }

  function Headed(s: State, b: nat, d: Dir, id: Identity): State
    requires 4 * b < |s.cells| == |s.ids| == |s.rep.owner| && b < |s.rep.chains|
  {
    State(s.cells[4 * b := d], s.ids[4 * b := id],
          s.rep.(chains := s.rep.chains[b := [4 * b]], owner := s.rep.owner[4 * b := b]))
  }

  lemma HeadMove(s: State, b: nat, d: Dir, id: Identity)
    requires Ok(s) && b < |s.rep.chains| && s.rep.chains[b] == [] && d.Used() && d.next == 0
    ensures Ok(Headed(s, b, d, id)) && Table(Headed(s, b, d, id)) == Table(s)[b := [Slot(d, id)]]
  {
    FillHead(s.cells, s.rep.chains, s.rep.owner, b, d);
    var s' := Headed(s, b, d, id);
    ChainsInside(s'.cells, s'.rep.chains, s'.rep.owner, b);
    assert BucketOf(s'.cells, s'.ids, [4 * b]) == [Slot(d, id)];
    assert ChainOk(s.cells, s.rep.owner, b, []);
    OneBucket(s, s', b, [Slot(d, id)]);
  }

  function Appended(s: State, b: nat, x: nat, d: Dir, id: Identity): State
    requires |s.cells| == |s.ids| == |s.rep.owner| && x < |s.cells| && x < 0x1_0000
    requires b < |s.rep.chains| && s.rep.chains[b] != [] && s.rep.chains[b][|s.rep.chains[b]| - 1] < |s.cells|
  {
    var last := s.rep.chains[b][|s.rep.chains[b]| - 1];
    State(s.cells[x := d][last := s.cells[last].SetNext(x)], s.ids[x := id],
          s.rep.(chains := s.rep.chains[b := s.rep.chains[b] + [x]], owner := s.rep.owner[x := b]))
  }

  lemma AppendMove(s: State, b: nat, x: nat, d: Dir, id: Identity)
    requires Ok(s) && b < |s.rep.chains| && s.rep.chains[b] != [] && d.Used() && d.next == 0
    requires 0 < x < |s.cells| && x % 4 != 0 && !s.cells[x].Used()
    ensures x < 0x1_0000 && s.rep.chains[b][|s.rep.chains[b]| - 1] < |s.cells|
    ensures Ok(Appended(s, b, x, d, id)) && Table(Appended(s, b, x, d, id)) == Table(s)[b := Table(s)[b] + [Slot(d, id)]]
  {
    var chain := s.rep.chains[b];
    AppendEntry(s.cells, s.rep.chains, s.rep.owner, b, x, d);
    var s' := Appended(s, b, x, d, id);
    ChainsInside(s.cells, s.rep.chains, s.rep.owner, b);
    ChainsInside(s'.cells, s'.rep.chains, s'.rep.owner, b);
    var bucket := BucketOf(s'.cells, s'.ids, chain + [x]);
    assert x !in chain by { if x in chain { OnChain(s.cells, s.rep.chains, s.rep.owner, b, x); } }
    forall k | 0 <= k < |chain| + 1 ensures bucket[k] == (Table(s)[b] + [Slot(d, id)])[k] {
      if k < |chain| { assert chain[k] in chain; }
    }
    var last := chain[|chain| - 1];
    assert last in chain;
    OnChain(s.cells, s.rep.chains, s.rep.owner, b, last);
    OneBucket(s, s', b, Table(s)[b] + [Slot(d, id)]);
  }

  /** Cut the entry at place `i > 0` out of its chain and clear its cell. */
  function Cut(s: State, b: nat, i: nat): State
    requires |s.cells| == |s.ids| && b < |s.rep.chains| && 0 < i < |s.rep.chains[b]|
    requires s.rep.chains[b][i - 1] < |s.cells| && s.rep.chains[b][i] < |s.cells|
  {
    var p, x := s.rep.chains[b][i - 1], s.rep.chains[b][i];
    State(s.cells[p := s.cells[p].SetNext(s.cells[x].next)][x := EMPTY], s.ids[x := 0],
          s.rep.(chains := s.rep.chains[b := Without(s.rep.chains[b], i)]))
  }

  lemma CutMove(s: State, b: nat, i: nat)
    requires Ok(s) && b < |s.rep.chains| && 0 < i < |s.rep.chains[b]|
    ensures
      var p, x := s.rep.chains[b][i - 1], s.rep.chains[b][i];
      && p < |s.cells| && x < |s.cells| && p != x && x % 4 != 0 && s.cells[x].Used()
      && Ok(Cut(s, b, i)) && Table(Cut(s, b, i)) == Table(s)[b := Without(Table(s)[b], i)]
  {
    var chain := s.rep.chains[b];
    var p, x := chain[i - 1], chain[i];
    RemoveTail(s.cells, s.rep.chains, s.rep.owner, b, i);
    assert ChainOk(s.cells, s.rep.owner, b, chain) && LinkOk(s.cells, s.rep.owner, b, chain, i) && LinkOk(s.cells, s.rep.owner, b, chain, i - 1);
    var s' := Cut(s, b, i);
    var chain' := Without(chain, i);
    ChainsInside(s.cells, s.rep.chains, s.rep.owner, b);
    ChainsInside(s'.cells, s'.rep.chains, s'.rep.owner, b);
    var bucket := BucketOf(s'.cells, s'.ids, chain');
    forall k | 0 <= k < |chain'| ensures bucket[k] == Without(Table(s)[b], i)[k] {
      var j := if k < i then k else k + 1;
      assert chain[j] in chain && chain'[k] in chain' && chain'[k] == chain[j] != x;
      assert Table(s)[b][j] == SlotAt(s.cells, s.ids, chain[j]);
      assert bucket[k] == SlotAt(s'.cells, s'.ids, chain[j]);
    }
    assert bucket == Without(Table(s)[b], i);
    OneBucket(s, s', b, bucket);
  }

  /** Delete a head that has a successor: the successor moves into the head cell. */
  function Beheaded(s: State, b: nat): State
    requires |s.cells| == |s.ids| && b < |s.rep.chains| && 1 < |s.rep.chains[b]|
    requires s.rep.chains[b][0] < |s.cells| && s.rep.chains[b][1] < |s.cells|
  {
    var h, x := s.rep.chains[b][0], s.rep.chains[b][1];
    State(s.cells[h := s.cells[x]][x := EMPTY], s.ids[h := s.ids[x]][x := 0],
          s.rep.(chains := s.rep.chains[b := Without(s.rep.chains[b], 1)]))
  }

  lemma BeheadMove(s: State, b: nat)
    requires Ok(s) && b < |s.rep.chains| && 1 < |s.rep.chains[b]|
    ensures
      var h, x := s.rep.chains[b][0], s.rep.chains[b][1];
      && h == 4 * b < |s.cells| && x < |s.cells| && x != h && x % 4 != 0 && s.cells[h].next == x && s.cells[x].Used()
      && Ok(Beheaded(s, b)) && Table(Beheaded(s, b)) == Table(s)[b := Without(Table(s)[b], 0)]
  {
    var chain := s.rep.chains[b];
    var h, x := chain[0], chain[1];
    RemoveHead(s.cells, s.rep.chains, s.rep.owner, b);
    assert ChainOk(s.cells, s.rep.owner, b, chain) && LinkOk(s.cells, s.rep.owner, b, chain, 0) && LinkOk(s.cells, s.rep.owner, b, chain, 1);
    var s' := Beheaded(s, b);
    var chain' := Without(chain, 1);
    ChainsInside(s.cells, s.rep.chains, s.rep.owner, b);
    ChainsInside(s'.cells, s'.rep.chains, s'.rep.owner, b);
    var bucket := BucketOf(s'.cells, s'.ids, chain');
    forall k | 0 <= k < |chain'| ensures bucket[k] == Without(Table(s)[b], 0)[k] {
      assert chain[k + 1] in chain && chain'[k] in chain';
      assert Table(s)[b][k + 1] == SlotAt(s.cells, s.ids, chain[k + 1]);
      if k == 0 {
        assert chain'[0] == h && bucket[0] == SlotAt(s'.cells, s'.ids, h);
      } else {
        assert chain'[k] == chain[k + 1] && bucket[k] == SlotAt(s'.cells, s'.ids, chain[k + 1]);
      }
    }
    assert bucket == Without(Table(s)[b], 0);
    OneBucket(s, s', b, bucket);
  }

  /** Empty a bucket. */
  lemma ClearMove(s: State, cells': seq<Dir>, ids': seq<Identity>, b: nat)
    requires Ok(s) && b < |s.rep.chains| && |cells'| == |s.cells| == |ids'|
    requires forall y | 0 <= y < |s.cells| && y !in s.rep.chains[b] && y != 4 * b :: cells'[y] == s.cells[y] && ids'[y] == s.ids[y]
    requires forall y | y in s.rep.chains[b] && y < |s.cells| :: cells'[y] == EMPTY
    requires cells'[4 * b] == EMPTY
    ensures
      var s' := State(cells', ids', s.rep.(chains := s.rep.chains[b := []]));
      Ok(s') && Table(s') == Table(s)[b := []]
  {
    ClearChain(s.cells, cells', s.rep.chains, s.rep.owner, b);
    var s' := State(cells', ids', s.rep.(chains := s.rep.chains[b := []]));
    assert ChainOk(s.cells, s.rep.owner, b, s.rep.chains[b]);
    forall x | 0 <= x < |s.cells| && s.cells[x].Used() && s.rep.owner[x] != b
      ensures SlotAt(s'.cells, s'.ids, x) == SlotAt(s.cells, s.ids, x)
    {
      if x in s.rep.chains[b] { OnChain(s.cells, s.rep.chains, s.rep.owner, b, x); }
      if x == 4 * b {
        assert x in s.rep.chains[s.rep.owner[x]];
        OnChain(s.cells, s.rep.chains, s.rep.owner, s.rep.owner[x], x);
      }
    }
    OneBucket(s, s', b, []);
  }

  /** Relinking the free list shows nowhere in the table. */
  lemma FreeMove(s: State, cells': seq<Dir>, free': seq<nat>)
    requires Ok(s) && |cells'| == |s.cells|
    requires forall x | 0 <= x < |s.cells| && (s.cells[x].Used() || x % 4 == 0) :: cells'[x] == s.cells[x]
    requires forall x | 0 <= x < |s.cells| :: cells'[x].Used() == s.cells[x].Used()
    ensures
      var s' := s.(cells := cells', rep := s.rep.(free := free'));
      Ok(s') && Table(s') == Table(s)
  {
    var s' := s.(cells := cells', rep := s.rep.(free := free'));
    FreeChangesKeepChains(s.cells, cells', s.rep.chains, s.rep.owner);
    SameTable(s, s');
  }

  lemma SameTable(s: State, s': State)
    requires Ok(s) && Ok(s') && |s'.cells| == |s.cells| && s'.rep.chains == s.rep.chains
    requires forall x | 0 <= x < |s.cells| && s.cells[x].Used() :: SlotAt(s'.cells, s'.ids, x) == SlotAt(s.cells, s.ids, x)
    ensures Table(s') == Table(s)
  {
    forall c | 0 <= c < |s.rep.chains| ensures Table(s')[c] == Table(s)[c] {
      forall x | x in s.rep.chains[c] && x < |s.cells| ensures SlotAt(s'.cells, s'.ids, x) == SlotAt(s.cells, s.ids, x) {
        OnChain(s.cells, s.rep.chains, s.rep.owner, c, x);
      }
      TableFrame(s.cells, s.ids, s.rep, s'.cells, s'.ids, s'.rep, c);
    }
  }

  /**
   Putting a cell back on the free list shows nowhere in the table, unless the
   list was empty: then the head of bucket 0 gets the back link.
   */
  lemma PushMove(s: State, x: Word)
    requires Ok(s) && FreeLinked(s.cells, s.rep.free) && FreeCovers(s.cells, s.rep.free, x)
    requires 0 < x < |s.cells| && x % 4 != 0 && s.cells[x] == EMPTY && x !in s.rep.free
    ensures First(s.rep.free) < 0x1_0000 && First(s.rep.free) < |s.cells|
    ensures
      var s' := s.(cells := Pushed(s.cells, First(s.rep.free), x), rep := s.rep.(free := [x] + s.rep.free));
      && Ok(s') && FreeOk(s'.cells, s'.rep.free)
      && Table(s') == if s.rep.free == [] then Table(s)[0 := WithBackLink(Table(s)[0], x)] else Table(s)
  {
    var free := s.rep.free;
    assert free != [] ==> FreeLinkOk(s.cells, free, 0);
    PushFree(s.cells, free, x);
    var s' := s.(cells := Pushed(s.cells, First(free), x), rep := s.rep.(free := [x] + free));
    assert forall y | 0 <= y < |s.cells| :: SameUse(s.cells, s'.cells, y);
    FreeChangesKeepChains(s.cells, s'.cells, s.rep.chains, s.rep.owner);
    if free == [] {
      BackLinkBucket(s, s', x);
    } else {
      SameTable(s, s');
    }
  }

  lemma BackLinkBucket(s: State, s': State, x: Word)
    requires Ok(s) && Ok(s') && s'.rep.chains == s.rep.chains && s'.ids == s.ids && 0 < x < |s.cells|
    requires !s.cells[x].Used()
    requires s'.cells == Pushed(s.cells, 0, x)
    ensures Table(s') == Table(s)[0 := WithBackLink(Table(s)[0], x)]
  {
    var chain := s.rep.chains[0];
    ChainsInside(s.cells, s.rep.chains, s.rep.owner, 0);
    var bucket := BucketOf(s'.cells, s'.ids, chain);
    assert ChainOk(s.cells, s.rep.owner, 0, chain);
    assert forall y | 0 < y < |s.cells| && y != x :: s'.cells[y] == s.cells[y];
    assert s'.cells[0] == s.cells[0].SetPrev(x);
    forall k | 0 <= k < |chain| ensures bucket[k] == WithBackLink(Table(s)[0], x)[k] {
      assert LinkOk(s.cells, s.rep.owner, 0, chain, k);
      assert chain[k] in chain && chain[k] != x;
      assert Table(s)[0][k] == SlotAt(s.cells, s.ids, chain[k]);
      assert bucket[k] == SlotAt(s'.cells, s'.ids, chain[k]);
      if k == 0 { assert chain[k] == 0; } else { assert chain[k] != 0; }
    }
    assert bucket == WithBackLink(Table(s)[0], x);
    forall y | 0 <= y < |s.cells| && s.cells[y].Used() && s.rep.owner[y] != 0
      ensures SlotAt(s'.cells, s'.ids, y) == SlotAt(s.cells, s.ids, y)
    {
      assert y in s.rep.chains[s.rep.owner[y]];
      OnChain(s.cells, s.rep.chains, s.rep.owner, s.rep.owner[y], y);
    }
    OneBucket(s, s', 0, bucket);
  }
}
