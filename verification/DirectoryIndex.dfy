/**
 The directory over whole runs: a segment together with the history of what its
 operations did to its table. Keys come in as the place their hash gives them,
 a bucket and a twelve-bit tag, and as their stored identity.
 */
module DirectoryIndex {
  import opened Common
  import opened DirEntry
  import opened DirectoryRep
  import opened DirectoryView
  import opened DirectoryMoves
  import opened DirectorySegment

  class Directory {
    const segment: Segment
    ghost var history: seq<TableOp>

    ghost predicate Valid()
      reads this, segment, segment.cells, segment.identities
    {
      && segment.Valid()
      && AllFit(history, segment.Buckets())
      && segment.View() == ApplyAll(segment.Buckets(), history)
    }

    /** The tags of bucket 0 that back links have put in disorder. */
    ghost function Disorder(): set<nat>
      requires segment.ChainsValid() && AllFit(history, segment.Buckets())
      reads this, segment, segment.cells, segment.identities
    {
      Astray(segment.Buckets(), history)
    }

    /** No back link has put the tag in disorder in this bucket. */
    ghost predicate InOrder(b: nat, tag: nat)
      requires segment.ChainsValid() && AllFit(history, segment.Buckets())
      reads this, segment, segment.cells, segment.identities
    {
      b > 0 || tag !in Disorder()
    }

    constructor (n: nat)
      requires 0 < n <= MAX_BUCKETS
      ensures Valid() && segment.Buckets() == n && history == [] && Disorder() == {}
      ensures fresh(segment) && fresh(segment.cells) && fresh(segment.identities)
    {
      segment := new Segment(n);
      history := [];
    }

    /**
     Store an entry. With 1366 buckets it never fails, whatever happened before;
     with 1365 it never fails as long as bucket 0 is in order, nor in other
     buckets. It puts nothing in disorder.
     */
    method Set(b: nat, tag: nat, offset: nat, size: nat, phase: bool, id: Identity) returns (ok: bool)
      requires Valid() && b < segment.Buckets() && tag < 0x1000
      requires 0 < offset < OFFSET_LIMIT && 0 < size <= DIR_MAX_DATA_SIZE
      modifies this, segment, segment.cells, segment.identities
      ensures segment.Buckets() == old(segment.Buckets()) >= 1366 ==> ok
      ensures old(b > 0 || Disorder() == {}) && old(segment.Buckets()) >= 1365 ==> ok
      ensures ok ==>
                && Valid() && segment.Buckets() == old(segment.Buckets())
                && |history| == |old(history)| + 1 && old(history) <= history && Disorder() <= old(Disorder())
                && var op := history[|old(history)|];
                   && op.Store? && op.b == b && op.slot == Slot(Unpack(Fresh(offset, size, tag, phase)), id)
                   && (op.purged != {} ==> old(segment.rep.free) == [] && old(segment.View())[b] != [] && Lookup(old(segment.View())[b], tag).None?)
    {
      var d := Unpack(Fresh(offset, size, tag, phase));
      FreshUnpackedTag(offset, size, tag, phase);
      FreshUnpackedOffset(offset, size, tag, phase);
      ghost var t, n := segment.View(), segment.Buckets();
      NewTagFits(segment.Now(), b, tag);
      TableTailDistinct(n, history, b);
      if b > 0 || Disorder() == {} { TableDistinct(n, history, b); }
      ok := segment.Set(tag, b, d, id);
      if ok {
        ghost var op := StoreOp(t, segment.View(), b, Slot(d, id));
        OneRecorded(n, history, op);
        AfterShrinks(t[0], Disorder(), op);
        history := history + [op];
      }
    }

    /**
     Over any run a lookup hits exactly when the last surviving store for the
     bucket and tag is this key's: always in buckets other than the first, and in
     the first under tags that are in order.
     */
    method Get(b: nat, tag: nat, id: Identity) returns (r: Option<Dir>)
      requires Valid() && b < segment.Buckets()
      ensures InOrder(b, tag) ==>
                var last := Survivor(history, b, tag);
                && (r.Some? <==> last.Some? && (last.value.identity == 0 || last.value.identity == id))
                && (r.Some? ==> r.value.SetNext(0) == last.value.entry)
    {
      r := segment.Get(tag, b, id);
      if InOrder(b, tag) { TableIsMap(segment.Buckets(), history, b, tag); }
    }

    /** The other survivors are as they were, and at most two tags of bucket 0 have come into disorder. */
    twostate predicate OnlyTouches(b: nat, tag: nat)
      requires b < old(segment.Buckets())
      requires old(Valid()) && Valid()
      reads this, segment, segment.cells, segment.identities
    {
      && segment.Buckets() == old(segment.Buckets()) && old(history) <= history
      && (forall c, other | 0 <= c < segment.Buckets() && (c != b || other != tag) ::
            Survivor(history, c, other) == Survivor(old(history), c, other))
      && Disorder() <= old(Disorder()) + DeletionReach(old(segment.Now()), b, tag)
    }

    method Delete(b: nat, tag: nat, id: Identity)
      requires Valid() && b < segment.Buckets()
      modifies this, segment, segment.cells, segment.identities
      ensures Valid() && OnlyTouches(b, tag)
      ensures old(InOrder(b, tag)) ==>
                var was := Survivor(old(history), b, tag);
                Survivor(history, b, tag) == if was.Some? && (was.value.identity == 0 || was.value.identity == id) then None else was
    {
      if InOrder(b, tag) { TableIsMap(segment.Buckets(), history, b, tag); }
      ghost var s, found := segment.Now(), Lookup(segment.View()[b], tag);
      segment.Delete(tag, b, id);
      if found.Some? && (found.value.identity == 0 || found.value.identity == id) {
        DeletionRecorded(s, history, b, tag);
        history := history + DeletionOps(s, b, tag);
      }
    }

    method DeleteAt(b: nat, tag: nat, id: Identity, expected: nat) returns (gone: bool)
      requires Valid() && b < segment.Buckets()
      modifies this, segment, segment.cells, segment.identities
      ensures Valid() && OnlyTouches(b, tag)
      ensures !gone ==> history == old(history)
      ensures old(InOrder(b, tag)) ==>
                var was := Survivor(old(history), b, tag);
                && gone == (was.None? || ((was.value.identity == 0 || was.value.identity == id) && was.value.entry.offset == expected))
                && (gone ==> Survivor(history, b, tag) == None)
    {
      if InOrder(b, tag) { TableIsMap(segment.Buckets(), history, b, tag); }
      ghost var s, found := segment.Now(), Lookup(segment.View()[b], tag);
      gone := segment.DeleteAt(tag, b, id, expected);
      if found.Some? && gone {
        DeletionRecorded(s, history, b, tag);
        history := history + DeletionOps(s, b, tag);
      }
    }

    /**
     Sweep one phase. In every bucket but the first exactly the entries of the
     other phase are left, in order. `DirectorySweep` says when this is so for the
     first, and when no entry of the phase is left there.
     */
    method RemovePhase(phase: bool)
      requires Valid()
      modifies this, segment, segment.cells, segment.identities
      ensures Valid() && segment.Buckets() == old(segment.Buckets()) && old(history) <= history
      ensures segment.View() == SweptTable(old(segment.Now()), phase)
      ensures LaterSwept(old(segment.View()), segment.View(), phase)
      ensures SurvivorsSwept(segment.Buckets(), old(history), history, phase)
      ensures Disorder() <= old(Disorder()) + SweepReach(old(segment.Now()), phase)
    {
      ghost var s, h := segment.Now(), history;
      segment.RemovePhase(phase);
      SweepRecorded(s, h, phase);
      SweepDisorder(s, h, phase);
      history := h + SweepOps(s, phase);
      AllSurvivors(s, h, phase);
      LaterBuckets(s, h, phase);
    }
  }

  /** What a sweep leaves of an entry. */
  function LeftOf(was: Option<Slot>, phase: bool): Option<Slot> {
    if was.Some? && was.value.entry.Phase() == phase then None else was
  }

  /** The tags of bucket 0 under which a deletion changes what is found, besides its own. */
  ghost function DeletionReach(s: State, b: nat, tag: nat): set<nat>
    requires Ok(s) && b < |s.rep.chains|
  {
    var t := DirectoryMoves.Table(s);
    if Lookup(t[b], tag).None? || |t[b]| == 1 || s.rep.free != [] then {}
    else Reach(if b == 0 then Drop(t[0], tag) else t[0], ReleasedBy(s, tag, b))
  }

  /** The same for a sweep. */
  ghost function SweepReach(s: State, phase: bool): set<nat>
    requires Ok(s)
  {
    var t := DirectoryMoves.Table(s);
    var c := FirstRelease(t, phase, 1);
    if s.rep.free != [] then {}
    else if Releases(t[0], phase) then DeletionReach(s, 0, t[0][FindPhase(t[0], phase)].Tag())
    else if c == |t| then {}
    else Reach(SweepBucket(t[0], phase), ReleasedBy(s, t[c][FindPhase(t[c], phase)].Tag(), c))
  }

  /** A deletion as part of a history. */
  lemma DeletionRecorded(s: State, h: seq<TableOp>, b: nat, tag: nat)
    requires Ok(s) && b < |s.rep.chains| && Lookup(DirectoryMoves.Table(s)[b], tag).Some?
    requires AllFit(h, |s.rep.chains|) && DirectoryMoves.Table(s) == ApplyAll(|s.rep.chains|, h)
    ensures
      var n, all := |s.rep.chains|, h + DeletionOps(s, b, tag);
      && h <= all && AllFit(all, n) && ApplyAll(n, all) == Deleted(s, b, tag)
      && Survivor(all, b, tag) == None
      && (forall c, other | c != b || other != tag :: Survivor(all, c, other) == Survivor(h, c, other))
      && Astray(n, all) <= Astray(n, h) + DeletionReach(s, b, tag)
  {
    var n, t, ops := |s.rep.chains|, DirectoryMoves.Table(s), DeletionOps(s, b, tag);
    DeletionApplies(s, b, tag);
    ApplySeqJoins(seq(n, _ => []), h, ops);
    var one := h + [Remove(b, tag)];
    OneRecorded(n, h, Remove(b, tag));
    AfterShrinks(t[0], Astray(n, h), Remove(b, tag));
    if |ops| == 2 {
      OneRecorded(n, one, ops[1]);
      assert h + ops == one + [ops[1]];
    }
  }

  lemma SweepSurvivor(h: seq<TableOp>, phase: bool, b: nat, tag: nat)
    ensures Survivor(h + [Sweep(phase)], b, tag) == LeftOf(Survivor(h, b, tag), phase)
  {
    assert (h + [Sweep(phase)])[..|h|] == h;
  }

  lemma ClobberSurvivor(h: seq<TableOp>, word: Word, b: nat, tag: nat)
    ensures Survivor(h + [Clobber(word)], b, tag) == Survivor(h, b, tag)
  {
    assert (h + [Clobber(word)])[..|h|] == h;
  }

  /** A sweep as part of a history: the survivors of the phase go. */
  lemma SweepSurvivors(s: State, h: seq<TableOp>, phase: bool, b: nat, tag: nat)
    requires Ok(s) && AllFit(h, |s.rep.chains|) && DirectoryMoves.Table(s) == ApplyAll(|s.rep.chains|, h)
    requires b < |s.rep.chains| && (b > 0 || tag !in Astray(|s.rep.chains|, h))
    ensures Survivor(h + SweepOps(s, phase), b, tag) == LeftOf(Survivor(h, b, tag), phase)
  {
    var n, ops := |s.rep.chains|, SweepOps(s, phase);
    var t: DirectoryView.Table := DirectoryMoves.Table(s);
    SweepSurvivor(h, phase, b, tag);
    if |ops| == 2 {
      ClobberSurvivor(h + [Sweep(phase)], ops[1].word, b, tag);
      assert h + ops == h + [Sweep(phase)] + [ops[1]];
    } else if |ops| == 3 {
      var i := FindPhase(t[0], phase);
      var gone := t[0][i].Tag();
      DeletionRecorded(s, h, 0, gone);
      OneGone(t[0], gone);
      var two := h + DeletionOps(s, 0, gone);
      assert h + ops == two + [Sweep(phase)];
      SweepSurvivor(two, phase, b, tag);
      if b == 0 && tag == gone {
        TableIsMap(n, h, 0, gone);
        FindUnique(t[0], gone, i);
      }
    }
  }

  /** In the buckets behind the first exactly the entries of the other phase are left, in order. */
  ghost predicate LaterSwept(was: DirectoryView.Table, now: DirectoryView.Table, phase: bool) {
    && |now| == |was|
    && (forall b | 0 < b < |was| :: now[b] == KeepPhase(was[b], phase))
    && (forall b, slot | 0 < b < |was| :: slot in now[b] <==> slot in was[b] && slot.entry.Phase() != phase)
  }

  /** The survivors of the phase have gone, where they were in order. */
  ghost predicate SurvivorsSwept(n: nat, before: seq<TableOp>, after: seq<TableOp>, phase: bool)
    requires 0 < n && AllFit(before, n)
  {
    forall b: nat, tag: nat | b < n && (b > 0 || tag !in Astray(n, before)) ::
      Survivor(after, b, tag) == LeftOf(Survivor(before, b, tag), phase)
  }

  lemma AllSurvivors(s: State, h: seq<TableOp>, phase: bool)
    requires Ok(s) && AllFit(h, |s.rep.chains|) && DirectoryMoves.Table(s) == ApplyAll(|s.rep.chains|, h)
    ensures SurvivorsSwept(|s.rep.chains|, h, h + SweepOps(s, phase), phase)
  {
    forall b: nat, tag: nat | b < |s.rep.chains| && (b > 0 || tag !in Astray(|s.rep.chains|, h))
      ensures Survivor(h + SweepOps(s, phase), b, tag) == LeftOf(Survivor(h, b, tag), phase)
    {
      SweepSurvivors(s, h, phase, b, tag);
    }
  }

  lemma LaterBuckets(s: State, h: seq<TableOp>, phase: bool)
    requires Ok(s) && AllFit(h, |s.rep.chains|) && DirectoryMoves.Table(s) == ApplyAll(|s.rep.chains|, h)
    ensures LaterSwept(DirectoryMoves.Table(s), SweptTable(s, phase), phase)
  {
    var n, t := |s.rep.chains|, DirectoryMoves.Table(s);
    forall b | 0 < b < n ensures SweptTable(s, phase)[b] == KeepPhase(t[b], phase) {
      TableDistinct(n, h, b);
      SweepKeeps(t[b], phase);
    }
    forall b, slot | 0 < b < n
      ensures slot in SweptTable(s, phase)[b] <==> slot in t[b] && slot.entry.Phase() != phase
    {
      KeepPhaseMembers(t[b], phase, slot);
    }
  }

  /** And nothing comes into disorder but what its back link reaches. */
  lemma SweepDisorder(s: State, h: seq<TableOp>, phase: bool)
    requires Ok(s) && AllFit(h, |s.rep.chains|) && DirectoryMoves.Table(s) == ApplyAll(|s.rep.chains|, h)
    ensures
      var n, all := |s.rep.chains|, h + SweepOps(s, phase);
      AllFit(all, n) && Astray(n, all) <= Astray(n, h) + SweepReach(s, phase)
  {
    var n, ops := |s.rep.chains|, SweepOps(s, phase);
    if |ops| == 3 {
      InsideDisorder(s, h, phase);
    } else {
      var one := h + [Sweep(phase)];
      OneRecorded(n, h, Sweep(phase));
      if |ops| == 2 {
        OneRecorded(n, one, ops[1]);
        assert h + ops == one + [ops[1]];
      }
    }
  }

  lemma InsideDisorder(s: State, h: seq<TableOp>, phase: bool)
    requires Ok(s) && AllFit(h, |s.rep.chains|) && DirectoryMoves.Table(s) == ApplyAll(|s.rep.chains|, h)
    requires s.rep.free == [] && Releases(DirectoryMoves.Table(s)[0], phase)
    ensures
      var n, all := |s.rep.chains|, h + SweepOps(s, phase);
      AllFit(all, n) && Astray(n, all) <= Astray(n, h) + SweepReach(s, phase)
  {
    var n, t: DirectoryView.Table := |s.rep.chains|, DirectoryMoves.Table(s);
    var gone := t[0][FindPhase(t[0], phase)].Tag();
    DeletionRecorded(s, h, 0, gone);
    InsideOps(s, phase);
    SweepAddsNone(n, h, DeletionOps(s, 0, gone), phase);
    assert SweepReach(s, phase) == DeletionReach(s, 0, gone);
  }

  lemma SweepAddsNone(n: nat, h: seq<TableOp>, ops: seq<TableOp>, phase: bool)
    requires 0 < n && AllFit(h + ops, n)
    ensures AllFit(h + (ops + [Sweep(phase)]), n) && Astray(n, h + (ops + [Sweep(phase)])) == Astray(n, h + ops)
  {
    OneRecorded(n, h + ops, Sweep(phase));
    assert h + ops + [Sweep(phase)] == h + (ops + [Sweep(phase)]);
  }

  lemma InsideOps(s: State, phase: bool)
    requires Ok(s) && s.rep.free == [] && Releases(DirectoryMoves.Table(s)[0], phase)
    ensures
      var t := DirectoryMoves.Table(s);
      var gone := t[0][FindPhase(t[0], phase)].Tag();
      SweepOps(s, phase) == DeletionOps(s, 0, gone) + [Sweep(phase)]
  {
    var t: DirectoryView.Table := DirectoryMoves.Table(s);
    OneGone(t[0], t[0][FindPhase(t[0], phase)].Tag());
  }

  lemma SweepRecorded(s: State, h: seq<TableOp>, phase: bool)
    requires Ok(s) && AllFit(h, |s.rep.chains|) && DirectoryMoves.Table(s) == ApplyAll(|s.rep.chains|, h)
    ensures
      var n, all := |s.rep.chains|, h + SweepOps(s, phase);
      h <= all && AllFit(all, n) && ApplyAll(n, all) == SweptTable(s, phase)
  {
    SweepApplies(s, phase);
    ApplySeqJoins(seq(|s.rep.chains|, _ => []), h, SweepOps(s, phase));
  }

  /** The history entry of a store: the buckets that came out different were purged. */
  ghost function StoreOp(t: DirectoryView.Table, t': DirectoryView.Table, b: nat, slot: Slot): (op: TableOp)
    requires |t'| == |t| && b < |t| && t'[b] == Put(t[b], slot)
    requires forall c | 0 <= c < |t| && c != b :: t'[c] == t[c] || t'[c] == []
    ensures op.Store? && OpFits(op, |t|) && op.b == b && op.slot == slot && ApplyOp(t, op) == t'
    ensures t' == t[b := Put(t[b], slot)] ==> op.purged == {}
  {
    var purged := set c | 0 <= c < |t| && c != b && t'[c] != t[c];
    assert ApplyOp(t, Store(b, slot, purged)) == t';
    Store(b, slot, purged)
  }

  /**
   A tag that is new to a bucket finds a cell: the bucket's chain cannot hold
   every cell that is no head, because it has room for every tag.
   */
  lemma NewTagFits(s: State, b: nat, tag: nat)
    requires Ok(s) && b < |s.rep.chains| && tag < 0x1000
    ensures
      var bucket := DirectoryMoves.Table(s)[b];
      Lookup(bucket, tag).None? && ((TailDistinct(bucket) && |s.rep.chains| >= 1366) || (TagsDistinct(bucket) && |s.rep.chains| >= 1365)) ==>
        s.rep.chains[b] == [] || exists x :: 0 <= x < |s.cells| && x % 4 != 0 && x !in s.rep.chains[b]
  {
    var bucket, chain, n := DirectoryMoves.Table(s)[b], s.rep.chains[b], |s.rep.chains|;
    if Lookup(bucket, tag).None? && chain != [] && ((TailDistinct(bucket) && n >= 1366) || (TagsDistinct(bucket) && n >= 1365)) {
      if TagsDistinct(bucket) { TagsBound(bucket, tag); } else { TailBound(bucket, tag); }
      assert ChainOk(s.cells, s.rep.owner, b, chain) && LinkOk(s.cells, s.rep.owner, b, chain, 0);
      var tail := chain[1..];
      assert NoDup(tail) by {
        forall i, j | 0 <= i < j < |tail| ensures tail[i] != tail[j] { assert tail[i] == chain[i + 1] && tail[j] == chain[j + 1]; }
      }
      var x := SomeCellLeft(tail, n);
      assert chain == [chain[0]] + tail;
      assert x !in chain;
    }
  }

  /** A chain that holds every cell but the heads makes the next new tag fail: one bucket, four tags. */
  const FullBucket: State :=
    State([Dir(10, 0, 0x2001, 1), Dir(11, 0, 0x2002, 2), Dir(12, 0, 0x2003, 3), Dir(13, 0, 0x2004, 0)], [1, 2, 3, 4],
          Rep([[0, 1, 2, 3]], [0, 0, 0, 0], []))

  lemma FullBucketIsValid()
    ensures Ok(FullBucket) && FreeOk(FullBucket.cells, FullBucket.rep.free)
    ensures !exists x :: 0 <= x < |FullBucket.cells| && x % 4 != 0 && x !in FullBucket.rep.chains[0]
    ensures DirectoryMoves.Table(FullBucket)[0]
            == [Slot(Dir(10, 0, 0x2001, 0), 1), Slot(Dir(11, 0, 0x2002, 0), 2), Slot(Dir(12, 0, 0x2003, 0), 3), Slot(Dir(13, 0, 0x2004, 0), 4)]
  {
    var s := FullBucket;
    var chain := s.rep.chains[0];
    assert chain == [0, 1, 2, 3];
    forall i | 0 <= i < 4 ensures LinkOk(s.cells, s.rep.owner, 0, chain, i) {}
    forall x | 0 <= x < 4 ensures x in chain { assert chain[x] == x; }
  }

  /**
   Deleting tag 4 from that bucket gives cell 3 back to an empty free list, and
   the back link lands on the head of bucket 0: the entry for tag 1, which was
   not deleted, is no longer found.
   */
  lemma BackLinkLosesEntry()
    ensures Ok(FullBucket)
    ensures Lookup(DirectoryMoves.Table(FullBucket)[0], 1).Some? && Lookup(Deleted(FullBucket, 0, 4)[0], 1) == None
  {
    FullBucketIsValid();
    var t := DirectoryMoves.Table(FullBucket);
    FindUnique(t[0], 4, 3);
    FindUnique(t[0], 1, 0);
    assert ReleasedBy(FullBucket, 4, 0) == 3;
    var bucket := WithBackLink(Drop(t[0], 4), 3);
    assert Drop(t[0], 4) == t[0][..3];
    assert |bucket| == 3 && bucket[0].Tag() == 3 && bucket[1].Tag() == 2 && bucket[2].Tag() == 3;
    FindUnique(bucket, 1, 3);
  }

  /** A full bucket again, with tag 3 and the phase bit set in its head. */
  const TagThree: State :=
    State([Dir(10, 0, 0x3003, 1), Dir(11, 0, 0x3002, 2), Dir(12, 0, 0x3001, 3), Dir(13, 0, 0x3004, 0)], [3, 2, 1, 4],
          Rep([[0, 1, 2, 3]], [0, 0, 0, 0], []))

  lemma TagThreeIsValid()
    ensures Ok(TagThree) && FreeOk(TagThree.cells, TagThree.rep.free)
    ensures DirectoryMoves.Table(TagThree)[0]
            == [Slot(Dir(10, 0, 0x3003, 0), 3), Slot(Dir(11, 0, 0x3002, 0), 2), Slot(Dir(12, 0, 0x3001, 0), 1), Slot(Dir(13, 0, 0x3004, 0), 4)]
  {
    var s := TagThree;
    var chain := s.rep.chains[0];
    assert chain == [0, 1, 2, 3];
    forall i | 0 <= i < 4 ensures LinkOk(s.cells, s.rep.owner, 0, chain, i) {}
    forall x | 0 <= x < 4 ensures x in chain { assert chain[x] == x; }
  }

  /**
   Deleting tag 4 gives cell 3 back, and the back link spells the tag of the
   head: its entry is still found under its key, at its offset, and with the
   other phase.
   */
  lemma BackLinkFlipsPhase()
    ensures Ok(TagThree)
    ensures
      var was, now := Lookup(DirectoryMoves.Table(TagThree)[0], 3), Lookup(Deleted(TagThree, 0, 4)[0], 3);
      && was.Some? && now.Some? && now.value.identity == was.value.identity
      && now.value.entry.offset == was.value.entry.offset && was.value.entry.Phase() && !now.value.entry.Phase()
  {
    TagThreeIsValid();
    var t := DirectoryMoves.Table(TagThree);
    FindUnique(t[0], 4, 3);
    FindUnique(t[0], 3, 0);
    assert ReleasedBy(TagThree, 4, 0) == 3;
    var bucket := WithBackLink(Drop(t[0], 4), 3);
    assert Drop(t[0], 4) == t[0][..3];
    FindUnique(bucket, 3, 0);
  }

  /**
   Deleting the tag spares all other entries: there is nothing to delete, the
   entry is alone in its bucket and no cell is given back, the free list is not
   empty, or the back link finds bucket 0 empty or spells what is there already.
   */
  ghost predicate Spares(s: State, b: nat, tag: nat)
    requires Ok(s) && 0 < |s.rep.chains| && b < |s.rep.chains|
  {
    var t := DirectoryMoves.Table(s);
    var first := if b == 0 then Drop(t[0], tag) else t[0];
    || Lookup(t[b], tag).None?
    || |t[b]| == 1
    || s.rep.free != []
    || first == []
    || first[0].entry.link == ReleasedBy(s, tag, b)
  }

  /** Exactly then a deletion removes its entry and does nothing else. */
  lemma DeleteOnlyRemovesExactly(s: State, b: nat, tag: nat)
    requires Ok(s) && b < |s.rep.chains|
    ensures
      var t := DirectoryMoves.Table(s);
      Deleted(s, b, tag) == t[b := Drop(t[b], tag)] <==> Spares(s, b, tag)
  {
    var t := DirectoryMoves.Table(s);
    var removed := t[b := Drop(t[b], tag)];
    if Lookup(t[b], tag).Some? {
      ClobberChanges(removed[0], ReleasedBy(s, tag, b));
      assert removed[0 := removed[0]] == removed;
    }
  }

  /**
   With no tag twice in bucket 0, which is so until a back link hits an entry,
   exactly then every lookup under another bucket or tag is as before.
   */
  lemma DeleteLeavesOthersExactly(s: State, b: nat, tag: nat)
    requires Ok(s) && b < |s.rep.chains| && TagsDistinct(DirectoryMoves.Table(s)[0])
    ensures
      (forall c: nat, other: nat | c < |s.rep.chains| && (c, other) != (b, tag) ::
         Lookup(Deleted(s, b, tag)[c], other) == Lookup(DirectoryMoves.Table(s)[c], other))
      <==> Spares(s, b, tag)
  {
    var t := DirectoryMoves.Table(s);
    var removed := t[b := Drop(t[b], tag)];
    DeleteOnlyRemovesExactly(s, b, tag);
    forall c: nat, other: nat | c < |t| && (c, other) != (b, tag)
      ensures Lookup(removed[c], other) == Lookup(t[c], other)
    {
      DropIsRemoval(t[b], tag, other);
    }
    if !Spares(s, b, tag) {
      var first := removed[0];
      DropIsRemoval(t[0], tag, 0);
      ClobberHides(first, ReleasedBy(s, tag, b));
      var own := first[0].Tag();
      assert Deleted(s, b, tag)[0] == WithBackLink(first, ReleasedBy(s, tag, b));
      assert b == 0 ==> Lookup(first, tag).None?;
      assert Lookup(Deleted(s, b, tag)[0], own) != Lookup(t[0], own);
    }
  }

  /** Tag 1 twice in front, which only an earlier back link can have brought about. */
  const TagTwice: State :=
    State([Dir(10, 0, 0x3001, 1), Dir(11, 0, 0x3001, 2), Dir(12, 0, 0x3002, 3), Dir(13, 0, 0x3003, 0)], [1, 2, 3, 4],
          Rep([[0, 1, 2, 3]], [0, 0, 0, 0], []))

  lemma TagTwiceIsValid()
    ensures Ok(TagTwice) && FreeOk(TagTwice.cells, TagTwice.rep.free)
    ensures DirectoryMoves.Table(TagTwice)[0]
            == [Slot(Dir(10, 0, 0x3001, 0), 1), Slot(Dir(11, 0, 0x3001, 0), 2), Slot(Dir(12, 0, 0x3002, 0), 3), Slot(Dir(13, 0, 0x3003, 0), 4)]
  {
    var s := TagTwice;
    var chain := s.rep.chains[0];
    assert chain == [0, 1, 2, 3];
    forall i | 0 <= i < 4 ensures LinkOk(s.cells, s.rep.owner, 0, chain, i) {}
    forall x | 0 <= x < 4 ensures x in chain { assert chain[x] == x; }
  }

  /** A back link that spells the head's tag does not move other lookups. */
  lemma SameTagStays(bucket: Bucket, word: Word, other: nat)
    requires bucket != [] && word % 0x1000 == bucket[0].Tag() != other
    ensures Lookup(WithBackLink(bucket, word), other) == Lookup(bucket, other)
  {
    FindUnique(WithBackLink(bucket, word), other, Find(bucket, other));
  }

  lemma DeleteTwice()
    ensures
      && Ok(TagTwice) && !Spares(TagTwice, 0, 1)
      && var removed := Drop(DirectoryMoves.Table(TagTwice)[0], 1);
         removed != [] && removed[0].Tag() == 1 && Deleted(TagTwice, 0, 1)[0] == WithBackLink(removed, 1)
  {
    TagTwiceIsValid();
    var t := DirectoryMoves.Table(TagTwice);
    FindUnique(t[0], 1, 0);
    assert ReleasedBy(TagTwice, 1, 0) == 1;
    assert Drop(t[0], 1) == t[0][1..];
  }

  /** With a tag twice, the change can hide behind the tag that is deleted: other lookups do not see it. */
  lemma RepeatedTagHidesChange(other: nat)
    requires other != 1
    ensures Ok(TagTwice) && !Spares(TagTwice, 0, 1)
    ensures Lookup(Deleted(TagTwice, 0, 1)[0], other) == Lookup(DirectoryMoves.Table(TagTwice)[0], other)
  {
    DeleteTwice();
    var bucket := DirectoryMoves.Table(TagTwice)[0];
    DropIsRemoval(bucket, 1, other);
    SameTagStays(Drop(bucket, 1), 1, other);
  }

  // ------------------------------------------------------------ the layout

  /** Buckets per segment and segments for a number of entries, as `Init` computes them. */
  function SegmentsNum(dirNum: nat): nat { (dirNum / 4 + MAX_BUCKETS - 1) / MAX_BUCKETS }

  function BucketsPerSegment(dirNum: nat): nat
    requires 4 <= dirNum
  {
    (dirNum / 4 + SegmentsNum(dirNum) - 1) / SegmentsNum(dirNum)
  }

  lemma DivideUp(a: nat, d: nat, bound: nat)
    requires 0 < d && a <= d * bound
    ensures (a + d - 1) / d <= bound
    ensures a <= (a + d - 1) / d * d
  {
    var q, r := (a + d - 1) / d, (a + d - 1) % d;
    assert a + d - 1 == q * d + r;
    assert (bound + 1) * d == d * bound + d;
    Cancel(q, bound + 1, d);
  }

  lemma Cancel(a: int, b: int, d: nat)
    requires a * d < b * d
    ensures a < b
  {
  }

  /**
   Every cell index of a segment fits in sixteen bits, all buckets are there,
   and a directory of at least 5464 entries has segments in which no store fails.
   */
  lemma LayoutFits(dirNum: nat)
    requires 4 <= dirNum
    ensures
      var per, segments := BucketsPerSegment(dirNum), SegmentsNum(dirNum);
      && 0 < per <= MAX_BUCKETS && 4 * per <= 0x1_0000
      && dirNum / 4 <= per * segments
      && (dirNum >= 5464 ==> per >= 1366)
  {
    var buckets, segments := dirNum / 4, SegmentsNum(dirNum);
    assert buckets <= segments * MAX_BUCKETS;
    DivideUp(buckets, segments, MAX_BUCKETS);
    var per := BucketsPerSegment(dirNum);
    if segments >= 2 {
      assert per * segments >= buckets > (segments - 1) * MAX_BUCKETS >= 8192 * segments;
      Cancel(8192, per, segments);
    }
  }
}
