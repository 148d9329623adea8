/**
 Exactly what a sweep of one phase leaves. The cells it gives back may write one
 back link over the head of bucket 0; everything else is as it should be.
 */
module DirectorySweep {
  import opened Common
  import opened DirEntry
  import opened DirectoryRep
  import opened DirectoryView
  import opened DirectoryMoves
  import opened DirectorySegment

  /** The phase that a link spells. */
  predicate LinkPhase(x: Word) { x / 0x1000 % 2 == 1 }

  predicate NoneLeft(t: DirectoryView.Table, phase: bool) {
    forall b | 0 <= b < |t| :: FindPhase(t[b], phase) == |t[b]|
  }

  /** The cell that the first bucket behind bucket 0 gives back. */
  ghost function LaterCell(s: State, phase: bool): (x: Word)
    requires Ok(s) && FirstRelease(DirectoryMoves.Table(s), phase, 1) < |s.rep.chains|
  {
    var t: DirectoryView.Table := DirectoryMoves.Table(s);
    var c := FirstRelease(t, phase, 1);
    ReleasedBy(s, t[c][FindPhase(t[c], phase)].Tag(), c)
  }

  /**
   Bucket 0 has entries, none of the phase, no cell is free, and the first cell
   that a later bucket gives back spells the phase.
   */
  ghost predicate LeavesOne(s: State, phase: bool)
    requires Ok(s)
  {
    var t := DirectoryMoves.Table(s);
    && s.rep.free == [] && t[0] != [] && FindPhase(t[0], phase) == |t[0]|
    && FirstRelease(t, phase, 1) < |t| && LinkPhase(LaterCell(s, phase)) == phase
  }

  /** In every segment, exactly then a sweep leaves an entry of the phase. */
  lemma NoneLeftExactly(s: State, phase: bool)
    requires Ok(s)
    ensures NoneLeft(SweptTable(s, phase), phase) <==> !LeavesOne(s, phase)
  {
    var t: DirectoryView.Table := DirectoryMoves.Table(s);
    var after := SweptTable(s, phase);
    forall b | 0 < b < |t| ensures FindPhase(after[b], phase) == |after[b]| {
      assert after[b] == SweepBucket(t[b], phase);
    }
    FirstLeft(s, phase);
    assert after[0] == SweptFirst(s, phase);
  }

  lemma FirstLeft(s: State, phase: bool)
    requires Ok(s)
    ensures FindPhase(SweptFirst(s, phase), phase) == |SweptFirst(s, phase)| <==> !LeavesOne(s, phase)
  {
    var t: DirectoryView.Table := DirectoryMoves.Table(s);
    var first, c := SweptOnce(s, 0, phase)[0], FirstRelease(t, phase, 1);
    if s.rep.free == [] && !Releases(t[0], phase) && c < |t| && first != [] {
      PlainFirst(s, phase);
      assert first == t[0];
      var linked := WithBackLink(first, LaterCell(s, phase));
      assert linked[0].entry.Phase() == LinkPhase(LaterCell(s, phase));
      forall i | 0 < i < |linked| ensures linked[i].entry.Phase() != phase {
        assert linked[i] == t[0][i];
      }
    }
  }

  // ------------------------------------- exactly the entries of the phase

  /** Some entry of the phase behind the head has the head's tag. */
  predicate Shares(bucket: Bucket, phase: bool)
    requires bucket != []
  {
    exists k | 0 < k < |bucket| :: bucket[k].Tag() == bucket[0].Tag() && bucket[k].entry.Phase() == phase
  }

  lemma KeepBehind(bucket: Bucket, phase: bool)
    requires bucket != []
    ensures
      var kept := KeepPhase(bucket[1..], phase);
      KeepPhase(bucket, phase) == if bucket[0].entry.Phase() == phase then kept else [bucket[0]] + kept
  {
  }

  lemma SweepStep(bucket: Bucket, phase: bool)
    requires FindPhase(bucket, phase) < |bucket|
    ensures SweepBucket(bucket, phase) == SweepBucket(Drop(bucket, bucket[FindPhase(bucket, phase)].Tag()), phase)
  {
  }

  /** What is behind a head that goes first. */
  lemma HeadDropped(bucket: Bucket, phase: bool)
    requires bucket != [] && TailDistinct(bucket) && FindPhase(bucket, phase) < |bucket|
    requires bucket[FindPhase(bucket, phase)].Tag() == bucket[0].Tag()
    ensures SweepBucket(bucket, phase) == KeepPhase(bucket[1..], phase)
  {
    SweepStep(bucket, phase);
    var tail := DropHead(bucket);
    SweepKeeps(tail, phase);
  }

  lemma DropHead(bucket: Bucket) returns (tail: Bucket)
    requires bucket != [] && TailDistinct(bucket)
    ensures tail == bucket[1..] == Drop(bucket, bucket[0].Tag()) && TagsDistinct(tail)
  {
    FindUnique(bucket, bucket[0].Tag(), 0);
    tail := Without(bucket, 0);
    assert tail == bucket[1..];
  }

  /** The first entry of the phase goes from behind the head, and the question is the same for the rest. */
  lemma OneDropped(bucket: Bucket, phase: bool)
    requires bucket != [] && bucket[0].entry.Phase() != phase && TailDistinct(bucket) && FindPhase(bucket, phase) < |bucket|
    requires bucket[FindPhase(bucket, phase)].Tag() != bucket[0].Tag()
    ensures
      var rest := Without(bucket, FindPhase(bucket, phase));
      && rest != [] && rest[0] == bucket[0] && TailDistinct(rest) && SweepBucket(bucket, phase) == SweepBucket(rest, phase)
      && KeepPhase(rest, phase) == KeepPhase(bucket, phase) && (Shares(rest, phase) <==> Shares(bucket, phase))
  {
    var i := FindPhase(bucket, phase);
    var gone := bucket[i].Tag();
    FindUnique(bucket, gone, i);
    DropStaysDistinct(bucket, gone);
    SweepStep(bucket, phase);
    KeepPhaseWithout(bucket, phase, i);
    SharesStays(bucket, phase, i);
  }

  lemma SharesStays(bucket: Bucket, phase: bool, i: nat)
    requires 0 < i < |bucket| && bucket[i].Tag() != bucket[0].Tag()
    ensures Shares(Without(bucket, i), phase) <==> Shares(bucket, phase)
  {
    var rest := Without(bucket, i);
    if Shares(bucket, phase) {
      var k :| 0 < k < |bucket| && bucket[k].Tag() == bucket[0].Tag() && bucket[k].entry.Phase() == phase;
      assert rest[if k < i then k else k - 1] == bucket[k];
    }
    if Shares(rest, phase) {
      var k :| 0 < k < |rest| && rest[k].Tag() == rest[0].Tag() && rest[k].entry.Phase() == phase;
      assert rest[k] == bucket[if k < i then k else k + 1];
    }
  }

  /** A head that is not of the phase goes only with the tag of an entry behind it. */
  lemma {:induction false} SweepBehind(bucket: Bucket, phase: bool)
    requires bucket != [] && bucket[0].entry.Phase() != phase && TailDistinct(bucket)
    ensures SweepBucket(bucket, phase) == if Shares(bucket, phase) then KeepPhase(bucket[1..], phase) else KeepPhase(bucket, phase)
    decreases |bucket|
  {
    var i := FindPhase(bucket, phase);
    if i == |bucket| {
      KeepPhaseAll(bucket, phase);
    } else if bucket[i].Tag() == bucket[0].Tag() {
      HeadDropped(bucket, phase);
    } else {
      var rest := Without(bucket, i);
      OneDropped(bucket, phase);
      SweepBehind(rest, phase);
      KeepBehind(bucket, phase);
      KeepBehind(rest, phase);
      SameTail(bucket[0], KeepPhase(bucket[1..], phase), KeepPhase(rest[1..], phase));
    }
  }

  lemma SameTail(head: Slot, a: Bucket, b: Bucket)
    requires [head] + a == [head] + b
    ensures a == b
  {
    assert ([head] + a)[1..] == a && ([head] + b)[1..] == b;
  }

  /** A back link that changes the head of a bucket is harmless to its sweep only if the head goes all the same. */
  predicate HeadGoes(bucket: Bucket, word: Word, phase: bool)
    requires bucket != []
  {
    bucket[0].entry.Phase() == phase && (LinkPhase(word) == phase || Shares(WithBackLink(bucket, word), phase))
  }

  lemma SweepAfterLink(bucket: Bucket, word: Word, phase: bool)
    requires TagsDistinct(bucket) && bucket != [] && bucket[0].entry.link != word
    ensures SweepBucket(WithBackLink(bucket, word), phase) == KeepPhase(bucket, phase) <==> HeadGoes(bucket, word, phase)
  {
    var linked := WithBackLink(bucket, word);
    assert linked[0] != bucket[0] && linked[1..] == bucket[1..] && linked[0].entry.Phase() == LinkPhase(word);
    assert TailDistinct(linked);
    if LinkPhase(word) == phase {
      FindPhaseUnique(linked, phase, 0);
      HeadDropped(linked, phase);
    } else {
      SweepBehind(linked, phase);
    }
    KeepBehind(bucket, phase);
    KeepBehind(linked, phase);
    var kept := KeepPhase(bucket[1..], phase);
    assert |[bucket[0]] + kept| == |kept| + 1 && ([bucket[0]] + kept)[0] != ([linked[0]] + kept)[0];
  }

  /**
   Bucket 0 keeps exactly the entries of the other phase: a cell is free; or it
   has entries of the phase, and it is alone, or the back link of its own sweep
   changes nothing, or only a head that goes all the same; or it has none, and no
   later bucket gives a cell back or its link changes nothing.
   */
  ghost predicate SparesFirst(s: State, phase: bool)
    requires Ok(s)
  {
    var t: DirectoryView.Table := DirectoryMoves.Table(s);
    || s.rep.free != []
    || t[0] == []
    || if FindPhase(t[0], phase) < |t[0]| then |t[0]| == 1 || OwnLinkSpares(s, phase)
       else FirstRelease(t, phase, 1) == |t| || t[0][0].entry.link == LaterCell(s, phase)
  }

  ghost predicate OwnLinkSpares(s: State, phase: bool)
    requires Ok(s) && Releases(DirectoryMoves.Table(s)[0], phase)
  {
    var bucket: Bucket := DirectoryMoves.Table(s)[0];
    var gone := bucket[FindPhase(bucket, phase)].Tag();
    OneGone(bucket, gone);
    var rest, x := Drop(bucket, gone), ReleasedBy(s, gone, 0);
    rest[0].entry.link == x || HeadGoes(rest, x, phase)
  }

  lemma OwnLink(s: State, phase: bool)
    requires Ok(s) && s.rep.free == [] && Releases(DirectoryMoves.Table(s)[0], phase) && TagsDistinct(DirectoryMoves.Table(s)[0])
    ensures SweptFirst(s, phase) == KeepPhase(DirectoryMoves.Table(s)[0], phase) <==> OwnLinkSpares(s, phase)
  {
    var bucket: Bucket := DirectoryMoves.Table(s)[0];
    var gone := bucket[FindPhase(bucket, phase)].Tag();
    assert SweptFirst(s, phase) == SweepBucket(WithBackLink(Drop(bucket, gone), ReleasedBy(s, gone, 0)), phase);
    LinkInside(bucket, ReleasedBy(s, gone, 0), phase);
  }

  /** A bucket that gets a back link after its first entry of the phase has gone. */
  lemma LinkInside(bucket: Bucket, x: Word, phase: bool)
    requires TagsDistinct(bucket) && Releases(bucket, phase)
    ensures
      var rest := Drop(bucket, bucket[FindPhase(bucket, phase)].Tag());
      && rest != []
      && (SweepBucket(WithBackLink(rest, x), phase) == KeepPhase(bucket, phase) <==> rest[0].entry.link == x || HeadGoes(rest, x, phase))
  {
    var i := FindPhase(bucket, phase);
    var gone := bucket[i].Tag();
    FindUnique(bucket, gone, i);
    OneGone(bucket, gone);
    var rest := Drop(bucket, gone);
    DropStaysDistinct(bucket, gone);
    KeepPhaseWithout(bucket, phase, i);
    if rest[0].entry.link == x {
      ClobberChanges(rest, x);
      SweepKeeps(rest, phase);
    } else {
      SweepAfterLink(rest, x, phase);
    }
  }

  /** With no tag twice in bucket 0, exactly then a sweep takes its entries of the phase and does nothing else to it. */
  lemma SweepSparesExactly(s: State, phase: bool)
    requires Ok(s) && TagsDistinct(DirectoryMoves.Table(s)[0])
    ensures SweptFirst(s, phase) == KeepPhase(DirectoryMoves.Table(s)[0], phase) <==> SparesFirst(s, phase)
  {
    var t: DirectoryView.Table := DirectoryMoves.Table(s);
    if s.rep.free == [] && Releases(t[0], phase) {
      OwnLink(s, phase);
    } else if s.rep.free == [] && FirstRelease(t, phase, 1) < |t| {
      LaterLink(s, phase);
    } else {
      PlainFirst(s, phase);
      SweepKeeps(t[0], phase);
    }
  }

  lemma LaterLink(s: State, phase: bool)
    requires Ok(s) && s.rep.free == [] && !Releases(DirectoryMoves.Table(s)[0], phase)
    requires FirstRelease(DirectoryMoves.Table(s), phase, 1) < |s.rep.chains|
    ensures
      var bucket := DirectoryMoves.Table(s)[0];
      SweptFirst(s, phase) == KeepPhase(bucket, phase)
      <==> bucket == [] || FindPhase(bucket, phase) < |bucket| || bucket[0].entry.link == LaterCell(s, phase)
  {
    var bucket: Bucket := DirectoryMoves.Table(s)[0];
    PlainFirst(s, phase);
    if FindPhase(bucket, phase) == |bucket| {
      KeepPhaseAll(bucket, phase);
      ClobberChanges(bucket, LaterCell(s, phase));
    } else {
      SweepKeeps(bucket, phase);
      assert KeepPhase(bucket, phase) == [];
    }
  }

  // --------------------------------------------------------- a failing input

  /** Two buckets, every cell in use; one entry of phase false, in cell 1. */
  const FullSegment: State :=
    State([Dir(10, 0, 0x3001, 0), Dir(11, 0, 0x2002, 2), Dir(12, 0, 0x3003, 3), Dir(13, 0, 0x3004, 5),
           Dir(14, 0, 0x3001, 1), Dir(15, 0, 0x3005, 6), Dir(16, 0, 0x3006, 7), Dir(17, 0, 0x3007, 0)],
          [1, 2, 3, 4, 5, 6, 7, 8], Rep([[0], [4, 1, 2, 3, 5, 6, 7]], [0, 1, 1, 1, 1, 1, 1, 1], []))

  lemma FullSegmentIsValid()
    ensures Ok(FullSegment) && FreeOk(FullSegment.cells, FullSegment.rep.free)
  {
    var s := FullSegment;
    var chain := s.rep.chains[1];
    assert chain == [4, 1, 2, 3, 5, 6, 7];
    forall i | 0 <= i < 7 ensures LinkOk(s.cells, s.rep.owner, 1, chain, i) {}
    assert LinkOk(s.cells, s.rep.owner, 0, s.rep.chains[0], 0);
    assert chain[0] == 4 && chain[1] == 1 && chain[2] == 2 && chain[3] == 3 && chain[4] == 5 && chain[5] == 6 && chain[6] == 7;
    assert s.rep.chains[0][0] == 0;
  }

  /**
   Sweeping phase false takes that entry and gives cell 1 back, and the back link
   turns the head of bucket 0, which the sweep has passed, into an entry of phase
   false under its own tag.
   */
  lemma SweepLeavesEntry()
    ensures Ok(FullSegment)
    ensures
      var was, now := DirectoryMoves.Table(FullSegment)[0], SweptTable(FullSegment, false)[0];
      && |was| == |now| == 1 && was[0].entry.Phase() && !now[0].entry.Phase()
      && now[0].Tag() == was[0].Tag() && now[0].identity == was[0].identity && now[0].entry.offset == was[0].entry.offset
  {
    FullSegmentIsValid();
    var s := FullSegment;
    var t: DirectoryView.Table := DirectoryMoves.Table(s);
    assert t[0] == [Slot(Dir(10, 0, 0x3001, 0), 1)];
    FullSegmentSecond();
    FindPhaseUnique(t[0], false, 1);
    FindPhaseUnique(t[1], false, 1);
    assert FirstRelease(t, false, 1) == 1;
    FindUnique(t[1], 2, 1);
    assert ReleasedBy(s, 2, 1) == 1;
  }

  lemma FullSegmentSecond()
    ensures Ok(FullSegment)
    ensures
      var bucket := DirectoryMoves.Table(FullSegment)[1];
      && |bucket| == 7 && bucket[0].Tag() == 1 && bucket[0].entry.Phase() && bucket[1].Tag() == 2 && !bucket[1].entry.Phase()
  {
    FullSegmentIsValid();
    ProbedSlot(FullSegment, 1, 0);
    ProbedSlot(FullSegment, 1, 1);
  }
}
