/**
 The ring as a history of records.

 Every record that was ever given a place is kept here, in allocation order.
 Replaying the first `n` of them over a blank disk gives the contents the disk
 has once those `n` have been written and nothing else has.
 */
module History {
  import opened Common
  import opened AggregateBuffer

  datatype Record = Record(offset: int, generation: nat, data: seq<Byte>) {
    function End(): int { offset + |data| }
  }

  /** Where the write cursor stands: a generation and an offset in it. */
  datatype Position = Position(generation: nat, offset: int)

  datatype History = History(start: int, limit: int, origin: Position, blank: seq<Byte>, log: seq<Record>)

  /** The cursor after the first `n` records. */
  function At(h: History, n: nat): Position
    requires n <= |h.log|
  {
    if n == 0 then h.origin else Position(h.log[n - 1].generation, h.log[n - 1].End())
  }

  /** A cursor either stays, or restarts at the beginning of the next generation. */
  predicate Continues(h: History, from: Position, to: Position) {
    to == from || to == Position(from.generation + 1, h.start)
  }

  predicate RecordOk(h: History, k: nat)
    requires k < |h.log|
  {
    && h.log[k].data != []
    && h.start <= h.log[k].offset && h.log[k].End() <= h.limit
    && Continues(h, At(h, k), Position(h.log[k].generation, h.log[k].offset))
  }

  predicate WellFormed(h: History) {
    && 0 < h.start < h.limit
    && |h.blank| == h.limit
    && h.start <= h.origin.offset <= h.limit
    && forall k | 0 <= k < |h.log| :: RecordOk(h, k)
  }

  /** Overwrite `image` from `offset` on. */
  function Blit(image: seq<Byte>, offset: int, data: seq<Byte>): (r: seq<Byte>)
    requires 0 <= offset && offset + |data| <= |image|
    ensures |r| == |image|
  {
    image[..offset] + data + image[offset + |data|..]
  }

  lemma BlitAt(image: seq<Byte>, offset: int, data: seq<Byte>, x: int)
    requires 0 <= offset && offset + |data| <= |image| && 0 <= x < |image|
    ensures Blit(image, offset, data)[x] == if offset <= x < offset + |data| then data[x - offset] else image[x]
  {
  }

  /** The disk once exactly the first `n` records have been written. */
  function Replay(h: History, n: nat): (image: seq<Byte>)
    requires WellFormed(h) && n <= |h.log|
    ensures |image| == h.limit
  {
    if n == 0 then h.blank
    else
      assert RecordOk(h, n - 1);
      Blit(Replay(h, n - 1), h.log[n - 1].offset, h.log[n - 1].data)
  }

  /** The records `a..b` lie end to end in one generation. */
  predicate Contiguous(h: History, a: nat, b: nat)
    requires a <= b <= |h.log|
  {
    forall k | a < k < b :: Adjacent(h.log[k - 1], h.log[k])
  }

  predicate Adjacent(p: Record, q: Record) {
    q.generation == p.generation && q.offset == p.End()
  }

  /** The bytes of the records `a..b`, one after the other. */
  function Joined(h: History, a: nat, b: nat): (s: seq<Byte>)
    requires a <= b <= |h.log|
    ensures a == b ==> s == []
  {
    if a == b then [] else Joined(h, a, b - 1) + h.log[b - 1].data
  }

  /** Cursors never move backwards. */
  lemma {:induction false} PositionsIncrease(h: History, i: nat, j: nat)
    requires WellFormed(h) && i <= j <= |h.log|
    ensures At(h, i).generation <= At(h, j).generation
    ensures At(h, i).generation == At(h, j).generation ==> At(h, i).offset <= At(h, j).offset
    decreases j - i
  {
    if i < j {
      PositionsIncrease(h, i, j - 1);
      assert RecordOk(h, j - 1);
    }
  }

  /** A record lies at or after every cursor that came before it. */
  lemma RecordAfter(h: History, n: nat, k: nat)
    requires WellFormed(h) && n <= k < |h.log|
    ensures At(h, n).generation <= h.log[k].generation
    ensures At(h, n).generation == h.log[k].generation ==> At(h, n).offset <= h.log[k].offset
  {
    PositionsIncrease(h, n, k);
    assert RecordOk(h, k);
  }

  /** A record lies at or before every cursor that comes after it. */
  lemma RecordBefore(h: History, k: nat, n: nat)
    requires WellFormed(h) && k < n <= |h.log|
    ensures h.log[k].generation <= At(h, n).generation
    ensures h.log[k].generation == At(h, n).generation ==> h.log[k].End() <= At(h, n).offset
  {
    PositionsIncrease(h, k + 1, n);
  }

  predicate Overlaps(r: Record, lo: int, hi: int) {
    r.offset < hi && lo < r.End()
  }

  /**
   A range is intact at a cursor when it lies behind it in the same generation,
   or ahead of it in the generation before.
   */
  predicate Intact(at: Position, generation: nat, lo: int, hi: int) {
    (generation == at.generation && hi <= at.offset) || (generation + 1 == at.generation && at.offset <= lo)
  }

  /** A record that is intact at cursor `n` is one of the first `n`. */
  lemma IntactIsWritten(h: History, n: nat, k: nat, size: nat)
    requires WellFormed(h) && n <= |h.log| && k < |h.log| && 0 < size <= |h.log[k].data|
    requires Intact(At(h, n), h.log[k].generation, h.log[k].offset, h.log[k].offset + size)
    ensures k < n
  {
    if n <= k {
      RecordAfter(h, n, k);
      assert false;
    }
  }

  /** No later record that has been written touches an intact one. */
  lemma IntactIsNotOverwritten(h: History, n: nat, k: nat, size: nat, j: nat)
    requires WellFormed(h) && k < j < n <= |h.log| && size <= |h.log[k].data|
    requires Intact(At(h, n), h.log[k].generation, h.log[k].offset, h.log[k].offset + size)
    ensures !Overlaps(h.log[j], h.log[k].offset, h.log[k].offset + size)
  {
    RecordBefore(h, k, j);
    RecordAfter(h, j, j);
    RecordBefore(h, j, n);
  }

  /** Replaying keeps a byte that no later record covers. */
  lemma {:induction false} ReplayKeeps(h: History, k: nat, n: nat, x: int)
    requires WellFormed(h) && k < n <= |h.log|
    requires h.log[k].offset <= x < h.log[k].End()
    requires forall j | k < j < n :: !(h.log[j].offset <= x < h.log[j].End())
    ensures 0 <= x < h.limit && Replay(h, n)[x] == h.log[k].data[x - h.log[k].offset]
  {
    assert RecordOk(h, n - 1) && RecordOk(h, k);
    BlitAt(Replay(h, n - 1), h.log[n - 1].offset, h.log[n - 1].data, x);
    if k < n - 1 {
      ReplayKeeps(h, k, n - 1, x);
      assert !(h.log[n - 1].offset <= x < h.log[n - 1].End());
    }
  }

  /** An intact record is found unchanged in the replayed disk. */
  lemma IntactReadsBack(h: History, n: nat, k: nat, size: nat)
    requires WellFormed(h) && n <= |h.log| && k < |h.log| && size <= |h.log[k].data|
    requires Intact(At(h, n), h.log[k].generation, h.log[k].offset, h.log[k].offset + size)
    ensures 0 <= h.log[k].offset && h.log[k].offset + size <= h.limit
    ensures Replay(h, n)[h.log[k].offset..h.log[k].offset + size] == h.log[k].data[..size]
  {
    assert RecordOk(h, k);
    var lo := h.log[k].offset;
    var image := Replay(h, n);
    forall i | 0 <= i < size
      ensures image[lo..lo + size][i] == h.log[k].data[..size][i]
    {
      IntactIsWritten(h, n, k, size);
      forall j | k < j < n ensures !(h.log[j].offset <= lo + i < h.log[j].End()) {
        IntactIsNotOverwritten(h, n, k, size, j);
      }
      ReplayKeeps(h, k, n, lo + i);
    }
  }

  /** Every byte of a contiguous run belongs to one of its records. */
  lemma {:induction false} RunIsCovered(h: History, a: nat, b: nat, x: int) returns (j: nat)
    requires a < b <= |h.log| && Contiguous(h, a, b)
    requires h.log[a].offset <= x < h.log[b - 1].End()
    ensures a <= j < b && h.log[j].offset <= x < h.log[j].End()
    decreases b
  {
    if h.log[b - 1].offset <= x || a + 1 == b {
      j := b - 1;
    } else {
      assert Adjacent(h.log[b - 2], h.log[b - 1]);
      assert Contiguous(h, a, b - 1);
      j := RunIsCovered(h, a, b - 1, x);
    }
  }

  lemma BlitTwice(image: seq<Byte>, offset: int, a: seq<Byte>, b: seq<Byte>)
    requires 0 <= offset && offset + |a| + |b| <= |image|
    ensures Blit(Blit(image, offset, a), offset + |a|, b) == Blit(image, offset, a + b)
  {
    var one := Blit(image, offset, a);
    assert one[..offset + |a|] == image[..offset] + a;
    assert one[offset + |a| + |b|..] == image[offset + |a| + |b|..];
  }

  /** A contiguous run ends where its first record plus all its bytes end. */
  lemma {:induction false} JoinedLength(h: History, a: nat, b: nat)
    requires a < b <= |h.log| && Contiguous(h, a, b)
    ensures h.log[b - 1].End() == h.log[a].offset + |Joined(h, a, b)|
    ensures h.log[b - 1].generation == h.log[a].generation
    decreases b
  {
    if a + 1 < b {
      assert Contiguous(h, a, b - 1);
      JoinedLength(h, a, b - 1);
      assert Adjacent(h.log[b - 2], h.log[b - 1]);
    } else {
      assert Joined(h, a, a) == [];
      assert Joined(h, a, b) == Joined(h, a, b - 1) + h.log[a].data;
    }
  }

  /** Writing a contiguous run in one piece is the same as writing its records in turn. */
  lemma {:induction false} ReplayBatch(h: History, a: nat, b: nat)
    requires WellFormed(h) && a < b <= |h.log| && Contiguous(h, a, b)
    ensures 0 <= h.log[a].offset && h.log[a].offset + |Joined(h, a, b)| <= h.limit
    ensures Replay(h, b) == Blit(Replay(h, a), h.log[a].offset, Joined(h, a, b))
    decreases b
  {
    assert RecordOk(h, a) && RecordOk(h, b - 1);
    JoinedLength(h, a, b);
    if a + 1 < b {
      assert Contiguous(h, a, b - 1);
      ReplayBatch(h, a, b - 1);
      JoinedLength(h, a, b - 1);
      assert Adjacent(h.log[b - 2], h.log[b - 1]);
      OneMoreBlit(h, Replay(h, a), h.log[a].offset, Joined(h, a, b - 1), b - 1);
    } else {
      assert Joined(h, a, b) == [] + h.log[a].data == h.log[a].data;
    }
  }

  /** Writing one more record behind a run is writing the longer run. */
  lemma OneMoreBlit(h: History, image: seq<Byte>, offset: int, run: seq<Byte>, k: nat)
    requires WellFormed(h) && k < |h.log| && 0 <= offset && offset + |run| == h.log[k].offset && h.log[k].End() <= |image|
    requires Replay(h, k) == Blit(image, offset, run)
    ensures Replay(h, k + 1) == Blit(image, offset, run + h.log[k].data)
  {
    BlitTwice(image, offset, run, h.log[k].data);
  }

  /** The history with one more record. */
  function Extend(h: History, r: Record): History {
    h.(log := h.log + [r])
  }

  /** Adding a record does not change what the earlier ones say. */
  lemma {:induction false} ExtendKeeps(h: History, r: Record, n: nat)
    requires WellFormed(h) && WellFormed(Extend(h, r)) && n <= |h.log|
    ensures At(Extend(h, r), n) == At(h, n)
    ensures Replay(Extend(h, r), n) == Replay(h, n)
  {
    if n > 0 { ExtendKeeps(h, r, n - 1); }
  }

  lemma {:induction false} ExtendJoined(h: History, r: Record, a: nat, b: nat)
    requires a <= b <= |h.log|
    ensures Joined(Extend(h, r), a, b) == Joined(h, a, b)
    ensures Contiguous(Extend(h, r), a, b) == Contiguous(h, a, b)
    decreases b
  {
    var h' := Extend(h, r);
    assert h'.log[..|h.log|] == h.log;
    if a < b { ExtendJoined(h, r, a, b - 1); }
  }

  lemma ExtendWellFormed(h: History, r: Record)
    requires WellFormed(h)
    requires r.data != [] && h.start <= r.offset && r.End() <= h.limit
    requires Continues(h, At(h, |h.log|), Position(r.generation, r.offset))
    ensures WellFormed(Extend(h, r))
  {
    var h' := Extend(h, r);
    forall k | 0 <= k < |h'.log| ensures RecordOk(h', k) {
      if k < |h.log| {
        assert RecordOk(h, k);
        assert At(h', k) == At(h, k);
      } else {
        assert At(h', k) == At(h, k);
      }
    }
  }
}
