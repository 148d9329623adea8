/**
 What the ring log does not withhold: the validity checks accept every record
 that is still there, a sweep takes only what is about to be overwritten, an add
 is refused or put off for stated reasons only, and a flush comes to an end.
 */
module RingProgress {
  import opened Common
  import opened AggregateBuffer
  import opened History
  import opened RingLog
  import opened RingSafety
  import opened LatePublication

  // ------------------------------------------------------- validity, exactly

  /** No record after `k` that is on the disk covers the first byte of record `k`. */
  predicate FirstByteKept(r: Ring, k: nat)
    requires k < r.flushed <= |r.hist.log|
  {
    forall j | k < j < r.flushed :: !(r.hist.log[j].offset <= r.hist.log[k].offset < r.hist.log[j].End())
  }

  /** A write of another generation is in flight somewhere in `size` bytes from the start of record `k`. */
  predicate InFlightOver(r: Ring, k: nat, size: nat)
    requires k < |r.hist.log|
  {
    && r.worker.Writing? && r.worker.task.generation != r.hist.log[k].generation
    && r.worker.task.offset < r.hist.log[k].offset + size
    && r.hist.log[k].offset < r.worker.task.offset + |r.worker.task.data|
  }

  /** A record of the last two generations keeps its first byte exactly if the cursor has not come past it in a new lap. */
  lemma KeptIsIntact(r: Ring, k: nat, size: nat)
    requires Live(r) && k < r.flushed && 0 < size <= |r.hist.log[k].data|
    requires r.stripe.generation <= r.hist.log[k].generation + 1
    ensures FirstByteKept(r, k) <==> Intact(At(r.hist, r.flushed), r.hist.log[k].generation, r.hist.log[k].offset, r.hist.log[k].offset + size)
  {
    var rec := r.hist.log[k];
    RecordBefore(r.hist, k, r.flushed);
    assert RecordOk(r.hist, k);
    if Intact(At(r.hist, r.flushed), rec.generation, rec.offset, rec.offset + size) {
      forall j | k < j < r.flushed ensures !(r.hist.log[j].offset <= rec.offset < r.hist.log[j].End()) {
        IntactIsNotOverwritten(r.hist, r.flushed, k, size, j);
      }
    } else {
      var j := GenerationCovers(r.hist, k, r.flushed, rec.offset);
    }
  }

  /**
   The stripe calls an allocation valid exactly if its record is on the disk, is
   not two generations old, has its first byte, and no write of another
   generation is in flight over it.
   */
  lemma AllocationValidExactly(r: Ring, k: nat, size: nat)
    requires Live(r) && k < |r.hist.log| && 0 < size <= |r.hist.log[k].data|
    ensures AllocationValid(r.stripe, PlaceOf(r, k), size) <==>
      && k < r.flushed && r.stripe.generation <= r.hist.log[k].generation + 1
      && FirstByteKept(r, k) && !InFlightOver(r, k, size)
  {
    assert RecordOk(r.hist, k);
    if r.worker.Writing? { TaskInside(r); }
    if k < r.flushed {
      if r.stripe.generation <= r.hist.log[k].generation + 1 {
        KeptIsIntact(r, k, size);
        RecordBefore(r.hist, k, r.flushed);
      }
    } else if AllocationValid(r.stripe, PlaceOf(r, k), size) {
      IntactIsWritten(r.hist, r.flushed, k, size);
    }
  }

  /**
   The stripe calls a current directory entry valid exactly if its record has
   its first byte and no write of another generation is in flight over the
   entry's range: what is still there is not given up.
   */
  lemma EntryValidExactly(r: Ring, d: Entry)
    requires Live(r) && EntryOk(r, d) && EntryCurrent(r, d)
    ensures DirValid(r.stripe, d) <==> FirstByteKept(r, d.rec) && !InFlightOver(r, d.rec, d.approxSize)
  {
    var rec := r.hist.log[d.rec];
    assert RecordOk(r.hist, d.rec);
    KeptIsIntact(r, d.rec, 1);
    RecordBefore(r.hist, d.rec, r.flushed);
    if r.worker.Writing? { TaskInside(r); }
  }

  /** A sweep at the start of a generation takes exactly the entries of the generation before the last. */
  lemma SweepTakesExactly(r: Ring, key: Key)
    requires Live(r) && DirCurrent(r) && r.worker.Queued? && key in r.dir
    ensures
      var d, r' := r.dir[key], StartRing(r);
      && EntryOk(r, d)
      && (key in r'.dir <==> r.worker.task.generation <= r.hist.log[d.rec].generation + 1)
      && (key in r'.dir ==> r'.dir[key] == d)
  {
    TaskInside(r);
    assert EntryOk(r, r.dir[key]) && EntryCurrent(r, r.dir[key]);
    RecordBefore(r.hist, r.dir[key].rec, r.flushed);
  }

  // --------------------------------------------------- reading from memory

  /** A contiguous run, read from its start on, is what the disk holds once the run has been written. */
  lemma RunIsFutureDisk(h: History, a: nat, b: nat, x: int, n: nat)
    requires WellFormed(h) && a < b <= |h.log| && Contiguous(h, a, b)
    requires h.log[a].offset <= x && x + n <= h.log[a].offset + |Joined(h, a, b)|
    ensures 0 <= x && x + n <= h.limit
    ensures
      var off := x - h.log[a].offset;
      Joined(h, a, b)[off..off + n] == Replay(h, b)[x..x + n]
  {
    ReplayBatch(h, a, b);
    var start, data, image := h.log[a].offset, Joined(h, a, b), Replay(h, b);
    var part, future := data[x - start..x - start + n], image[x..x + n];
    forall i | 0 <= i < n ensures part[i] == future[i] {
      BlitAt(Replay(h, a), start, data, x + i);
    }
  }

  /** Byte `x` belongs to the records `from` up to `to`, which lie end to end. */
  predicate Covers(h: History, from: nat, to: nat, x: int)
    requires from <= to <= |h.log|
  {
    from < to && h.log[from].offset <= x < h.log[from].offset + |Joined(h, from, to)|
  }

  /** As many of `n` bytes from `x` on as the records have, as the disk holds them once these have been written. */
  predicate FutureBytes(h: History, from: nat, to: nat, x: int, n: nat, p: seq<Byte>)
    requires WellFormed(h) && from <= to <= |h.log| && Covers(h, from, to, x)
  {
    && |p| == Min(n, h.log[from].offset + |Joined(h, from, to)| - x)
    && 0 <= x && x + |p| <= h.limit && p == Replay(h, to)[x..x + |p|]
  }

  lemma SliceIsFuture(h: History, from: nat, to: nat, batch: Batch, x: int, n: nat)
    requires WellFormed(h) && from <= to <= |h.log| && Covers(h, from, to, x) && Contiguous(h, from, to)
    requires batch.data == Joined(h, from, to) && batch.start == h.log[from].offset
    ensures Holds(batch, x) && FutureBytes(h, from, to, x, n, Slice(batch, x, n))
  {
    RunIsFutureDisk(h, from, to, x, |Slice(batch, x, n)|);
  }

  /**
   What is read from the buffers is what the disk will hold there: the bytes of
   the active batch if it covers the place, or else those of the batch that the
   worker has not written yet, as many as were asked for or as the batch has.
   Nothing comes back exactly if neither covers it.
   */
  lemma MemoryIsFutureDisk(r: Ring, x: int, n: nat)
    requires Live(r) && !r.worker.Acking?
    ensures
      var p := BufferedAt(r.agg, x, n);
      if Covers(r.hist, r.sealed, |r.hist.log|, x) then FutureBytes(r.hist, r.sealed, |r.hist.log|, x, n, p)
      else if Covers(r.hist, r.flushed, r.sealed, x) then FutureBytes(r.hist, r.flushed, r.sealed, x, n, p)
      else p == []
  {
    if Covers(r.hist, r.sealed, |r.hist.log|, x) {
      SliceIsFuture(r.hist, r.sealed, |r.hist.log|, r.agg.active, x, n);
    } else {
      ActiveElsewhere(r, x);
      if Covers(r.hist, r.flushed, r.sealed, x) {
        SliceIsFuture(r.hist, r.flushed, r.sealed, r.agg.other, x, n);
      } else {
        OtherElsewhere(r, x);
      }
    }
  }

  lemma ActiveElsewhere(r: Ring, x: int)
    requires r.sealed <= |r.hist.log| && ActiveOk(r) && !Covers(r.hist, r.sealed, |r.hist.log|, x)
    ensures !Holds(r.agg.active, x)
  {
  }

  lemma OtherElsewhere(r: Ring, x: int)
    requires r.flushed <= r.sealed <= |r.hist.log| && WorkerOk(r) && !r.worker.Acking? && !Covers(r.hist, r.flushed, r.sealed, x)
    ensures !(r.agg.flushing && Holds(r.agg.other, x))
  {
  }

  // ------------------------------------------------------------------- adds

  /**
   How one locked section of an add ends, with the reasons in their order. `full`
   and `wraps` say that the record does not fit behind what is buffered, or not
   before the end of the ring.
   */
  lemma AddOutcomes(b: Agg, data: seq<Byte>, checks: nat)
    ensures
      var out, n := AddAttempt(b, data, checks).outcome, |data|;
      var fits := 0 < n <= 4194304 && (b.maxOffset != 0 ==> n <= b.maxOffset - b.minOffset);
      var wraps, full := b.maxOffset > 0 && b.cursor + n > b.maxOffset, |b.active.data| + n > 4194304;
      if !fits then out == Refused(DoesNotFit)
      else if b.failed then out == Refused(StorageFailed)
      else if b.closed then out == Refused(Closed)
      else if checks == 0 then out == Refused(Cancelled)
      else if b.flushing && (wraps || full) then out == MustWait
      else if checks == 1 && (wraps || full) then out == Refused(Cancelled)
      else
        out == Added(if wraps then Allocation(b.minOffset, b.generation + 1, b.sequence + 1)
                     else Allocation(b.cursor, b.generation, b.sequence + 1))
  {
  }

  /** An add hands over what is buffered no later than at half the buffer's size, and never two batches. */
  lemma AddFlushesInTime(b: Agg, data: seq<Byte>, checks: nat)
    requires !b.failed
    ensures
      var result := AddAttempt(b, data, checks);
      && (result.outcome.Added? && |result.agg.active.data| >= 2097152 ==> result.agg.flushing)
      && (result.task.Some? <==> !b.flushing && result.agg.flushing)
  {
  }

  /** In a live ring an add that waits waits for the worker, and once the worker is idle it is placed. */
  lemma AddIsPlacedWhenIdle(r: Ring, data: seq<Byte>, checks: nat)
    requires Live(r) && !r.agg.closed && 0 < |data| <= 4194304 && |data| <= r.hist.limit - r.hist.start && checks >= 2
    ensures AddAttempt(r.agg, data, checks).outcome.MustWait? ==> !r.worker.Idle?
    ensures
      r.worker.Idle? ==>
        var r' := AddRing(r, data, checks);
        && Live(r') && |r'.hist.log| == |r.hist.log| + 1 && r'.hist.log[|r.hist.log|].data == data
        && AddAttempt(r.agg, data, checks).outcome == Added(AllocationOf(r', |r.hist.log|))
  {
    AddKeeps(r, data, checks);
    AddAgrees(r, data, checks);
    AddOutcomes(r.agg, data, checks);
  }

  // ---------------------------------------------------------------- flushes

  /**
   A flush section answers exactly by how far the worker has come: it fails with
   the storage, gives up when it is cancelled, and is done when every record up
   to the target has been acknowledged. Otherwise it waits, and then there is a
   task that the worker has not acknowledged yet.
   */
  lemma FlushAnswers(r: Ring, target: nat, cancelled: bool)
    requires Live(r) && target <= r.agg.sequence
    ensures
      var (agg, task, outcome) := FlushPoll(r.agg, target, cancelled);
      var r' := Apply(r, TriggerFlush);
      && (outcome == FlushCancelled <==> cancelled)
      && (outcome == FlushDone ==> r.base + target <= r.flushed)
      && (r.base + target <= r.flushed && !r.worker.Acking? && !cancelled ==> outcome == FlushDone)
      && (outcome == FlushMustWait ==>
            && agg == r'.agg && !r'.worker.Idle?
            && r'.worker == if task.Some? then Queued(task.value) else r.worker)
      && (outcome != FlushMustWait ==> agg == r.agg && task == None)
  {
    if r.worker.Idle? && r.agg.active.data == [] { NothingActive(r); }
  }

  /** The steps of a worker and of flushes that wait for it. */
  predicate OnlyFlushes(steps: seq<Step>) {
    forall i | 0 <= i < |steps| ::
      steps[i].TriggerFlush? || steps[i].StartWrite? || (steps[i].FinishWrite? && steps[i].ok) || steps[i].Acknowledge?
  }

  /** Everything that has been added is on the disk, and the buffer knows. */
  predicate Drained(r: Ring) {
    Live(r) && r.worker.Idle? && r.agg.active.data == [] && r.base + r.agg.completed == |r.hist.log| == r.base + r.agg.sequence
  }

  lemma DrainIdle(r: Ring) returns (steps: seq<Step>)
    requires Live(r) && r.worker.Idle?
    ensures Allowed(r, steps) && OnlyFlushes(steps) && Drained(Exec(r, steps)) && Exec(r, steps).hist == r.hist
  {
    if r.agg.active.data == [] {
      NothingActive(r);
      steps := [];
    } else {
      CycleFlushes(r);
      steps := Cycle(r);
    }
  }

  /** What the worker is busy with is written and acknowledged. */
  lemma FinishTask(r: Ring) returns (steps: seq<Step>)
    requires Live(r) && !r.worker.Idle?
    ensures Allowed(r, steps) && OnlyFlushes(steps)
    ensures Live(Exec(r, steps)) && Exec(r, steps).worker.Idle? && Exec(r, steps).hist == r.hist
  {
    match r.worker
    case Acking(_) =>
      StepKeeps(r, Acknowledge);
      steps := [Acknowledge];
      assert Exec(r, steps) == Apply(r, Acknowledge);
    case Writing(_) =>
      steps := FinishWriting(r);
    case Queued(task) =>
      TaskInside(r);
      var finish := FinishWrite(true, Blit(r.disk, task.offset, task.data));
      WriteCycle(r, finish);
      steps := [StartWrite, finish, Acknowledge];
  }

  lemma FinishWriting(r: Ring) returns (steps: seq<Step>)
    requires Live(r) && r.worker.Writing?
    ensures Allowed(r, steps) && OnlyFlushes(steps)
    ensures Live(Exec(r, steps)) && Exec(r, steps).worker.Idle? && Exec(r, steps).hist == r.hist
  {
    WriteCompletes(r);
    var finish := FinishWrite(true, Blit(r.disk, r.worker.task.offset, r.worker.task.data));
    FinishKeeps(r, finish.image);
    var r1 := Apply(r, finish);
    StepKeeps(r1, Acknowledge);
    assert Exec(r1, [Acknowledge]) == Apply(r1, Acknowledge);
    OneStep(r, finish, [Acknowledge]);
    steps := [finish] + [Acknowledge];
  }

  /**
   From every live state, whatever the worker is doing, a flush comes to an end:
   the worker's own steps and the hand-overs of the waiting flush lead to a state
   where everything added so far is on the disk and a flush through any target
   up to the last record answers that it is done.
   */
  lemma FlushEnds(r: Ring) returns (steps: seq<Step>)
    requires Live(r)
    ensures Allowed(r, steps) && OnlyFlushes(steps) && Drained(Exec(r, steps)) && Exec(r, steps).hist == r.hist
    ensures forall target: nat | target <= r.agg.sequence :: FlushPoll(Exec(r, steps).agg, target, false).2 == FlushDone
  {
    if r.worker.Idle? {
      steps := DrainIdle(r);
    } else {
      var first := FinishTask(r);
      var rest := DrainIdle(Exec(r, first));
      RunsJoin(r, first, rest);
      steps := first + rest;
    }
    OnlyFlushesKeepBase(r, steps);
  }

  lemma {:induction false} OnlyFlushesKeepBase(r: Ring, steps: seq<Step>)
    requires Allowed(r, steps) && OnlyFlushes(steps)
    ensures Exec(r, steps).base == r.base && Exec(r, steps).agg.sequence == r.agg.sequence
    decreases |steps|
  {
    if steps != [] {
      assert OnlyFlushes(steps[1..]);
      OnlyFlushesKeepBase(Apply(r, steps[0]), steps[1..]);
    }
  }
}
