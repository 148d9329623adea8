/**
 Exactly when an entry can be misread later.

 Two things can give an entry the phase bit of a generation that is not its own.
 A stalled writer may publish a record that is two generations older than the
 write in flight: the stripe still calls its allocation valid, but the entry's
 phase bit is the one the new generation is about to use. And a back link of the
 directory's free list may change the bit of an entry in place. This module says
 which of these steps are harmless, proves that runs with no other kind never
 misread an entry, and shows that every other one has a continuation that does.
 */
module LatePublication {
  import opened Common
  import opened AggregateBuffer
  import opened History
  import opened RingLog
  import opened RingSafety

  /** The generation whose phase was swept last: the one being written, or the stripe's. */
  function InUse(r: Ring): nat {
    if r.worker.Writing? then r.worker.task.generation else r.stripe.generation
  }

  /** No record of a generation before `g` has been placed over record `k`. */
  predicate NotOver(h: History, k: nat, g: nat)
    requires k < |h.log|
  {
    forall j | k < j < |h.log| && h.log[j].generation < g :: !Overlaps(h.log[j], h.log[k].offset, h.log[k].End())
  }

  /** Nothing of generation `g` or before lies over record `k`, and nothing can be placed there any more. */
  predicate Skipped(r: Ring, k: nat, g: nat)
    requires k < |r.hist.log|
  {
    NotOver(r.hist, k, g + 1) && (g < r.agg.generation || r.agg.closed)
  }

  /**
   What could be checked before the step.  A publication is in time; or the
   cursor has already left the generation in flight; or no record can be added
   any more and none that waits reaches the published one.  A change of phase
   changes nothing; or the record is of the generation in use; or the new phase
   is the other one; or the generation in use has skipped the record.
   */
  predicate Harmless(r: Ring, step: Step)
    requires Enabled(r, step) && DirOk(r)
  {
    match step
    case Publish(_, k, _) =>
      r.worker.Writing? ==>
        || r.worker.task.generation <= r.hist.log[k].generation + 1
        || r.worker.task.generation < r.agg.generation
        || (r.agg.closed && r.agg.cursor <= r.hist.log[k].offset)
    case Rephase(key, phase) =>
      assert EntryOk(r, r.dir[key]);
      || phase == r.dir[key].phase
      || r.hist.log[r.dir[key].rec].generation == InUse(r)
      || phase != Phase(InUse(r))
      || Skipped(r, r.dir[key].rec, InUse(r))
    case _ => true
  }

  predicate AllHarmless(r: Ring, steps: seq<Step>)
    requires Inv(r) && Allowed(r, steps)
    decreases |steps|
  {
    steps == [] || r.stripe.storageErr
    || (Harmless(r, steps[0]) && (StepKeeps(r, steps[0]); AllHarmless(Apply(r, steps[0]), steps[1..])))
  }

  /**
   An entry of the generation in use is safe whatever its bit: with the wrong one
   it is not called valid before the next sweep takes it.  Otherwise its place
   must not be taken before the generation in use, or, if its bit is that
   generation's, not even by it.
   */
  predicate EntrySafe(r: Ring, d: Entry)
    requires EntryOk(r, d)
  {
    var g := InUse(r);
    || r.hist.log[d.rec].generation == g
    || (if d.phase != Phase(g) then NotOver(r.hist, d.rec, g) else Skipped(r, d.rec, g))
  }

  predicate DirSafe(r: Ring)
    requires DirOk(r)
  {
    forall k | k in r.dir :: EntrySafe(r, r.dir[k])
  }

  // ------------------------------------------------ harmless runs are safe

  /** The generations go up from an entry's record over the stripe and the one in use to the cursor. */
  lemma InUseBounds(r: Ring)
    requires Live(r)
    ensures r.stripe.generation <= InUse(r) <= r.agg.generation && InUse(r) <= r.stripe.generation + 1
    ensures forall k | 0 <= k < r.flushed :: r.hist.log[k].generation <= r.stripe.generation
  {
    PositionsIncrease(r.hist, r.flushed, |r.hist.log|);
    if r.worker.Writing? {
      TaskInside(r);
      PositionsIncrease(r.hist, r.sealed, |r.hist.log|);
    }
    forall k | 0 <= k < r.flushed ensures r.hist.log[k].generation <= r.stripe.generation {
      RecordBefore(r.hist, k, r.flushed);
    }
  }

  /** Records of one generation lie apart. */
  lemma SameGenerationApart(h: History, k: nat, j: nat)
    requires WellFormed(h) && k < j < |h.log| && h.log[j].generation <= h.log[k].generation
    ensures !Overlaps(h.log[j], h.log[k].offset, h.log[k].End())
  {
    RecordBefore(h, k, j);
    RecordAfter(h, j, j);
  }

  lemma OwnGenerationIsApart(h: History, k: nat, g: nat)
    requires WellFormed(h) && k < |h.log| && g <= h.log[k].generation + 1
    ensures NotOver(h, k, g)
  {
    forall j | k < j < |h.log| && h.log[j].generation < g ensures !Overlaps(h.log[j], h.log[k].offset, h.log[k].End()) {
      SameGenerationApart(h, k, j);
    }
  }

  /** Current entries are safe. */
  lemma CurrentIsSafe(r: Ring, d: Entry)
    requires Live(r) && EntryOk(r, d) && EntryCurrent(r, d)
    ensures EntrySafe(r, d)
  {
    InUseBounds(r);
    OwnGenerationIsApart(r.hist, d.rec, InUse(r));
  }

  lemma LateIsTwoOld(r: Ring, step: Step)
    requires Live(r) && step.Publish? && Enabled(r, step) && !TimelyStep(r, step)
    ensures
      var rec := r.hist.log[step.rec];
      && r.worker.Writing?
      && r.stripe.generation == rec.generation + 1
      && r.worker.task.generation == rec.generation + 2
      && rec.generation + 2 <= r.agg.generation
      && r.stripe.writingEnd <= rec.offset
      && step.rec < r.flushed
  {
    TaskInside(r);
    PublishKeeps(r, step.key, step.rec, step.approxSize);
    PositionsIncrease(r.hist, r.sealed, |r.hist.log|);
    assert RecordOk(r.hist, step.rec);
  }

  /** Records that wait in the active buffer belong to the cursor's generation and end before it. */
  lemma ActiveEndsAtCursor(r: Ring, j: nat)
    requires Live(r) && r.sealed <= j < |r.hist.log|
    ensures r.hist.log[j].generation == r.agg.generation && r.hist.log[j].End() <= r.agg.cursor
  {
    RecordBefore(r.hist, j, |r.hist.log|);
    RunHasOneGeneration(r.hist, r.sealed, |r.hist.log|, j);
  }

  lemma {:induction false} RunHasOneGeneration(h: History, a: nat, b: nat, j: nat)
    requires a <= j < b <= |h.log| && Contiguous(h, a, b)
    ensures h.log[j].generation == h.log[b - 1].generation
    ensures h.log[j].End() <= h.log[b - 1].End() && h.log[a].offset <= h.log[j].offset
    decreases b
  {
    if j < b - 1 {
      assert Contiguous(h, a, b - 1);
      RunHasOneGeneration(h, a, b - 1, j);
      assert Adjacent(h.log[b - 2], h.log[b - 1]);
    } else if a < j {
      assert Contiguous(h, a, b - 1);
      RunHasOneGeneration(h, a, b - 1, j - 1);
      assert Adjacent(h.log[j - 1], h.log[j]);
    }
  }

  /** Records with the worker belong to one generation and lie in the region it writes. */
  lemma SealedIsInRegion(r: Ring, j: nat)
    requires Live(r) && (r.worker.Queued? || r.worker.Writing?) && r.flushed <= j < r.sealed
    ensures r.hist.log[j].generation == r.worker.task.generation
    ensures r.worker.task.offset <= r.hist.log[j].offset && r.hist.log[j].End() <= r.worker.task.offset + |r.worker.task.data|
  {
    JoinedLength(r.hist, r.flushed, r.sealed);
    RunHasOneGeneration(r.hist, r.flushed, r.sealed, j);
    RunHasOneGeneration(r.hist, r.flushed, r.sealed, r.flushed);
  }

  lemma HarmlessLateIsSkipped(r: Ring, step: Step)
    requires Live(r) && step.Publish? && Enabled(r, step) && !TimelyStep(r, step) && Harmless(r, step)
    ensures Skipped(r, step.rec, InUse(r))
  {
    LateIsTwoOld(r, step);
    var k, rec := step.rec, r.hist.log[step.rec];
    forall j | k < j < |r.hist.log| && r.hist.log[j].generation < InUse(r) + 1
      ensures !Overlaps(r.hist.log[j], rec.offset, rec.End())
    {
      if j < r.flushed {
        IntactIsNotOverwritten(r.hist, r.flushed, k, |rec.data|, j);
      } else if j < r.sealed {
        SealedIsInRegion(r, j);
      } else {
        ActiveEndsAtCursor(r, j);
      }
    }
  }

  /** What is published is safe. */
  lemma PublishedIsSafe(r: Ring, step: Step)
    requires Live(r) && step.Publish? && Enabled(r, step) && Harmless(r, step)
    ensures
      var r' := Apply(r, step);
      Live(r') && EntryOk(r', r'.dir[step.key]) && EntrySafe(r', r'.dir[step.key])
  {
    PublishKeeps(r, step.key, step.rec, step.approxSize);
    var r' := Apply(r, step);
    assert EntryOk(r', r'.dir[step.key]);
    InUseBounds(r);
    if TimelyStep(r, step) {
      OwnGenerationIsApart(r.hist, step.rec, InUse(r));
    } else {
      LateIsTwoOld(r, step);
      HarmlessLateIsSkipped(r, step);
    }
  }

  /** A harmless change of phase leaves a safe entry safe. */
  lemma RephasedIsSafe(r: Ring, step: Step)
    requires Live(r) && step.Rephase? && Enabled(r, step) && Harmless(r, step)
    requires EntryOk(r, r.dir[step.key]) && EntrySafe(r, r.dir[step.key])
    ensures
      var r' := Apply(r, step);
      Live(r') && EntryOk(r', r'.dir[step.key]) && EntrySafe(r', r'.dir[step.key])
  {
    StepKeeps(r, step);
    var r' := Apply(r, step);
    assert EntryOk(r', r'.dir[step.key]);
  }

  /** A sweep takes the entries that would be taken for the new generation's. */
  lemma StartKeepsEntry(r: Ring, d: Entry)
    requires Live(r) && r.worker.Queued? && EntryOk(r, d) && EntrySafe(r, d)
    requires r.worker.task.generation != r.stripe.generation ==> d.phase != Phase(r.worker.task.generation)
    ensures Live(StartRing(r)) && EntryOk(StartRing(r), d) && EntrySafe(StartRing(r), d)
  {
    StartKeeps(r);
    TaskInside(r);
    InUseBounds(r);
    if r.hist.log[d.rec].generation == InUse(r) {
      OwnGenerationIsApart(r.hist, d.rec, InUse(r) + 1);
    }
  }

  /** Where the generation in use stays, new records do not make an entry unsafe. */
  lemma OthersKeepEntry(r: Ring, r': Ring, d: Entry)
    requires Live(r) && Live(r') && InUse(r') == InUse(r) && EntryOk(r, d) && EntryOk(r', d) && EntrySafe(r, d)
    requires r.hist.log <= r'.hist.log && r.agg.generation <= r'.agg.generation
    requires r.agg.closed ==> r'.agg.closed && r'.hist.log == r.hist.log
    requires forall j | |r.hist.log| <= j < |r'.hist.log| :: r.agg.generation <= r'.hist.log[j].generation
    ensures EntrySafe(r', d)
  {
    InUseBounds(r);
    var g, k := InUse(r), d.rec;
    assert r'.hist.log[k] == r.hist.log[k];
    var bound := if d.phase != Phase(g) then g else g + 1;
    if NotOver(r.hist, k, bound) && (d.phase == Phase(g) ==> g < r.agg.generation || r.agg.closed) {
      forall j | k < j < |r'.hist.log| && r'.hist.log[j].generation < bound
        ensures !Overlaps(r'.hist.log[j], r.hist.log[k].offset, r.hist.log[k].End())
      {
        if j < |r.hist.log| { assert r'.hist.log[j] == r.hist.log[j]; }
      }
    }
  }

  lemma AddOnlyAdvances(r: Ring, data: seq<Byte>, checks: nat)
    requires Live(r)
    ensures
      var r' := AddRing(r, data, checks);
      && r'.agg.closed == r.agg.closed && (r.agg.closed ==> r'.hist.log == r.hist.log)
      && r.agg.generation <= r'.agg.generation
      && forall j | |r.hist.log| <= j < |r'.hist.log| :: r.agg.generation <= r'.hist.log[j].generation
  {
    MakeRoomAgrees(r, |data|, checks);
  }

  /** Steps other than these three leave the generation in use alone and add nothing behind the cursor. */
  lemma OtherSteps(r: Ring, step: Step)
    requires Live(r) && Enabled(r, step) && !step.StartWrite? && !step.Publish? && !step.Rephase?
    requires !Apply(r, step).stripe.storageErr
    ensures
      var r' := Apply(r, step);
      && InUse(r') == InUse(r) && r.hist.log <= r'.hist.log && r.agg.generation <= r'.agg.generation
      && (r.agg.closed ==> r'.agg.closed && r'.hist.log == r.hist.log)
      && (forall j | |r.hist.log| <= j < |r'.hist.log| :: r.agg.generation <= r'.hist.log[j].generation)
      && forall k | k in r'.dir :: k in r.dir && r'.dir[k] == r.dir[k]
  {
    if step.Add? {
      AddOnlyExtends(r, step.data, step.checks);
      AddOnlyAdvances(r, step.data, step.checks);
    }
  }

  lemma StepKeepsEntry(r: Ring, step: Step, k: Key)
    requires Live(r) && DirSafe(r) && Enabled(r, step) && Harmless(r, step)
    requires Live(Apply(r, step)) && k in Apply(r, step).dir
    ensures EntryOk(Apply(r, step), Apply(r, step).dir[k]) && EntrySafe(Apply(r, step), Apply(r, step).dir[k])
  {
    var r' := Apply(r, step);
    assert EntryOk(r', r'.dir[k]);
    if step.StartWrite? {
      StartKeepsEntry(r, r.dir[k]);
    } else if step.Publish? && k == step.key {
      PublishedIsSafe(r, step);
    } else if step.Rephase? && k == step.key {
      RephasedIsSafe(r, step);
    } else {
      if !step.Publish? && !step.Rephase? { OtherSteps(r, step); }
      OthersKeepEntry(r, r', r.dir[k]);
    }
  }

  lemma StepKeepsSafe(r: Ring, step: Step)
    requires Live(r) && DirSafe(r) && Enabled(r, step) && Harmless(r, step)
    requires !Apply(r, step).stripe.storageErr
    ensures Live(Apply(r, step)) && DirSafe(Apply(r, step))
  {
    StepKeeps(r, step);
    var r' := Apply(r, step);
    forall k | k in r'.dir ensures EntrySafe(r', r'.dir[k]) {
      StepKeepsEntry(r, step, k);
    }
  }

  lemma {:induction false} RunKeepsSafe(r: Ring, steps: seq<Step>)
    requires Live(r) && DirSafe(r) && Allowed(r, steps) && AllHarmless(r, steps)
    requires !Exec(r, steps).stripe.storageErr
    ensures Live(Exec(r, steps)) && DirSafe(Exec(r, steps))
    decreases |steps|
  {
    if steps != [] {
      StepKeeps(r, steps[0]);
      RunKeeps(Apply(r, steps[0]), steps[1..]);
      StepKeepsSafe(r, steps[0]);
      RunKeepsSafe(Apply(r, steps[0]), steps[1..]);
    }
  }

  /** Nothing later that is on the disk or being written lies over a safe entry that the stripe calls valid. */
  lemma LaterIsApart(r: Ring, d: Entry, j: nat)
    requires Live(r) && EntryOk(r, d) && EntrySafe(r, d) && DirValid(r.stripe, d)
    requires d.rec < j < (if r.worker.Writing? then r.sealed else r.flushed)
    ensures !Overlaps(r.hist.log[j], d.offset, r.hist.log[d.rec].End())
  {
    InUseBounds(r);
    RecordBefore(r.hist, d.rec, r.flushed);
    assert RecordOk(r.hist, d.rec);
    if j < r.flushed { RecordBefore(r.hist, j, r.flushed); } else { SealedIsInRegion(r, j); }
    if r.hist.log[j].generation <= r.hist.log[d.rec].generation { SameGenerationApart(r.hist, d.rec, j); }
  }

  /** A safe entry that the stripe calls valid leads to its own bytes. */
  lemma SafeReadsBack(r: Ring, d: Entry)
    requires Live(r) && EntryOk(r, d) && EntrySafe(r, d) && DirValid(r.stripe, d)
    ensures
      var rec := r.hist.log[d.rec];
      && 0 <= rec.offset && rec.End() <= |r.disk|
      && r.disk[rec.offset..rec.End()] == rec.data
  {
    var rec := r.hist.log[d.rec];
    assert RecordOk(r.hist, d.rec);
    forall x | rec.offset <= x < rec.End() ensures r.disk[x] == rec.data[x - rec.offset] {
      if r.worker.Writing? && r.stripe.writingStart <= x < r.stripe.writingEnd {
        TaskInside(r);
        JoinedLength(r.hist, r.flushed, r.sealed);
        var j := RunIsCovered(r.hist, r.flushed, r.sealed, x);
        LaterIsApart(r, d, j);
      }
      forall j | d.rec < j < r.flushed ensures !(r.hist.log[j].offset <= x < r.hist.log[j].End()) {
        LaterIsApart(r, d, j);
      }
      ReplayKeeps(r.hist, d.rec, r.flushed, x);
    }
  }

  lemma InitIsSafe(r: Ring)
    requires Init(r)
    ensures Live(r) && DirSafe(r)
  {
    InitInv(r);
    forall k | k in r.dir ensures EntrySafe(r, r.dir[k]) {
      assert EntryOk(r, r.dir[k]) && EntryCurrent(r, r.dir[k]);
      CurrentIsSafe(r, r.dir[k]);
    }
  }

  /**
   In every run whose steps are harmless, a directory entry that the stripe calls
   valid leads to the bytes it was published for.
   */
  lemma HarmlessRunsReadBack(r0: Ring, steps: seq<Step>, k: Key)
    requires Init(r0) && Inv(r0) && Allowed(r0, steps) && AllHarmless(r0, steps)
    requires k in Exec(r0, steps).dir && DirValid(Exec(r0, steps).stripe, Exec(r0, steps).dir[k])
    ensures
      var r, d := Exec(r0, steps), Exec(r0, steps).dir[k];
      && d.rec < |r.hist.log|
      && 0 <= d.offset && d.offset + |r.hist.log[d.rec].data| <= |r.disk|
      && r.disk[d.offset..d.offset + |r.hist.log[d.rec].data|] == r.hist.log[d.rec].data
  {
    InitIsSafe(r0);
    RunKeepsSafe(r0, steps);
    var r := Exec(r0, steps);
    assert EntryOk(r, r.dir[k]);
    SafeReadsBack(r, r.dir[k]);
  }

  // -------------------------------- every other step can be misread

  /** A generation that was entered after record `k` covers everything up to its cursor. */
  lemma {:induction false} GenerationCovers(h: History, k: nat, n: nat, x: int) returns (j: nat)
    requires WellFormed(h) && k < n <= |h.log|
    requires h.log[k].generation < At(h, n).generation && h.start <= x < At(h, n).offset
    ensures k < j < n && h.log[j].offset <= x < h.log[j].End()
    decreases n
  {
    assert RecordOk(h, n - 1);
    if h.log[n - 1].offset <= x {
      j := n - 1;
    } else {
      j := GenerationCovers(h, k, n - 1, x);
    }
  }

  /** The entry for `k` at `key` is called valid although a later record lies over its first byte. */
  predicate Misread(r: Ring, key: Key, k: nat) {
    && !r.stripe.storageErr
    && key in r.dir && r.dir[key].rec == k < r.flushed <= |r.hist.log|
    && DirValid(r.stripe, r.dir[key])
    && exists j | k < j < r.flushed :: Overlaps(r.hist.log[j], r.dir[key].offset, r.dir[key].offset + 1)
  }

  /** The entry for an older record `k` has the stripe's phase, and the ring has not yet come to the record. */
  predicate Approaching(r: Ring, key: Key, k: nat) {
    && Live(r) && r.worker.Idle?
    && Mistaken(r, key, k) && r.stripe.generation == r.agg.generation
    && (r.agg.closed ==> r.hist.log[k].offset < r.agg.cursor)
  }

  /** The entry for `k` looks as if its record were of the generation in use, but it is older. */
  predicate Mistaken(r: Ring, key: Key, k: nat) {
    && key in r.dir && r.dir[key].rec == k && EntryOk(r, r.dir[key])
    && r.hist.log[k].generation < InUse(r) && r.dir[key].phase == Phase(InUse(r))
  }

  /** Once the stripe has passed the record, the entry is misread. */
  lemma PassedIsMisread(r: Ring, key: Key, k: nat)
    requires Live(r) && Mistaken(r, key, k) && r.stripe.generation == InUse(r) && r.hist.log[k].offset < r.stripe.writePos
    ensures Misread(r, key, k)
  {
    assert RecordOk(r.hist, k);
    var j := GenerationCovers(r.hist, k, r.flushed, r.hist.log[k].offset);
    assert Overlaps(r.hist.log[j], r.dir[key].offset, r.dir[key].offset + 1);
  }

  /** One flush cycle with nothing in between. */
  function Cycle(r: Ring): seq<Step>
    requires Live(r) && r.worker.Idle? && r.agg.active.data != []
  {
    TaskInsideAfterSwap(r);
    [TriggerFlush, StartWrite, FinishWrite(true, Blit(r.disk, r.agg.active.start, r.agg.active.data)), Acknowledge]
  }

  lemma TaskInsideAfterSwap(r: Ring)
    requires Live(r) && r.worker.Idle? && r.agg.active.data != []
    ensures Live(SwapRing(r)) && SwapRing(r).worker.Queued?
    ensures 0 <= r.agg.active.start && r.agg.active.start + |r.agg.active.data| <= |r.disk|
  {
    SwapKeeps(r);
    TaskInside(SwapRing(r));
  }

  lemma BlitWrites(image: seq<Byte>, offset: int, data: seq<Byte>)
    requires 0 <= offset && offset + |data| <= |image|
    ensures Blit(image, offset, data)[offset..offset + |data|] == data
    ensures forall x | 0 <= x < |image| && !(offset <= x < offset + |data|) :: Blit(image, offset, data)[x] == image[x]
  {
  }

  lemma WriteCompletes(r: Ring)
    requires Live(r) && r.worker.Writing?
    ensures 0 <= r.worker.task.offset && r.worker.task.offset + |r.worker.task.data| <= |r.disk|
    ensures Enabled(r, FinishWrite(true, Blit(r.disk, r.worker.task.offset, r.worker.task.data)))
  {
    TaskInside(r);
    BlitWrites(r.disk, r.worker.task.offset, r.worker.task.data);
  }

  /** A flush cycle brings everything that waits to the disk and changes nothing else. */
  lemma CycleFlushes(r: Ring)
    requires Live(r) && r.worker.Idle? && r.agg.active.data != []
    ensures Allowed(r, Cycle(r))
    ensures
      var r' := Exec(r, Cycle(r));
      && Live(r') && r'.worker.Idle? && r'.agg.active.data == []
      && r'.hist == r.hist && r'.flushed == |r.hist.log| && r'.base == r.base
      && r'.agg.cursor == r.agg.cursor && r'.agg.generation == r.agg.generation && r'.agg.closed == r.agg.closed
      && r'.agg.sequence == r.agg.sequence
      && (r.stripe.generation == r.agg.generation ==> r'.dir == r.dir && r'.stamps == r.stamps)
  {
    TaskInsideAfterSwap(r);
    var r1 := Apply(r, TriggerFlush);
    TaskInside(r1);
    assert r1.worker.task.generation == r.agg.generation by { CursorGeneration(r); }
    var c := Cycle(r);
    var step := FinishWrite(true, Blit(r1.disk, r1.worker.task.offset, r1.worker.task.data));
    assert c[1..] == [StartWrite, step, Acknowledge];
    WriteCycle(r1, step);
  }

  /** A queued task is written and acknowledged. */
  lemma WriteCycle(r1: Ring, step: Step)
    requires Live(r1) && r1.worker.Queued? && 0 <= r1.worker.task.offset && r1.worker.task.offset + |r1.worker.task.data| <= |r1.disk|
    requires step == FinishWrite(true, Blit(r1.disk, r1.worker.task.offset, r1.worker.task.data))
    ensures Allowed(r1, [StartWrite, step, Acknowledge])
    ensures
      var r' := Exec(r1, [StartWrite, step, Acknowledge]);
      && Live(r') && r'.worker.Idle? && r'.hist == r1.hist && r'.flushed == r1.sealed && r'.base == r1.base
      && r'.agg == Acknowledged(r1.agg, false) && r'.stamps == r1.stamps
      && (r1.worker.task.generation == r1.stripe.generation ==> r'.dir == r1.dir)
  {
    StartKeeps(r1);
    var r2 := Apply(r1, StartWrite);
    WriteCompletes(r2);
    FinishKeeps(r2, step.image);
    var r3 := Apply(r2, step);
    StepKeeps(r3, Acknowledge);
    var c := [StartWrite, step, Acknowledge];
    assert c[1..] == [step, Acknowledge] && c[1..][1..] == [Acknowledge];
    assert Exec(r3, [Acknowledge]) == Apply(r3, Acknowledge);
    assert Exec(r2, c[1..]) == Apply(r3, Acknowledge);
  }

  lemma CycleAdvances(r: Ring, key: Key, k: nat)
    requires Approaching(r, key, k) && r.agg.active.data != []
    ensures Allowed(r, Cycle(r))
    ensures
      var r' := Exec(r, Cycle(r));
      Approaching(r', key, k) && r'.agg.active.data == [] && r'.agg.cursor == r.agg.cursor && r'.hist == r.hist
  {
    CycleFlushes(r);
    CursorGeneration(r);
    RunHasOneGeneration(r.hist, r.sealed, |r.hist.log|, r.sealed);
    assert EntryOk(Exec(r, Cycle(r)), Exec(r, Cycle(r)).dir[key]);
  }

  lemma CursorGeneration(r: Ring)
    requires Live(r) && r.sealed < |r.hist.log|
    ensures r.agg.active.generation == r.agg.generation
  {
    RunHasOneGeneration(r.hist, r.sealed, |r.hist.log|, r.sealed);
  }

  /** A document as long as record `k`, or as long as the buffer takes without handing it over. */
  function Another(r: Ring, k: nat): seq<Byte>
    requires k < |r.hist.log|
  {
    r.hist.log[k].data[..Min(|r.hist.log[k].data|, AGG_HIGH_WATER_MARK - 1)]
  }

  /** One more document brings the cursor closer; it fits, because the cursor has not passed the record. */
  lemma DocumentAdvances(r: Ring, key: Key, k: nat)
    requires Approaching(r, key, k) && r.agg.active.data == [] && r.stripe.writePos <= r.hist.log[k].offset
    ensures
      var r' := Apply(r, Add(Another(r, k), 2));
      Approaching(r', key, k) && r'.agg.active.data != [] && r'.agg.cursor > r.agg.cursor && r'.hist.limit == r.hist.limit
  {
    NothingActive(r);
    assert RecordOk(r.hist, k);
    assert r.agg.cursor == r.stripe.writePos;
    var data := Another(r, k);
    StepKeeps(r, Add(data, 2));
    var r' := Apply(r, Add(data, 2));
    assert r' == AppendRing(r, data);
    assert EntryOk(r', r'.dir[key]);
  }

  lemma {:induction false} RunsJoin(r: Ring, a: seq<Step>, b: seq<Step>)
    requires Allowed(r, a) && Allowed(Exec(r, a), b)
    ensures Allowed(r, a + b) && Exec(r, a + b) == Exec(Exec(r, a), b)
    decreases |a|
  {
    if a == [] {
      assert a + b == b;
    } else {
      assert (a + b)[1..] == a[1..] + b;
      RunsJoin(Apply(r, a[0]), a[1..], b);
    }
  }

  /** Go on until the ring has passed record `k`. */
  lemma {:induction false} Overrun(r: Ring, key: Key, k: nat) returns (steps: seq<Step>)
    requires Approaching(r, key, k)
    ensures Allowed(r, steps) && Misread(Exec(r, steps), key, k)
    decreases r.hist.limit - r.agg.cursor, if r.agg.active.data == [] then 0 else 1
  {
    assert RecordOk(r.hist, k);
    if r.hist.log[k].offset < r.stripe.writePos {
      steps := [];
      PassedIsMisread(r, key, k);
    } else if r.agg.active.data != [] {
      CycleAdvances(r, key, k);
      CursorInLimits(r);
      var rest := Overrun(Exec(r, Cycle(r)), key, k);
      RunsJoin(r, Cycle(r), rest);
      steps := Cycle(r) + rest;
    } else {
      CursorInLimits(r);
      DocumentAdvances(r, key, k);
      var add := Add(Another(r, k), 2);
      CursorInLimits(Apply(r, add));
      var first := [add];
      assert Exec(r, first) == Apply(r, add);
      var rest := Overrun(Exec(r, first), key, k);
      RunsJoin(r, first, rest);
      steps := first + rest;
    }
  }

  lemma CursorInLimits(r: Ring)
    requires Live(r)
    ensures r.agg.cursor <= r.hist.limit
  {
    if |r.hist.log| > 0 { assert RecordOk(r.hist, |r.hist.log| - 1); }
  }

  /** The write in flight finishes and is acknowledged. */
  lemma FinishRun(r: Ring, key: Key, k: nat) returns (steps: seq<Step>)
    requires Live(r) && r.worker.Writing? && Mistaken(r, key, k)
    ensures Allowed(r, steps)
    ensures
      var r' := Exec(r, steps);
      && Live(r') && r'.worker.Idle? && Mistaken(r', key, k) && InUse(r') == InUse(r) && r'.hist == r.hist && r'.flushed == r.sealed
      && r'.base == r.base && r'.agg.generation == r.agg.generation && r'.agg.cursor == r.agg.cursor && r'.agg.closed == r.agg.closed
  {
    WriteCompletes(r);
    var finish := FinishWrite(true, Blit(r.disk, r.worker.task.offset, r.worker.task.data));
    FinishKeeps(r, finish.image);
    var r1 := Apply(r, finish);
    StepKeeps(r1, Acknowledge);
    steps := [finish, Acknowledge];
    assert Exec(r1, [Acknowledge]) == Apply(r1, Acknowledge);
    assert steps[1..] == [Acknowledge];
    assert EntryOk(r, r.dir[key]);
  }

  /** The cursor is still in the generation in use and may pass the record, or has passed it. */
  predicate MayPass(r: Ring, k: nat)
    requires k < |r.hist.log|
  {
    || (r.agg.generation == InUse(r) && (r.agg.closed ==> r.hist.log[k].offset < r.agg.cursor))
    || (InUse(r) < r.agg.generation && exists j | k < j < |r.hist.log| && r.hist.log[j].generation == InUse(r) ::
          Overlaps(r.hist.log[j], r.hist.log[k].offset, r.hist.log[k].End()))
  }

  /** Where everything of the generation in use is on the disk, such a record has been passed. */
  lemma AllFlushedIsPassed(r: Ring, key: Key, k: nat)
    requires Live(r) && Mistaken(r, key, k) && MayPass(r, k) && InUse(r) < r.agg.generation && !r.worker.Writing?
    requires r.worker.Queued? ==> r.worker.task.generation != r.stripe.generation
    ensures Misread(r, key, k)
  {
    var j :| k < j < |r.hist.log| && r.hist.log[j].generation == InUse(r) && Overlaps(r.hist.log[j], r.hist.log[k].offset, r.hist.log[k].End());
    if j >= r.sealed {
      ActiveEndsAtCursor(r, j);
      assert false;
    }
    if j >= r.flushed {
      SealedIsInRegion(r, j);
      assert false;
    }
    RecordBefore(r.hist, j, r.flushed);
    PassedIsMisread(r, key, k);
  }

  /** From an idle worker on. */
  lemma IdleLeadsToMisread(r: Ring, key: Key, k: nat) returns (steps: seq<Step>)
    requires Live(r) && r.worker.Idle? && Mistaken(r, key, k) && MayPass(r, k)
    ensures Allowed(r, steps) && Misread(Exec(r, steps), key, k)
  {
    if InUse(r) < r.agg.generation {
      AllFlushedIsPassed(r, key, k);
      steps := [];
    } else {
      steps := Overrun(r, key, k);
    }
  }

  lemma WritingLeadsToMisread(r: Ring, key: Key, k: nat) returns (steps: seq<Step>)
    requires Live(r) && r.worker.Writing? && Mistaken(r, key, k) && MayPass(r, k)
    ensures Allowed(r, steps) && Misread(Exec(r, steps), key, k)
  {
    var first := FinishRun(r, key, k);
    var rest := IdleLeadsToMisread(Exec(r, first), key, k);
    RunsJoin(r, first, rest);
    steps := first + rest;
  }

  lemma OneStep(r: Ring, step: Step, rest: seq<Step>)
    requires Enabled(r, step) && Allowed(Apply(r, step), rest)
    ensures Allowed(r, [step] + rest) && Exec(r, [step] + rest) == Exec(Apply(r, step), rest)
  {
    assert ([step] + rest)[1..] == rest;
  }

  /** A mistaken entry that may be passed is misread in some continuation without any failure. */
  lemma MistakenLeadsToMisread(r: Ring, key: Key, k: nat) returns (steps: seq<Step>)
    requires Live(r) && Mistaken(r, key, k) && MayPass(r, k)
    ensures Allowed(r, steps) && Misread(Exec(r, steps), key, k)
  {
    match r.worker
    case Idle => steps := IdleLeadsToMisread(r, key, k);
    case Writing(_) => steps := WritingLeadsToMisread(r, key, k);
    case Acking(_) =>
      StepKeeps(r, Acknowledge);
      var rest := IdleLeadsToMisread(Apply(r, Acknowledge), key, k);
      OneStep(r, Acknowledge, rest);
      steps := [Acknowledge] + rest;
    case Queued(task) =>
      if task.generation == r.stripe.generation {
        StartKeeps(r);
        assert Mistaken(Apply(r, StartWrite), key, k);
        var rest := WritingLeadsToMisread(Apply(r, StartWrite), key, k);
        OneStep(r, StartWrite, rest);
        steps := [StartWrite] + rest;
      } else {
        TaskInside(r);
        PositionsIncrease(r.hist, r.sealed, |r.hist.log|);
        AllFlushedIsPassed(r, key, k);
        steps := [];
      }
  }

  /** A late publication that is not harmless gives a mistaken entry. */
  lemma LateIsMistaken(r: Ring, step: Step)
    requires Live(r) && step.Publish? && Enabled(r, step) && !Harmless(r, step)
    ensures Live(Apply(r, step)) && Mistaken(Apply(r, step), step.key, step.rec) && MayPass(Apply(r, step), step.rec)
  {
    LateIsTwoOld(r, step);
    PublishKeeps(r, step.key, step.rec, step.approxSize);
    assert EntryOk(Apply(r, step), Apply(r, step).dir[step.key]);
  }

  /** So does a change of phase. */
  lemma RephasedIsMistaken(r: Ring, step: Step)
    requires Live(r) && step.Rephase? && Enabled(r, step) && !Harmless(r, step)
    requires EntryOk(r, r.dir[step.key]) && EntrySafe(r, r.dir[step.key])
    ensures
      var r', k := Apply(r, step), r.dir[step.key].rec;
      Live(r') && Mistaken(r', step.key, k) && MayPass(r', k)
  {
    StepKeeps(r, step);
    InUseBounds(r);
    var r', d, g := Apply(r, step), r.dir[step.key], InUse(r);
    assert EntryOk(r', r'.dir[step.key]);
    assert NotOver(r.hist, d.rec, g) && !Skipped(r, d.rec, g);
    if !NotOver(r.hist, d.rec, g + 1) {
      var j :| d.rec < j < |r.hist.log| && r.hist.log[j].generation < g + 1
        && Overlaps(r.hist.log[j], r.hist.log[d.rec].offset, r.hist.log[d.rec].End());
      assert r.hist.log[j].generation == g;
      RecordBefore(r.hist, j, |r.hist.log|);
    }
  }

  /**
   Every step that is not harmless, on an entry that harmless steps have led to,
   can be misread: some continuation, without any failure, makes the stripe call
   the entry valid after a later record has been written over it.
   */
  lemma OtherStepsCanBeMisread(r: Ring, step: Step) returns (steps: seq<Step>, k: nat)
    requires Live(r) && Enabled(r, step) && !Harmless(r, step)
    requires step.Rephase? ==> EntryOk(r, r.dir[step.key]) && EntrySafe(r, r.dir[step.key])
    ensures (step.Publish? || step.Rephase?) && Allowed(r, [step] + steps) && Misread(Exec(r, [step] + steps), step.key, k)
  {
    var r' := Apply(r, step);
    if step.Publish? {
      k := step.rec;
      LateIsMistaken(r, step);
    } else {
      k := r.dir[step.key].rec;
      RephasedIsMistaken(r, step);
    }
    steps := MistakenLeadsToMisread(r', step.key, k);
    OneStep(r, step, steps);
  }

  // ------------------------------------------------- both steps do happen

  /** A stripe with 32768 data bytes behind 8192 bytes of its own, and documents of 63 sectors and of one. */
  const START: nat := 8192
  const LIMIT: nat := 40960
  const LONG: nat := 32256
  const SHORT: nat := 512

  function Document(n: nat, content: Byte): (data: seq<Byte>)
    ensures |data| == n
  {
    seq(n, _ => content)
  }

  /** The stripe, just opened. */
  const Opened: Ring :=
    Ring(Agg(Batch([], 0, 0, 0), Batch([], 0, 0, 0), false, START, 2, 0, 0, START, LIMIT, false, false),
         Stripe(START, LIMIT, START, false, 2, 0, 0, 0, false), Idle, Document(LIMIT, 0), map[],
         History(START, LIMIT, Position(2, START), Document(LIMIT, 0), []), 0, 0, 0, 0)

  lemma AddOne(r: Ring, data: seq<Byte>)
    requires Live(r) && !r.agg.closed && !r.agg.flushing && Fits(r.agg, |data|)
    requires r.agg.active.data == [] && 0 < |data| < AGG_HIGH_WATER_MARK
    ensures
      var r' := Exec(r, [Add(data, 2)]);
      && Live(r') && r'.worker == r.worker && !r'.agg.closed && !r'.agg.flushing
      && r' == (if NeedsWrap(r.agg, |data|) then AppendRing(WrapRing(r), data) else AppendRing(r, data))
  {
    StepKeeps(r, Add(data, 2));
    assert Exec(r, [Add(data, 2)]) == Apply(r, Add(data, 2));
  }

  /** Everything is on the disk; the log and the cursor are as given. */
  predicate Quiet(r: Ring, at: Position, log: seq<Record>) {
    && Live(r) && r.worker.Idle? && r.agg.active.data == [] && !r.agg.closed
    && Position(r.agg.generation, r.agg.cursor) == at
    && r.hist == Opened.hist.(log := log) && r.flushed == |log| && r.base == 0
  }

  /** Where a record of `n` bytes goes. */
  function Target(at: Position, n: nat): Position {
    if at.offset + n > LIMIT then Position(at.generation + 1, START) else at
  }

  lemma AddAndFlush(r: Ring, at: Position, log: seq<Record>, data: seq<Byte>) returns (steps: seq<Step>)
    requires Quiet(r, at, log) && 0 < |data| <= LONG
    ensures Allowed(r, steps)
    ensures
      var to := Target(at, |data|);
      Quiet(Exec(r, steps), Position(to.generation, to.offset + |data|), log + [Record(to.offset, to.generation, data)])
  {
    AddOne(r, data);
    var r1 := Exec(r, [Add(data, 2)]);
    CycleFlushes(r1);
    RunsJoin(r, [Add(data, 2)], Cycle(r1));
    steps := [Add(data, 2)] + Cycle(r1);
  }

  /** The write of one more record is under way. */
  lemma AddAndStart(r: Ring, at: Position, log: seq<Record>, data: seq<Byte>) returns (steps: seq<Step>)
    requires Quiet(r, at, log) && 0 < |data| <= LONG && at.offset + |data| > LIMIT
    ensures Allowed(r, steps)
    ensures
      var r' := Exec(r, steps);
      && Live(r') && r'.base == 0 && r'.flushed == |log| && !r'.agg.closed && r'.hist == Opened.hist.(log := r'.hist.log)
      && r'.hist.log == log + [Record(START, at.generation + 1, data)]
      && r'.worker == Writing(FlushTask(data, START, at.generation + 1))
      && r'.agg.generation == at.generation + 1
      && Position(r'.stripe.generation, r'.stripe.writePos) == Position(r.stripe.generation, r.stripe.writePos)
      && r'.stripe.start == START && r'.stripe.limit == LIMIT
  {
    AddOne(r, data);
    var r1 := Exec(r, [Add(data, 2)]);
    NothingActive(r);
    assert r1 == AppendRing(WrapRing(r), data);
    TaskInsideAfterSwap(r1);
    var r2 := SwapRing(r1);
    StartKeeps(r2);
    assert Exec(r2, [StartWrite]) == StartRing(r2);
    assert [TriggerFlush, StartWrite][1..] == [StartWrite];
    assert Exec(r1, [TriggerFlush, StartWrite]) == StartRing(r2);
    RunsJoin(r, [Add(data, 2)], [TriggerFlush, StartWrite]);
    steps := [Add(data, 2)] + [TriggerFlush, StartWrite];
  }

  lemma OpenedIsQuiet()
    ensures Init(Opened) && Inv(Opened) && Quiet(Opened, Position(2, START), [])
  {
    assert Init(Opened);
    InitInv(Opened);
  }

  /** A lap with a long and a short document, and a lap with a long one. */
  function TwoLaps(a: seq<Byte>, b: seq<Byte>, c: seq<Byte>): seq<Record> {
    [Record(START, 2, a), Record(START + LONG, 2, b), Record(START, 3, c)]
  }

  lemma SecondLap(r0: Ring, a: seq<Byte>, b: seq<Byte>, c: seq<Byte>) returns (steps: seq<Step>)
    requires Quiet(r0, Position(2, START), []) && |a| == |c| == LONG && |b| == SHORT
    ensures Allowed(r0, steps)
    ensures Quiet(Exec(r0, steps), Position(3, START + LONG), TwoLaps(a, b, c))
  {
    steps := AddAndFlush(r0, Position(2, START), [], a);
    var r := Exec(r0, steps);
    var more := AddAndFlush(r, Position(2, START + LONG), [] + [Record(START, 2, a)], b);
    RunsJoin(r0, steps, more);
    steps, r := steps + more, Exec(r, more);
    more := AddAndFlush(r, Position(2, LIMIT), [] + [Record(START, 2, a)] + [Record(START + LONG, 2, b)], c);
    RunsJoin(r0, steps, more);
    steps := steps + more;
    assert [] + [Record(START, 2, a)] + [Record(START + LONG, 2, b)] + [Record(START, 3, c)] == TwoLaps(a, b, c);
  }

  /** A third lap is being written, and the short document of the first is still there. */
  lemma ThirdLap(r0: Ring, a: seq<Byte>, b: seq<Byte>, c: seq<Byte>) returns (steps: seq<Step>)
    requires Quiet(r0, Position(2, START), []) && |a| == |c| == LONG && |b| == SHORT
    ensures Allowed(r0, steps)
    ensures
      var r := Exec(r0, steps);
      && Live(r) && r.base == 0 && r.flushed == 3 && !r.agg.closed && r.hist == Opened.hist.(log := r.hist.log)
      && r.hist.log == TwoLaps(a, b, c) + [Record(START, 4, a)] && r.worker == Writing(FlushTask(a, START, 4))
      && r.agg.generation == 4 && Position(r.stripe.generation, r.stripe.writePos) == Position(3, START + LONG)
      && r.stripe.start == START && r.stripe.limit == LIMIT
  {
    steps := SecondLap(r0, a, b, c);
    var r := Exec(r0, steps);
    assert Position(r.stripe.generation, r.stripe.writePos) == At(r.hist, 3) == Position(3, START + LONG);
    var more := AddAndStart(r, Position(3, START + LONG), TwoLaps(a, b, c), a);
    RunsJoin(r0, steps, more);
    steps := steps + more;
  }

  lemma LateFrom(r0: Ring, a: seq<Byte>, b: seq<Byte>, c: seq<Byte>) returns (steps: seq<Step>, late: Step)
    requires Quiet(r0, Position(2, START), []) && |a| == |c| == LONG && |b| == SHORT
    ensures Allowed(r0, steps) && Live(Exec(r0, steps))
    ensures late.Publish? && Enabled(Exec(r0, steps), late) && !Harmless(Exec(r0, steps), late)
  {
    steps := ThirdLap(r0, a, b, c);
    late := Publish("late", 1, SHORT);
    assert Exec(r0, steps).hist.log[1] == Record(START + LONG, 2, b);
  }

  /**
   The window is open in a real run: a short document at the end of the ring
   outlives the lap after its own, and its writer wakes up while the lap after
   that is being written.
   */
  lemma LateWindowIsReachable() returns (steps: seq<Step>, late: Step)
    ensures Init(Opened) && Allowed(Opened, steps) && Live(Exec(Opened, steps))
    ensures late.Publish? && Enabled(Exec(Opened, steps), late) && !Harmless(Exec(Opened, steps), late)
  {
    OpenedIsQuiet();
    steps, late := LateFrom(Opened, Document(LONG, 1), Document(SHORT, 2), Document(LONG, 3));
  }

  /**
   So it is for a change of phase: the short document is published in time, the
   lap after its own has begun, and its entry gets the phase of that lap.
   */
  lemma FlipFrom(r0: Ring, a: seq<Byte>, b: seq<Byte>, c: seq<Byte>) returns (steps: seq<Step>, flip: Step)
    requires Quiet(r0, Position(2, START), []) && |a| == |c| == LONG && |b| == SHORT
    ensures Allowed(r0, steps) && Live(Exec(r0, steps))
    ensures flip.Rephase? && Enabled(Exec(r0, steps), flip) && !Harmless(Exec(r0, steps), flip)
    ensures EntryOk(Exec(r0, steps), Exec(r0, steps).dir[flip.key]) && EntrySafe(Exec(r0, steps), Exec(r0, steps).dir[flip.key])
  {
    steps := SecondLap(r0, a, b, c);
    var r := Exec(r0, steps);
    assert Position(r.stripe.generation, r.stripe.writePos) == At(r.hist, 3) == Position(3, START + LONG);
    var publish := Publish("short", 1, SHORT);
    assert r.hist.log[1] == Record(START + LONG, 2, b);
    PublishedIsSafe(r, publish);
    var more := [publish];
    assert Exec(r, more) == Apply(r, publish);
    RunsJoin(r0, steps, more);
    steps := steps + more;
    flip := Rephase("short", true);
  }

  lemma FlipIsReachable() returns (steps: seq<Step>, flip: Step, rest: seq<Step>, k: nat)
    ensures Init(Opened) && Allowed(Opened, steps) && flip.Rephase?
    ensures Allowed(Exec(Opened, steps), [flip] + rest) && Misread(Exec(Exec(Opened, steps), [flip] + rest), flip.key, k)
  {
    OpenedIsQuiet();
    steps, flip := FlipFrom(Opened, Document(LONG, 1), Document(SHORT, 2), Document(LONG, 3));
    rest, k := OtherStepsCanBeMisread(Exec(Opened, steps), flip);
  }

  /** The write during which the short document was published late has finished. */
  lemma LateIsStored(r0: Ring, a: seq<Byte>, b: seq<Byte>, c: seq<Byte>) returns (steps: seq<Step>)
    requires Quiet(r0, Position(2, START), []) && |a| == |c| == LONG && |b| == SHORT
    ensures Allowed(r0, steps)
    ensures
      var r := Exec(r0, steps);
      && Quiet(r, Position(4, START + LONG), TwoLaps(a, b, c) + [Record(START, 4, a)]) && r.stripe.generation == 4
      && "late" in r.dir && r.dir["late"].rec == 1 && EntryOk(r, r.dir["late"]) && PhaseOk(r, r.dir["late"])
  {
    steps := ThirdLap(r0, a, b, c);
    var r := Exec(r0, steps);
    var late := Publish("late", 1, SHORT);
    assert r.hist.log[1] == Record(START + LONG, 2, b);
    LateIsMistaken(r, late);
    var r1 := Apply(r, late);
    var more := FinishRun(r1, "late", 1);
    OneStep(r, late, more);
    RunsJoin(r0, steps, [late] + more);
    steps := steps + ([late] + more);
    assert r.sealed == 4;
    var r2 := Exec(r1, more);
    assert At(r2.hist, r2.flushed) == Position(4, START + LONG);
    assert r2.agg.active.data == Joined(r2.hist, 4, 4);
  }

  /** A document is stored and published, and nothing else happens. */
  lemma StoreAndPublish(r: Ring, at: Position, log: seq<Record>, data: seq<Byte>, key: Key) returns (steps: seq<Step>)
    requires Quiet(r, at, log) && 0 < |data| <= LONG && at.offset + |data| <= LIMIT && at.offset >= START
    ensures Allowed(r, steps)
    ensures
      var r' := Exec(r, steps);
      && Live(r') && r'.stripe.generation == at.generation && key in r'.dir && EntryOk(r', r'.dir[key]) && PhaseOk(r', r'.dir[key])
      && r'.dir[key].rec == |log| && r'.hist.log == log + [Record(at.offset, at.generation, data)]
  {
    steps := AddAndFlush(r, at, log, data);
    var r1 := Exec(r, steps);
    var publish := Publish(key, |log|, |data|);
    assert Position(r1.stripe.generation, r1.stripe.writePos) == At(r1.hist, |log| + 1);
    PublishKeeps(r1, key, |log|, |data|);
    assert Exec(r1, [publish]) == Apply(r1, publish);
    assert EntryOk(Apply(r1, publish), Apply(r1, publish).dir[key]);
    RunsJoin(r, steps, [publish]);
    steps := steps + [publish];
  }

  /**
   A snapshot of that entry is taken for a document that is stored two laps later
   at its offset, although no phase bit has changed.
   */
  lemma LateSnapshotIsReachable() returns (steps: seq<Step>, key: Key, more: seq<Step>)
    ensures Init(Opened) && Allowed(Opened, steps) && key in Exec(Opened, steps).dir
    ensures
      var r0 := Exec(Opened, steps);
      && Allowed(r0, more) && key in Exec(r0, more).dir
      && Passes(r0, r0.dir[key], Exec(r0, more), Exec(r0, more).dir[key]) && Exec(r0, more).dir[key].rec != r0.dir[key].rec
  {
    OpenedIsQuiet();
    var a, b, c := Document(LONG, 1), Document(SHORT, 2), Document(LONG, 3);
    key := "late";
    steps := LateIsStored(Opened, a, b, c);
    var r0 := Exec(Opened, steps);
    var log := TwoLaps(a, b, c) + [Record(START, 4, a)];
    more := StoreAndPublish(r0, Position(4, START + LONG), log, b, key);
    assert log[1] == Record(START + LONG, 2, b);
    assert Exec(r0, more).hist.log[4] == Record(START + LONG, 4, b);
    LatePassesForSnapshot(r0, more, key);
  }
}
