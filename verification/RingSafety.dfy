/** What holds in every run of the ring log. */
module RingSafety {
  import opened Common
  import opened AggregateBuffer
  import opened History
  import opened RingLog

  // ------------------------------------------------------------------ runs

  predicate Allowed(r: Ring, steps: seq<Step>)
    decreases |steps|
  {
    steps == [] || (Enabled(r, steps[0]) && Allowed(Apply(r, steps[0]), steps[1..]))
  }

  function Exec(r: Ring, steps: seq<Step>): Ring
    requires Allowed(r, steps)
    decreases |steps|
  {
    if steps == [] then r else Exec(Apply(r, steps[0]), steps[1..])
  }

  lemma {:induction false} RunKeeps(r: Ring, steps: seq<Step>)
    requires Inv(r) && Allowed(r, steps)
    ensures Inv(Exec(r, steps))
    ensures r.stripe.storageErr ==> Exec(r, steps).stripe.storageErr
    decreases |steps|
  {
    if steps != [] {
      StepKeeps(r, steps[0]);
      RunKeeps(Apply(r, steps[0]), steps[1..]);
    }
  }

  // -------------------------------------------------------- reading back

  /** The region in flight never touches what the stripe calls valid. */
  lemma ValidIsNotInFlight(r: Ring, k: nat, size: nat)
    requires Live(r) && k < |r.hist.log| && size <= |r.hist.log[k].data|
    requires AllocationValid(r.stripe, PlaceOf(r, k), size)
    ensures r.hist.log[k].offset + size <= r.stripe.writingStart || r.stripe.writingEnd <= r.hist.log[k].offset || size == 0
  {
    if r.worker.Writing? {
      TaskInside(r);
    } else {
      assert RecordOk(r.hist, k);
    }
  }

  lemma ValidReadsBack(r: Ring, k: nat, size: nat)
    requires Live(r) && k < |r.hist.log| && size <= |r.hist.log[k].data|
    requires AllocationValid(r.stripe, PlaceOf(r, k), size)
    ensures 0 <= r.hist.log[k].offset && r.hist.log[k].offset + size <= |r.disk|
    ensures r.disk[r.hist.log[k].offset..r.hist.log[k].offset + size] == r.hist.log[k].data[..size]
  {
    ValidIsNotInFlight(r, k, size);
    IntactReadsBack(r.hist, r.flushed, k, size);
    var lo := r.hist.log[k].offset;
    var image := Replay(r.hist, r.flushed);
    assert forall x | lo <= x < lo + size :: r.disk[x] == image[x];
  }

  /**
   In every run without a storage error, an allocation that the stripe calls
   valid still holds exactly the bytes that were added, also while another
   write is in flight.
   */
  lemma ReadBack(r0: Ring, steps: seq<Step>, k: nat, size: nat)
    requires Init(r0) && Allowed(r0, steps)
    requires
      var r := Exec(r0, steps);
      && !r.stripe.storageErr
      && r.base <= k < |r.hist.log| && size <= |r.hist.log[k].data|
      && AllocationValid(r.stripe, AllocationOf(r, k), size)
    ensures
      var r, a := Exec(r0, steps), AllocationOf(Exec(r0, steps), k);
      && 0 <= a.offset && a.offset + size <= |r.disk|
      && r.disk[a.offset..a.offset + size] == r.hist.log[k].data[..size]
  {
    InitInv(r0);
    RunKeeps(r0, steps);
    ValidReadsBack(Exec(r0, steps), k, size);
  }

  predicate Untouched(h: History, k: nat)
    requires k < |h.log|
  {
    forall j | k < j < |h.log| :: !Overlaps(h.log[j], h.log[k].offset, h.log[k].End())
  }

  /** A written record over which nothing later has been placed is on the disk. */
  lemma UntouchedIsOnDisk(r: Ring, k: nat)
    requires Live(r) && k < r.flushed && Untouched(r.hist, k)
    ensures 0 <= r.hist.log[k].offset && r.hist.log[k].End() <= |r.disk|
    ensures r.disk[r.hist.log[k].offset..r.hist.log[k].End()] == r.hist.log[k].data
  {
    var rec := r.hist.log[k];
    assert RecordOk(r.hist, k);
    forall x | rec.offset <= x < rec.End() ensures r.disk[x] == rec.data[x - rec.offset] {
      if r.worker.Writing? && r.stripe.writingStart <= x < r.stripe.writingEnd {
        TaskInside(r);
        JoinedLength(r.hist, r.flushed, r.sealed);
        var _ := RunIsCovered(r.hist, r.flushed, r.sealed, x);
      }
      assert forall j | k < j < r.flushed :: !Overlaps(r.hist.log[j], rec.offset, rec.End());
      ReplayKeeps(r.hist, k, r.flushed, x);
    }
  }

  /**
   A flush through `target` reports success only when every record with a
   sequence up to `target` has been written and acknowledged without an error:
   its bytes are on the disk unless a later record has been placed over them.
   */
  lemma FlushBarrier(r0: Ring, steps: seq<Step>, target: nat, cancelled: bool, k: nat)
    requires Init(r0) && Allowed(r0, steps)
    requires
      var r := Exec(r0, steps);
      && FlushPoll(r.agg, target, cancelled).2 == FlushDone
      && r.base <= k < |r.hist.log| && AllocationOf(r, k).sequence <= target
    ensures
      var r := Exec(r0, steps);
      && !r.stripe.storageErr && !r.agg.failed
      && k < r.base + r.agg.completed <= r.flushed
      && (Untouched(r.hist, k) ==>
            && 0 <= r.hist.log[k].offset && r.hist.log[k].End() <= |r.disk|
            && r.disk[r.hist.log[k].offset..r.hist.log[k].End()] == r.hist.log[k].data)
  {
    InitInv(r0);
    RunKeeps(r0, steps);
    var r := Exec(r0, steps);
    if Untouched(r.hist, k) { UntouchedIsOnDisk(r, k); }
  }

  // ---------------------------------------------- one phase bit suffices

  /** A record that is published is not two generations older than a write in flight, and no phase bit changes. */
  predicate TimelyStep(r: Ring, step: Step)
    requires Enabled(r, step)
  {
    && (step.Publish? && r.worker.Writing? ==> r.worker.task.generation <= r.hist.log[step.rec].generation + 1)
    && (step.Rephase? ==> step.phase == r.dir[step.key].phase)
  }

  predicate Timely(r: Ring, steps: seq<Step>)
    requires Allowed(r, steps)
    decreases |steps|
  {
    steps == [] || (TimelyStep(r, steps[0]) && Timely(Apply(r, steps[0]), steps[1..]))
  }

  /** Removing one phase before it is used again leaves only current entries. */
  lemma StartKeepsCurrent(r: Ring)
    requires Live(r) && DirCurrent(r) && r.worker.Queued?
    ensures Live(StartRing(r)) && DirCurrent(StartRing(r))
  {
    StartKeeps(r);
    TaskInside(r);
    var r' := StartRing(r);
    forall k | k in r'.dir ensures EntryCurrent(r', r'.dir[k]) {
      assert EntryOk(r, r.dir[k]) && EntryCurrent(r, r.dir[k]);
      RecordBefore(r.hist, r.dir[k].rec, r.flushed);
    }
  }

  /** Steps that publish nothing and start no write only drop entries. */
  lemma DroppingKeepsCurrent(r: Ring, r': Ring)
    requires Live(r) && Live(r') && DirCurrent(r)
    requires r.hist.log <= r'.hist.log
    requires forall k | k in r'.dir :: k in r.dir && r'.dir[k] == r.dir[k]
    requires r'.stripe.generation == r.stripe.generation
             || (r.worker.Writing? && r'.stripe.generation == r.worker.task.generation)
    requires r'.worker.Writing? ==> r'.worker == r.worker
    ensures DirCurrent(r')
  {
    forall k | k in r'.dir ensures EntryCurrent(r', r'.dir[k]) {
      assert EntryOk(r, r.dir[k]) && EntryCurrent(r, r.dir[k]);
    }
  }

  lemma PublishKeepsCurrent(r: Ring, step: Step)
    requires Live(r) && DirCurrent(r) && step.Publish? && Enabled(r, step) && TimelyStep(r, step)
    ensures Live(Apply(r, step)) && DirCurrent(Apply(r, step))
  {
    PublishKeeps(r, step.key, step.rec, step.approxSize);
    var r' := Apply(r, step);
    forall k | k in r'.dir ensures EntryCurrent(r', r'.dir[k]) {
      if k != step.key { assert EntryOk(r, r.dir[k]) && EntryCurrent(r, r.dir[k]); }
    }
  }

  lemma AddOnlyExtends(r: Ring, data: seq<Byte>, checks: nat)
    requires Live(r)
    ensures
      var r' := AddRing(r, data, checks);
      && r.hist.log <= r'.hist.log
      && r' == r.(agg := r'.agg, hist := r.hist.(log := r'.hist.log), worker := r'.worker, sealed := r'.sealed)
      && (r'.worker == r.worker || r'.worker.Queued?)
      && r'.agg.completed == r.agg.completed
  {
    MakeRoomAgrees(r, |data|, checks);
  }

  /** A step leaves only current entries exactly if it is timely. */
  lemma StepKeepsCurrentExactly(r: Ring, step: Step)
    requires Live(r) && DirCurrent(r) && Enabled(r, step) && !Apply(r, step).stripe.storageErr
    ensures Live(Apply(r, step)) && (DirCurrent(Apply(r, step)) <==> TimelyStep(r, step))
  {
    StepKeeps(r, step);
    if !TimelyStep(r, step) {
      UntimelyIsNotCurrent(r, step);
    } else if step.StartWrite? {
      StartKeepsCurrent(r);
    } else if step.Publish? {
      PublishKeepsCurrent(r, step);
    } else {
      OthersKeepCurrent(r, step);
    }
  }

  lemma OthersKeepCurrent(r: Ring, step: Step)
    requires Live(r) && DirCurrent(r) && Enabled(r, step) && Live(Apply(r, step))
    requires !step.StartWrite? && !step.Publish? && TimelyStep(r, step)
    ensures DirCurrent(Apply(r, step))
  {
    if step.Add? { AddOnlyExtends(r, step.data, step.checks); }
    DroppingKeepsCurrent(r, Apply(r, step));
  }

  lemma UntimelyIsNotCurrent(r: Ring, step: Step)
    requires Live(r) && DirCurrent(r) && Enabled(r, step) && !TimelyStep(r, step)
    ensures Live(Apply(r, step)) && step.key in Apply(r, step).dir && !DirCurrent(Apply(r, step))
  {
    StepKeeps(r, step);
    var r' := Apply(r, step);
    assert EntryOk(r', r'.dir[step.key]);
    if step.Rephase? {
      assert EntryOk(r, r.dir[step.key]) && EntryCurrent(r, r.dir[step.key]);
    }
    assert !EntryCurrent(r', r'.dir[step.key]);
  }

  lemma {:induction false} RunKeepsCurrent(r: Ring, steps: seq<Step>)
    requires Live(r) && DirCurrent(r) && Allowed(r, steps) && Timely(r, steps)
    requires !Exec(r, steps).stripe.storageErr
    ensures Live(Exec(r, steps)) && DirCurrent(Exec(r, steps))
    decreases |steps|
  {
    if steps != [] {
      StepKeeps(r, steps[0]);
      RunKeeps(Apply(r, steps[0]), steps[1..]);
      StepKeepsCurrentExactly(r, steps[0]);
      RunKeepsCurrent(Apply(r, steps[0]), steps[1..]);
    }
  }

  /** The generation that a phase bit stands for, if there is one. */
  function NamedGeneration(s: Stripe, phase: bool): Option<nat> {
    if phase == Phase(s.generation) then Some(s.generation)
    else if s.generation == 0 then None
    else Some(s.generation - 1)
  }

  /** The entry's bit names the generation its record was written in. */
  predicate NamedRight(r: Ring, d: Entry)
    requires EntryOk(r, d)
  {
    NamedGeneration(r.stripe, d.phase) == Some(r.hist.log[d.rec].generation)
  }

  /** Among current entries, one bit names the generation. */
  lemma PhaseNamesGeneration(r: Ring, d: Entry)
    requires Live(r) && EntryOk(r, d) && EntryCurrent(r, d)
    ensures NamedRight(r, d)
  {
    RecordBefore(r.hist, d.rec, r.flushed);
  }

  lemma CurrentValidIsAllocationValid(r: Ring, d: Entry)
    requires Live(r) && EntryOk(r, d) && EntryCurrent(r, d) && DirValid(r.stripe, d)
    ensures AllocationValid(r.stripe, PlaceOf(r, d.rec), |r.hist.log[d.rec].data|)
  {
    RecordBefore(r.hist, d.rec, r.flushed);
    assert RecordOk(r.hist, d.rec);
    if r.worker.Writing? { TaskInside(r); }
  }

  /**
   In every run that publishes in time and changes no phase bit, a directory entry that the stripe calls
   valid leads to an intact record, and its phase bit names the generation that
   record was written in.
   */
  lemma PhaseBitSound(r0: Ring, steps: seq<Step>, k: Key)
    requires Init(r0) && Allowed(r0, steps) && Timely(r0, steps)
    requires k in Exec(r0, steps).dir && DirValid(Exec(r0, steps).stripe, Exec(r0, steps).dir[k])
    ensures
      var r, d := Exec(r0, steps), Exec(r0, steps).dir[k];
      && d.rec < |r.hist.log|
      && 0 <= d.offset && d.offset + |r.hist.log[d.rec].data| <= |r.disk|
      && r.disk[d.offset..d.offset + |r.hist.log[d.rec].data|] == r.hist.log[d.rec].data
      && NamedGeneration(r.stripe, d.phase) == Some(r.hist.log[d.rec].generation)
  {
    InitInv(r0);
    RunKeepsCurrent(r0, steps);
    var r := Exec(r0, steps);
    assert EntryOk(r, r.dir[k]) && EntryCurrent(r, r.dir[k]);
    CurrentValidReadsBack(r, r.dir[k]);
    PhaseNamesGeneration(r, r.dir[k]);
  }

  // ------------------------------------------------------- two instants

  /** Published after the first instant, hence for a record that was intact then or is newer. */
  predicate PublishedSince(r0: Ring, r1: Ring, d: Entry)
    requires EntryOk(r1, d) && r0.flushed <= |r1.hist.log|
  {
    && r0.stripe.generation <= r1.hist.log[d.rec].generation + 1
    && forall j | d.rec < j < r0.flushed :: !Overlaps(r1.hist.log[j], d.offset, d.offset + 1)
  }

  predicate SameButPhase(d0: Entry, d1: Entry) { d1 == d0.(phase := d1.phase) }

  /** `r1` comes after `r0` in some run: what only grows, and what an entry may be. */
  predicate Later(r0: Ring, r1: Ring)
    requires Live(r0) && Live(r1)
  {
    && r1.hist == r0.hist.(log := r1.hist.log) && r0.hist.log <= r1.hist.log
    && r0.base == r1.base
    && r0.flushed <= r1.flushed && r0.agg.completed <= r1.agg.completed
    && r0.stripe.generation <= r1.stripe.generation
    && r0.stamps <= r1.stamps
    && forall k | k in r1.dir :: EntryOk(r1, r1.dir[k]) && EntryLater(r0, r1, k)
  }

  /** An entry is as it was at the first instant, up to its phase bit, or has been published since. */
  predicate EntryLater(r0: Ring, r1: Ring, k: Key)
    requires k in r1.dir && EntryOk(r1, r1.dir[k]) && r0.flushed <= |r1.hist.log|
  {
    if r1.dir[k].stamp < r0.stamps then k in r0.dir && SameButPhase(r0.dir[k], r1.dir[k]) else PublishedSince(r0, r1, r1.dir[k])
  }

  lemma LaterTransitive(r0: Ring, r1: Ring, r2: Ring)
    requires Live(r0) && Live(r1) && Live(r2) && Later(r0, r1) && Later(r1, r2)
    ensures Later(r0, r2)
  {
    forall k | k in r2.dir ensures EntryOk(r2, r2.dir[k]) && EntryLater(r0, r2, k) {
      EntryTransitive(r0, r1, r2, k);
    }
  }

  lemma EntryTransitive(r0: Ring, r1: Ring, r2: Ring, k: Key)
    requires Live(r0) && Live(r1) && Live(r2) && Later(r0, r1) && Later(r1, r2) && k in r2.dir
    ensures EntryOk(r2, r2.dir[k]) && EntryLater(r0, r2, k)
  {
    var d := r2.dir[k];
    assert EntryOk(r2, d) && EntryLater(r1, r2, k);
    if d.stamp < r1.stamps {
      assert EntryOk(r1, r1.dir[k]) && EntryLater(r0, r1, k);
      if r0.stamps <= d.stamp {
        assert forall j | d.rec < j < r0.flushed :: r2.hist.log[j] == r1.hist.log[j];
      }
    }
  }

  lemma PublishIsLater(r: Ring, key: Key, k: nat, approxSize: nat)
    requires Live(r) && Enabled(r, Publish(key, k, approxSize))
    ensures Live(Apply(r, Publish(key, k, approxSize))) && Later(r, Apply(r, Publish(key, k, approxSize)))
  {
    PublishKeeps(r, key, k, approxSize);
    var r' := Apply(r, Publish(key, k, approxSize));
    assert RecordOk(r.hist, k);
    forall j | k < j < r.flushed ensures !Overlaps(r.hist.log[j], r.hist.log[k].offset, r.hist.log[k].offset + 1) {
      IntactIsNotOverwritten(r.hist, r.flushed, k, |r.hist.log[k].data|, j);
    }
    assert PublishedSince(r, r', r'.dir[key]);
    forall j | j in r'.dir && j != key ensures EntryOk(r', r'.dir[j]) && r'.dir[j].stamp < r.stamps {
      assert EntryOk(r, r.dir[j]);
    }
  }

  lemma DroppingIsLater(r: Ring, r': Ring)
    requires Live(r) && Live(r')
    requires r'.hist == r.hist.(log := r'.hist.log) && r.hist.log <= r'.hist.log
    requires r'.base == r.base && r'.stamps == r.stamps && r.flushed <= r'.flushed
    requires r.agg.completed <= r'.agg.completed && r.stripe.generation <= r'.stripe.generation
    requires forall k | k in r'.dir :: k in r.dir && SameButPhase(r.dir[k], r'.dir[k])
    ensures Later(r, r')
  {
    forall k | k in r'.dir ensures EntryOk(r', r'.dir[k]) && r'.dir[k].stamp < r.stamps {
      assert EntryOk(r, r.dir[k]);
    }
  }

  /** Steps other than these two only drop entries, and nothing moves back. */
  lemma OnlyDrops(r: Ring, step: Step)
    requires Live(r) && Enabled(r, step) && !step.Publish? && !step.Rephase? && !Apply(r, step).stripe.storageErr
    ensures
      var r' := Apply(r, step);
      && r'.hist == r.hist.(log := r'.hist.log) && r.hist.log <= r'.hist.log
      && r'.base == r.base && r'.stamps == r.stamps && r.flushed <= r'.flushed
      && r.agg.completed <= r'.agg.completed && r.stripe.generation <= r'.stripe.generation
      && forall k | k in r'.dir :: k in r.dir && r'.dir[k] == r.dir[k]
  {
    if step.Add? { AddOnlyExtends(r, step.data, step.checks); }
    if step.FinishWrite? { TaskInside(r); }
  }

  lemma StepIsLater(r: Ring, step: Step)
    requires Live(r) && Enabled(r, step) && !Apply(r, step).stripe.storageErr
    ensures Live(Apply(r, step)) && Later(r, Apply(r, step))
  {
    StepKeeps(r, step);
    if step.Publish? {
      PublishIsLater(r, step.key, step.rec, step.approxSize);
    } else {
      if !step.Rephase? { OnlyDrops(r, step); }
      DroppingIsLater(r, Apply(r, step));
    }
  }

  lemma {:induction false} RunIsLater(r: Ring, steps: seq<Step>)
    requires Live(r) && Allowed(r, steps) && !Exec(r, steps).stripe.storageErr
    ensures Live(Exec(r, steps)) && Later(r, Exec(r, steps))
    decreases |steps|
  {
    if steps != [] {
      var r1 := Apply(r, steps[0]);
      StepKeeps(r, steps[0]);
      RunKeeps(r1, steps[1..]);
      StepIsLater(r, steps[0]);
      RunIsLater(r1, steps[1..]);
      LaterTransitive(r, r1, Exec(r1, steps[1..]));
    }
  }

  // -------------------------------------------------------- no ABA

  /** In one generation an offset belongs to one record. */
  lemma SamePlaceSameRecord(h: History, i: nat, j: nat)
    requires WellFormed(h) && i < |h.log| && j < |h.log|
    requires h.log[i].generation == h.log[j].generation && h.log[i].offset == h.log[j].offset
    ensures i == j
  {
    assert RecordOk(h, i) && RecordOk(h, j);
    if i < j { RecordBefore(h, i, j); RecordAfter(h, j, j); }
    if j < i { RecordBefore(h, j, i); RecordAfter(h, i, i); }
  }

  /**
   A failed writer that finds its key at its own offset, with its own
   allocation still valid, finds its own entry: whatever happened since it
   published, the entry it removes is not a later one.
   */
  lemma AbortRemovesOwnEntry(r0: Ring, key: Key, k: nat, approxSize: nat, steps: seq<Step>, size: nat)
    requires Live(r0) && Enabled(r0, Publish(key, k, approxSize))
    requires Allowed(Apply(r0, Publish(key, k, approxSize)), steps)
    requires
      var r := Exec(Apply(r0, Publish(key, k, approxSize)), steps);
      && !r.stripe.storageErr && key in r.dir
      && 0 < size <= |r0.hist.log[k].data|
      && r.dir[key].offset == r0.hist.log[k].offset
      && AllocationValid(r.stripe, AllocationOf(r0, k), size)
    ensures Exec(Apply(r0, Publish(key, k, approxSize)), steps).dir[key].rec == k
  {
    var r1 := Apply(r0, Publish(key, k, approxSize));
    PublishKeeps(r0, key, k, approxSize);
    RunIsLater(r1, steps);
    var r := Exec(r1, steps);
    var d := r.dir[key];
    assert EntryOk(r, d) && RecordOk(r.hist, d.rec);
    assert r.hist.log[k] == r0.hist.log[k];
    if d.stamp >= r1.stamps {
      assert PublishedSince(r1, r, d);
      if k < d.rec {
        IntactIsNotOverwritten(r.hist, r.flushed, k, size, d.rec);
      }
    }
  }

  /**
   The check a writer makes on each of its fragments before it commits is
   sound: the entry is its own and its bytes are on the disk.
   */
  lemma CommitCheckSound(r0: Ring, key: Key, k: nat, approxSize: nat, steps: seq<Step>, size: nat)
    requires Live(r0) && Enabled(r0, Publish(key, k, approxSize))
    requires Allowed(Apply(r0, Publish(key, k, approxSize)), steps)
    requires
      var r := Exec(Apply(r0, Publish(key, k, approxSize)), steps);
      && !r.stripe.storageErr && key in r.dir
      && 0 < size <= |r0.hist.log[k].data|
      && r.dir[key].offset == r0.hist.log[k].offset
      && AllocationValid(r.stripe, AllocationOf(r0, k), size)
    ensures
      var r, a := Exec(Apply(r0, Publish(key, k, approxSize)), steps), AllocationOf(r0, k);
      && r.dir[key].rec == k && 0 <= a.offset && a.offset + size <= |r.disk|
      && r.disk[a.offset..a.offset + size] == r0.hist.log[k].data[..size]
  {
    AbortRemovesOwnEntry(r0, key, k, approxSize, steps, size);
    StillRecorded(r0, key, k, approxSize, steps);
    ValidReadsBack(Exec(Apply(r0, Publish(key, k, approxSize)), steps), k, size);
  }

  /** Records stay in the history. */
  lemma StillRecorded(r0: Ring, key: Key, k: nat, approxSize: nat, steps: seq<Step>)
    requires Live(r0) && Enabled(r0, Publish(key, k, approxSize))
    requires Allowed(Apply(r0, Publish(key, k, approxSize)), steps)
    requires !Exec(Apply(r0, Publish(key, k, approxSize)), steps).stripe.storageErr
    ensures
      var r := Exec(Apply(r0, Publish(key, k, approxSize)), steps);
      Live(r) && k < |r.hist.log| && r.hist.log[k] == r0.hist.log[k] && r.base == r0.base
  {
    PublishKeeps(r0, key, k, approxSize);
    RunIsLater(Apply(r0, Publish(key, k, approxSize)), steps);
  }

  /** What a comparison with a snapshot checks: same offset, same phase, and not more than a lap since the generation that the snapshot's bit names. */
  predicate Passes(r0: Ring, was: Entry, r: Ring, head: Entry) {
    && head.offset == was.offset && head.phase == was.phase
    && NamedGeneration(r0.stripe, was.phase).Some?
    && r.stripe.generation <= NamedGeneration(r0.stripe, was.phase).value + 1
  }

  /** An entry that has been published since the snapshot and passes for it is of the generation that the snapshot's bit names. */
  lemma PassingIsOfNamed(r0: Ring, was: Entry, r: Ring, head: Entry)
    requires Live(r0) && Live(r) && Later(r0, r) && EntryOk(r, head) && PublishedSince(r0, r, head)
    requires Passes(r0, was, r, head) && PhaseOk(r, head)
    ensures r.hist.log[head.rec].generation == NamedGeneration(r0.stripe, was.phase).value
  {
    RecordBefore(r.hist, head.rec, r.flushed);
  }

  /**
   The current entry of a key passes for a snapshot entry. If the snapshot's bit
   named its generation, they are entries for the same record exactly if the
   current entry has the phase of its record. If not, and the current entry has
   its phase, exactly if nothing has been published under the key since.
   */
  lemma SnapshotIsCurrent(r0: Ring, steps: seq<Step>, key: Key)
    requires Live(r0) && Allowed(r0, steps) && !Exec(r0, steps).stripe.storageErr
    requires key in r0.dir && key in Exec(r0, steps).dir
    requires Passes(r0, r0.dir[key], Exec(r0, steps), Exec(r0, steps).dir[key])
    ensures
      var r, was, head := Exec(r0, steps), r0.dir[key], Exec(r0, steps).dir[key];
      && EntryOk(r0, was) && EntryOk(r, head)
      && (NamedRight(r0, was) ==> (head.rec == was.rec <==> PhaseOk(r, head)))
      && (!NamedRight(r0, was) && PhaseOk(r, head) ==> (head.rec == was.rec <==> head.stamp < r0.stamps))
  {
    RunIsLater(r0, steps);
    var r, was, head := Exec(r0, steps), r0.dir[key], Exec(r0, steps).dir[key];
    assert EntryOk(r, head) && EntryOk(r0, was);
    if head.stamp < r0.stamps {
      PassesAsBefore(r0, was, r, head);
    } else {
      PassesSince(r0, was, r, head);
    }
  }

  lemma PassesAsBefore(r0: Ring, was: Entry, r: Ring, head: Entry)
    requires Live(r0) && Live(r) && Later(r0, r) && EntryOk(r0, was) && EntryOk(r, head) && SameButPhase(was, head)
    requires Passes(r0, was, r, head)
    ensures head.rec == was.rec && (NamedRight(r0, was) ==> PhaseOk(r, head))
  {
    assert r.hist.log[was.rec] == r0.hist.log[was.rec];
  }

  lemma PassesSince(r0: Ring, was: Entry, r: Ring, head: Entry)
    requires Live(r0) && Live(r) && Later(r0, r) && EntryOk(r0, was) && EntryOk(r, head) && PublishedSince(r0, r, head)
    requires Passes(r0, was, r, head)
    ensures NamedRight(r0, was) ==> (head.rec == was.rec <==> PhaseOk(r, head))
    ensures !NamedRight(r0, was) && PhaseOk(r, head) ==> head.rec != was.rec
  {
    assert r.hist.log[was.rec] == r0.hist.log[was.rec];
    if PhaseOk(r, head) {
      PassingIsOfNamed(r0, was, r, head);
      if NamedRight(r0, was) { SamePlaceSameRecord(r.hist, head.rec, was.rec); }
    }
  }

  /** No step of the run changes a phase bit. */
  predicate Steady(r: Ring, steps: seq<Step>)
    requires Allowed(r, steps)
    decreases |steps|
  {
    steps == []
    || ((steps[0].Rephase? ==> steps[0].phase == r.dir[steps[0].key].phase) && Steady(Apply(r, steps[0]), steps[1..]))
  }

  predicate PhasesOk(r: Ring)
    requires DirOk(r)
  {
    forall k | k in r.dir :: PhaseOk(r, r.dir[k])
  }

  lemma SteadyStepKeepsPhases(r: Ring, step: Step)
    requires Live(r) && PhasesOk(r) && Enabled(r, step) && !Apply(r, step).stripe.storageErr
    requires step.Rephase? ==> step.phase == r.dir[step.key].phase
    ensures Live(Apply(r, step)) && PhasesOk(Apply(r, step))
  {
    StepKeeps(r, step);
    var r' := Apply(r, step);
    if !step.Publish? && !step.Rephase? { OnlyDrops(r, step); }
    forall k | k in r'.dir ensures PhaseOk(r', r'.dir[k]) {
      if !step.Publish? || k != step.key { assert EntryOk(r, r.dir[k]) && PhaseOk(r, r.dir[k]); }
    }
  }

  /** In such a run every entry keeps the phase of its record. */
  lemma {:induction false} SteadyKeepsPhases(r: Ring, steps: seq<Step>)
    requires Live(r) && PhasesOk(r) && Allowed(r, steps) && Steady(r, steps) && !Exec(r, steps).stripe.storageErr
    ensures Live(Exec(r, steps)) && PhasesOk(Exec(r, steps))
    decreases |steps|
  {
    if steps != [] {
      var r1 := Apply(r, steps[0]);
      StepKeeps(r, steps[0]);
      RunKeeps(r1, steps[1..]);
      SteadyStepKeepsPhases(r, steps[0]);
      SteadyKeepsPhases(r1, steps[1..]);
    }
  }

  /**
   Invalidation removes a listed head when it equals the snapshot and the
   snapshot's allocation is still valid in its first byte. The head it removes
   is the snapshot's, never one published later, whatever number of laps the
   ring has made, under the conditions above; a run that changes no phase bit
   keeps the second one.
   */
  lemma InvalidationRemovesSnapshot(r0: Ring, steps: seq<Step>, key: Key)
    requires Live(r0) && Allowed(r0, steps) && !Exec(r0, steps).stripe.storageErr
    requires key in r0.dir && key in Exec(r0, steps).dir
    requires
      var r, was, head := Exec(r0, steps), r0.dir[key], Exec(r0, steps).dir[key];
      && head.offset == was.offset && head.phase == was.phase && head.approxSize == was.approxSize
      && NamedGeneration(r0.stripe, was.phase).Some?
      && AllocationValid(r.stripe, Allocation(was.offset, NamedGeneration(r0.stripe, was.phase).value, 0), 1)
    ensures
      var r, was, head := Exec(r0, steps), r0.dir[key], Exec(r0, steps).dir[key];
      && EntryOk(r0, was) && EntryOk(r, head)
      && (NamedRight(r0, was) ==> (head.rec == was.rec <==> PhaseOk(r, head)))
      && (!NamedRight(r0, was) && PhaseOk(r, head) ==> (head.rec == was.rec <==> head.stamp < r0.stamps))
      && (PhasesOk(r0) && Steady(r0, steps) ==> PhaseOk(r, head))
  {
    SnapshotIsCurrent(r0, steps, key);
    if PhasesOk(r0) && Steady(r0, steps) { SteadyKeepsPhases(r0, steps); }
  }

  /**
   Evacuation copied a record when it was about to be overwritten and swaps the
   copy in later. If the checks before the swap succeed, the entry was current
   when it was copied, and the entry it replaces has the phase of its record,
   that is the record it copied, so the key keeps its contents.
   */
  lemma EvacuationKeepsContents(r0: Ring, steps: seq<Step>, key: Key, copy: nat)
    requires Live(r0) && Allowed(r0, steps) && !Exec(r0, steps).stripe.storageErr
    requires key in r0.dir && DirValid(r0.stripe, r0.dir[key]) && key in Exec(r0, steps).dir
    requires
      var r, was, current := Exec(r0, steps), r0.dir[key], Exec(r0, steps).dir[key];
      && EntryOk(r0, was) && EntryCurrent(r0, was)
      && Passes(r0, was, r, current)
      && copy < |r.hist.log|
      && was.offset >= 0 && was.offset + |r.hist.log[copy].data| <= |r0.disk|
      && |r.hist.log[copy].data| == |r0.hist.log[was.rec].data|
      && r.hist.log[copy].data == r0.disk[was.offset..was.offset + |r.hist.log[copy].data|]
    ensures
      var r, current := Exec(r0, steps), Exec(r0, steps).dir[key];
      && EntryOk(r, current)
      && (PhaseOk(r, current) || (PhasesOk(r0) && Steady(r0, steps)) ==>
            current.rec == r0.dir[key].rec && r.hist.log[copy].data == r.hist.log[current.rec].data)
  {
    var r, was := Exec(r0, steps), r0.dir[key];
    PhaseNamesGeneration(r0, was);
    SnapshotIsCurrent(r0, steps, key);
    if PhasesOk(r0) && Steady(r0, steps) { SteadyKeepsPhases(r0, steps); }
    RunIsLater(r0, steps);
    CurrentValidReadsBack(r0, was);
    assert r.hist.log[was.rec] == r0.hist.log[was.rec];
  }

  /**
   A changed bit does fool these checks: an entry that was published in the next
   generation at the offset of the snapshot passes for it.
   */
  lemma ChangedBitPassesForSnapshot(r0: Ring, steps: seq<Step>, key: Key)
    requires Live(r0) && Allowed(r0, steps) && !Exec(r0, steps).stripe.storageErr
    requires key in r0.dir && key in Exec(r0, steps).dir
    requires
      var r, was, head := Exec(r0, steps), r0.dir[key], Exec(r0, steps).dir[key];
      && EntryOk(r0, was) && NamedRight(r0, was) && EntryOk(r, head) && head.offset == was.offset
      && r.hist.log[head.rec].generation == r.stripe.generation == r0.hist.log[was.rec].generation + 1
    ensures
      var flip, was := Rephase(key, r0.dir[key].phase), r0.dir[key];
      && Enabled(Exec(r0, steps), flip)
      && var r := Apply(Exec(r0, steps), flip);
         Passes(r0, was, r, r.dir[key]) && r.dir[key].rec != was.rec
  {
    RunIsLater(r0, steps);
    var r, was := Exec(r0, steps), r0.dir[key];
    assert r.hist.log[was.rec] == r0.hist.log[was.rec];
  }

  /** An entry that was published late is named two generations too high once the stripe is in the generation it was late for. */
  lemma LateIsNamedTooHigh(r: Ring, d: Entry)
    requires Live(r) && EntryOk(r, d) && PhaseOk(r, d)
    requires r.hist.log[d.rec].generation + 2 <= r.stripe.generation <= r.hist.log[d.rec].generation + 3
    ensures NamedGeneration(r.stripe, d.phase) == Some(r.hist.log[d.rec].generation + 2) && !NamedRight(r, d)
  {
  }

  /** So does a snapshot of such an entry: one that is published two generations later at its offset passes for it, with no bit changed. */
  lemma LatePassesForSnapshot(r0: Ring, steps: seq<Step>, key: Key)
    requires Live(r0) && Allowed(r0, steps) && !Exec(r0, steps).stripe.storageErr
    requires key in r0.dir && key in Exec(r0, steps).dir
    requires
      var r, was, head := Exec(r0, steps), r0.dir[key], Exec(r0, steps).dir[key];
      && EntryOk(r0, was) && PhaseOk(r0, was) && EntryOk(r, head) && PhaseOk(r, head) && head.offset == was.offset
      && r0.hist.log[was.rec].generation + 2 == r.hist.log[head.rec].generation
      && r0.hist.log[was.rec].generation + 2 <= r0.stripe.generation <= r.stripe.generation <= r0.hist.log[was.rec].generation + 3
    ensures Passes(r0, r0.dir[key], Exec(r0, steps), Exec(r0, steps).dir[key])
    ensures Exec(r0, steps).dir[key].rec != r0.dir[key].rec
  {
    RunIsLater(r0, steps);
    LatePasses(r0, r0.dir[key], Exec(r0, steps), Exec(r0, steps).dir[key]);
  }

  lemma LatePasses(r0: Ring, was: Entry, r: Ring, head: Entry)
    requires Live(r0) && Live(r) && Later(r0, r)
    requires EntryOk(r0, was) && PhaseOk(r0, was) && EntryOk(r, head) && PhaseOk(r, head) && head.offset == was.offset
    requires r0.hist.log[was.rec].generation + 2 == r.hist.log[head.rec].generation
    requires r0.hist.log[was.rec].generation + 2 <= r0.stripe.generation <= r.stripe.generation <= r0.hist.log[was.rec].generation + 3
    ensures Passes(r0, was, r, head) && head.rec != was.rec
  {
    LateIsNamedTooHigh(r0, was);
    assert r.hist.log[was.rec] == r0.hist.log[was.rec];
  }

  /** A valid entry reads back the whole record it was published for. */
  lemma CurrentValidReadsBack(r: Ring, d: Entry)
    requires Live(r) && EntryOk(r, d) && EntryCurrent(r, d) && DirValid(r.stripe, d)
    ensures
      && d.rec < |r.hist.log| && 0 <= d.offset && d.offset + |r.hist.log[d.rec].data| <= |r.disk|
      && r.disk[d.offset..d.offset + |r.hist.log[d.rec].data|] == r.hist.log[d.rec].data
  {
    CurrentValidIsAllocationValid(r, d);
    var data := r.hist.log[d.rec].data;
    ValidReadsBack(r, d.rec, |data|);
    assert data[..|data|] == data;
  }
}
