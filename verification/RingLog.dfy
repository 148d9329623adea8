/**
 The ring log as a step system: writers add records, the buffer hands batches
 to one disk worker, the worker writes them without holding the stripe lock,
 and directory entries are published and removed in between.

 One step is one mutex-protected section. The unlocked disk write is three
 kinds of step: it starts, it changes some bytes of its region, it finishes.
 */
module RingLog {
  import opened Common
  import opened AggregateBuffer
  import opened History

  type Key = string

  /** The fields of a stripe that its lock protects. */
  datatype Stripe = Stripe(
    start: int,
    limit: int,
    writePos: int,
    phase: bool,
    generation: nat,
    writingStart: int,
    writingEnd: int,
    writingGeneration: nat,
    storageErr: bool)

  /**
   A directory entry. `rec` and `stamp` are history: which record it was
   published for, and how many publications came before it.
   */
  datatype Entry = Entry(offset: int, phase: bool, approxSize: nat, rec: nat, stamp: nat)

  datatype Worker = Idle | Queued(task: FlushTask) | Writing(task: FlushTask) | Acking(failure: bool)

  /**
   `log` in the history holds every record given a place: the first `flushed`
   are on disk, those up to `sealed` are with the worker, the rest are in the
   active buffer. The first `base` were recovered when the stripe was opened.
   */
  datatype Ring = Ring(
    agg: Agg,
    stripe: Stripe,
    worker: Worker,
    disk: seq<Byte>,
    dir: map<Key, Entry>,
    hist: History,
    base: nat,
    flushed: nat,
    sealed: nat,
    stamps: nat)

  predicate Phase(generation: nat) { generation % 2 != 0 }

  predicate AllocationValid(s: Stripe, a: Allocation, size: nat) {
    && !(s.writingEnd > 0 && a.generation != s.writingGeneration && a.offset < s.writingEnd && a.offset + size > s.writingStart)
    && !(a.offset < s.start || a.offset + size > s.limit)
    && ((a.generation == s.generation && a.offset + size <= s.writePos)
        || (a.generation + 1 == s.generation && a.offset >= s.writePos))
  }

  predicate DirValid(s: Stripe, d: Entry) {
    && !(s.writingEnd > 0 && d.phase != Phase(s.writingGeneration) && d.offset < s.writingEnd && d.offset + d.approxSize > s.writingStart)
    && !(s.storageErr || d.offset < s.start || d.offset >= s.limit)
    && if d.phase == s.phase then d.offset < s.writePos else d.offset >= s.writePos
  }

  /** The allocation that was returned for record `k`. */
  function AllocationOf(r: Ring, k: nat): Allocation
    requires r.base <= k < |r.hist.log|
  {
    Allocation(r.hist.log[k].offset, r.hist.log[k].generation, k - r.base + 1)
  }

  /** The place of a record, whether it was allocated in this session or recovered. */
  function PlaceOf(r: Ring, k: nat): Allocation
    requires k < |r.hist.log|
  {
    Allocation(r.hist.log[k].offset, r.hist.log[k].generation, if r.base <= k then k - r.base + 1 else 0)
  }

  // ---------------------------------------------------------------- steps

  /**
   `Rephase` is a back link of the directory's free list that lands on an entry
   and spells its tag: the entry is still found, and its phase bit is a bit of
   the link.
   */
  datatype Step =
    | Add(data: seq<Byte>, checks: nat)
    | TriggerFlush
    | StartWrite
    | WriteSome(image: seq<Byte>)
    | FinishWrite(ok: bool, image: seq<Byte>)
    | Acknowledge
    | Publish(key: Key, rec: nat, approxSize: nat)
    | Remove(key: Key)
    | Rephase(key: Key, phase: bool)
    | StopAdds
    | FailStorage

  function SwapRing(r: Ring): Ring {
    if CanSwap(r.agg) then
      r.(agg := Swap(r.agg), worker := Queued(Emitted(r.agg).value), sealed := |r.hist.log|)
    else r
  }

  function WrapRing(r: Ring): Ring {
    var r1 := SwapRing(r);
    r1.(agg := r1.agg.(cursor := r1.agg.minOffset, generation := r1.agg.generation + 1))
  }

  function AppendRing(r: Ring, data: seq<Byte>): Ring {
    r.(agg := Append(r.agg, data), hist := Extend(r.hist, Record(r.agg.cursor, r.agg.generation, data)))
  }

  function MakeRoomRing(r: Ring, n: nat, checks: nat): Ring {
    if r.agg.failed || r.agg.closed || checks == 0 || r.agg.flushing then r
    else if NeedsWrap(r.agg, n) then WrapRing(r)
    else if |r.agg.active.data| + n <= AGG_BUFFER_SIZE then r
    else SwapRing(r)
  }

  function AddRing(r: Ring, data: seq<Byte>, checks: nat): Ring {
    if !Fits(r.agg, |data|) then r
    else
      var r1 := MakeRoomRing(r, |data|, checks);
      if Room(r.agg, |data|, checks).stop.Some? then r1
      else
        var r2 := AppendRing(r1, data);
        if |r2.agg.active.data| >= AGG_HIGH_WATER_MARK && !r2.agg.flushing then SwapRing(r2) else r2
  }

  function Failing(r: Ring): Ring {
    r.(stripe := r.stripe.(storageErr := true), agg := r.agg.(failed := true))
  }

  function RemovePhase(dir: map<Key, Entry>, phase: bool): map<Key, Entry> {
    map k | k in dir && dir[k].phase != phase :: dir[k]
  }

  /** The locked section of `handleFlushTask` before the disk write. */
  function StartRing(r: Ring): Ring
    requires r.worker.Queued?
  {
    var task := r.worker.task;
    var end := task.offset + |task.data|;
    if r.stripe.storageErr || task.offset < r.stripe.start || end > r.stripe.limit then
      Failing(r).(worker := Acking(true))
    else
      r.(dir := if task.generation != r.stripe.generation then RemovePhase(r.dir, Phase(task.generation)) else r.dir,
         stripe := r.stripe.(writingStart := task.offset, writingEnd := end, writingGeneration := task.generation),
         worker := Writing(task))
  }

  /** The locked section of `handleFlushTask` after the disk write. */
  function FinishRing(r: Ring, ok: bool, image: seq<Byte>): Ring
    requires r.worker.Writing?
  {
    var task := r.worker.task;
    var s := r.stripe.(writingStart := 0, writingEnd := 0);
    if ok then
      r.(disk := image,
         stripe := s.(writePos := task.offset + |task.data|, generation := task.generation, phase := Phase(task.generation)),
         worker := Acking(false), flushed := r.sealed)
    else
      Failing(r.(disk := image, stripe := s, worker := Acking(true)))
  }

  /** `image` differs from the disk only where the worker is writing. */
  predicate OnlyRegion(r: Ring, image: seq<Byte>) {
    && |image| == |r.disk|
    && forall x | 0 <= x < |image| && !(r.stripe.writingStart <= x < r.stripe.writingEnd) :: image[x] == r.disk[x]
  }

  predicate RegionWritten(r: Ring, image: seq<Byte>)
    requires r.worker.Writing?
  {
    var task := r.worker.task;
    && 0 <= task.offset && task.offset + |task.data| <= |image|
    && image[task.offset..task.offset + |task.data|] == task.data
  }

  predicate Enabled(r: Ring, step: Step) {
    match step
    case Add(_, _) => true
    case TriggerFlush => true
    case StartWrite => r.worker.Queued?
    case WriteSome(image) => r.worker.Writing? && OnlyRegion(r, image)
    case FinishWrite(ok, image) => r.worker.Writing? && OnlyRegion(r, image) && (ok ==> RegionWritten(r, image))
    case Acknowledge => r.worker.Acking?
    case Publish(key, k, approxSize) =>
      && !r.stripe.storageErr
      && r.base <= k < |r.hist.log|
      && |r.hist.log[k].data| <= approxSize
      && AllocationValid(r.stripe, AllocationOf(r, k), |r.hist.log[k].data|)
    case Remove(_) => true
    case Rephase(key, _) => key in r.dir
    case StopAdds => true
    case FailStorage => true
  }

  function Apply(r: Ring, step: Step): Ring
    requires Enabled(r, step)
  {
    match step
    case Add(data, checks) => AddRing(r, data, checks)
    case TriggerFlush => SwapRing(r)
    case StartWrite => StartRing(r)
    case WriteSome(image) => r.(disk := image)
    case FinishWrite(ok, image) => FinishRing(r, ok, image)
    case Acknowledge => r.(agg := Acknowledged(r.agg, r.worker.failure), worker := Idle)
    case Publish(key, k, approxSize) =>
      r.(dir := r.dir[key := Entry(r.hist.log[k].offset, Phase(r.hist.log[k].generation), approxSize, k, r.stamps)],
         stamps := r.stamps + 1)
    case Remove(key) => r.(dir := r.dir - {key})
    case Rephase(key, phase) => r.(dir := r.dir[key := r.dir[key].(phase := phase)])
    case StopAdds => r.(agg := r.agg.(closed := true))
    case FailStorage => Failing(r)
  }

  lemma MakeRoomAgrees(r: Ring, n: nat, checks: nat)
    ensures
      var room := Room(r.agg, n, checks);
      var r1 := MakeRoomRing(r, n, checks);
      && r1 == r.(agg := room.agg, worker := r1.worker, sealed := r1.sealed)
      && r1.worker == (if room.task.Some? then Queued(room.task.value) else r.worker)
      && (room.task.Some? ==> room.agg.flushing)
      && room.agg.sequence == r.agg.sequence
  {
  }

  /**
   The ring's view of an add agrees with the buffer's: same buffer, the task
   handed over is the one the buffer sends, and an allocation that is returned
   is the place of the record that was appended.
   */
  lemma AddAgrees(r: Ring, data: seq<Byte>, checks: nat)
    requires r.base + r.agg.sequence == |r.hist.log|
    ensures
      var result := AddAttempt(r.agg, data, checks);
      var r' := AddRing(r, data, checks);
      && r'.agg == result.agg
      && r'.worker == (if result.task.Some? then Queued(result.task.value) else r.worker)
      && r'.base == r.base
      && if result.outcome.Added? then
           && r'.hist.log == r.hist.log + [Record(result.outcome.allocation.offset, result.outcome.allocation.generation, data)]
           && result.outcome.allocation == AllocationOf(r', |r.hist.log|)
         else r'.hist == r.hist
  {
    MakeRoomAgrees(r, |data|, checks);
  }

  // ----------------------------------------------------------- invariant

  /** The active buffer holds the records that are not sealed, in one piece. */
  predicate ActiveOk(r: Ring)
    requires r.sealed <= |r.hist.log|
  {
    && r.agg.active.data == Joined(r.hist, r.sealed, |r.hist.log|)
    && Contiguous(r.hist, r.sealed, |r.hist.log|)
    && (r.sealed < |r.hist.log| ==>
          && r.agg.active.start == r.hist.log[r.sealed].offset
          && r.agg.active.generation == r.hist.log[r.sealed].generation
          && r.agg.active.lastSequence == |r.hist.log| - r.base
          && Position(r.agg.generation, r.agg.cursor) == At(r.hist, |r.hist.log|))
  }

  /** The worker's task holds the sealed records that are not on disk, in one piece. */
  predicate TaskOk(r: Ring, task: FlushTask)
    requires r.flushed <= r.sealed <= |r.hist.log|
  {
    && r.flushed < r.sealed
    && Contiguous(r.hist, r.flushed, r.sealed)
    && task == FlushTask(Joined(r.hist, r.flushed, r.sealed), r.hist.log[r.flushed].offset, r.hist.log[r.flushed].generation)
  }

  /** The task's bytes are those of the buffer that is not active. */
  predicate InOther(r: Ring, task: FlushTask) {
    r.agg.other.data == task.data && r.agg.other.start == task.offset && r.agg.other.generation == task.generation
  }

  predicate WorkerOk(r: Ring)
    requires r.flushed <= r.sealed <= |r.hist.log|
  {
    match r.worker
    case Idle => !r.agg.flushing && r.flushed == r.sealed
    case Queued(task) => r.agg.flushing && TaskOk(r, task) && InOther(r, task) && r.agg.other.lastSequence == r.sealed - r.base
    case Writing(task) => r.agg.flushing && TaskOk(r, task) && InOther(r, task) && r.agg.other.lastSequence == r.sealed - r.base
    case Acking(failure) => !failure && r.agg.flushing && r.flushed == r.sealed && r.agg.other.lastSequence == r.sealed - r.base
  }

  predicate StripeOk(r: Ring)
    requires r.flushed <= |r.hist.log|
  {
    && !r.stripe.storageErr
    && r.stripe.start == r.hist.start && r.stripe.limit == r.hist.limit
    && Position(r.stripe.generation, r.stripe.writePos) == At(r.hist, r.flushed)
    && r.stripe.phase == Phase(r.stripe.generation)
    && if r.worker.Writing? then
         && r.stripe.writingStart == r.worker.task.offset
         && r.stripe.writingEnd == r.worker.task.offset + |r.worker.task.data|
         && r.stripe.writingGeneration == r.worker.task.generation
       else r.stripe.writingStart == r.stripe.writingEnd == 0
  }

  predicate AggOk(r: Ring) {
    && !r.agg.failed
    && r.agg.minOffset == r.hist.start && r.agg.maxOffset == r.hist.limit
    && r.base + r.agg.sequence == |r.hist.log|
    && r.base + r.agg.completed <= r.flushed
    && (!r.worker.Acking? ==> r.base + r.agg.completed == r.flushed)
    && Continues(r.hist, At(r.hist, |r.hist.log|), Position(r.agg.generation, r.agg.cursor))
  }

  /** Outside the region being written, the disk is the replay of what was flushed. */
  predicate DiskOk(r: Ring)
    requires WellFormed(r.hist) && r.flushed <= |r.hist.log|
  {
    && |r.disk| == r.hist.limit
    && var image := Replay(r.hist, r.flushed);
       forall x | 0 <= x < |r.disk| && !(r.stripe.writingStart <= x < r.stripe.writingEnd) :: r.disk[x] == image[x]
  }

  predicate EntryOk(r: Ring, d: Entry) {
    && d.rec < r.flushed <= |r.hist.log|
    && d.offset == r.hist.log[d.rec].offset
    && |r.hist.log[d.rec].data| <= d.approxSize
    && d.stamp < r.stamps
  }

  predicate DirOk(r: Ring) {
    forall k | k in r.dir :: EntryOk(r, r.dir[k])
  }

  /** The entry's phase bit is that of the generation its record was written in. */
  predicate PhaseOk(r: Ring, d: Entry)
    requires EntryOk(r, d)
  {
    d.phase == Phase(r.hist.log[d.rec].generation)
  }

  /**
   The directory names current generations only: every entry has the phase of
   its record, which is of the generation the stripe is in or the one before, and
   no entry is two generations older than a write in flight.
   */
  predicate DirCurrent(r: Ring)
    requires DirOk(r)
  {
    forall k | k in r.dir :: EntryCurrent(r, r.dir[k])
  }

  predicate EntryCurrent(r: Ring, d: Entry)
    requires EntryOk(r, d)
  {
    && PhaseOk(r, d)
    && r.stripe.generation <= r.hist.log[d.rec].generation + 1
    && (r.worker.Writing? ==> r.worker.task.generation <= r.hist.log[d.rec].generation + 1)
  }

  /** What every run keeps as long as the storage has not failed. */
  predicate Live(r: Ring) {
    && WellFormed(r.hist)
    && r.base <= r.flushed <= r.sealed <= |r.hist.log|
    && AggOk(r) && ActiveOk(r) && WorkerOk(r) && StripeOk(r) && DiskOk(r) && DirOk(r)
  }

  /** A storage failure is known to the buffer as well, so that it admits nothing more. */
  predicate Inv(r: Ring) { (r.stripe.storageErr && r.agg.failed) || Live(r) }

  /** A stripe that has just been opened, possibly with recovered records. */
  predicate Init(r: Ring) {
    && WellFormed(r.hist)
    && r.base == r.flushed == r.sealed == |r.hist.log|
    && r.worker == Idle
    && !r.agg.flushing && !r.agg.failed && !r.agg.closed && r.agg.active.data == []
    && r.agg.minOffset == r.hist.start && r.agg.maxOffset == r.hist.limit
    && r.agg.sequence == 0 && r.agg.completed == 0
    && Position(r.agg.generation, r.agg.cursor) == At(r.hist, |r.hist.log|)
    && r.disk == Replay(r.hist, |r.hist.log|)
    && StripeOk(r)
    && DirOk(r) && DirCurrent(r)
  }

  lemma InitInv(r: Ring)
    requires Init(r)
    ensures Live(r)
  {
  }

  // ------------------------------------------------- preservation, by step

  lemma SwapKeeps(r: Ring)
    requires Live(r)
    ensures Live(SwapRing(r))
    ensures CanSwap(r.agg) ==> SwapRing(r).agg.active.data == []
  {
    if CanSwap(r.agg) {
      var r' := SwapRing(r);
      assert r.sealed < |r.hist.log|;
      assert Joined(r'.hist, |r'.hist.log|, |r'.hist.log|) == [];
    }
  }

  /** A wrap finds nothing in the active buffer, so no batch spans two generations. */
  lemma WrapKeeps(r: Ring, n: nat)
    requires Live(r) && !r.agg.flushing && Fits(r.agg, n) && NeedsWrap(r.agg, n)
    ensures Live(WrapRing(r))
    ensures WrapRing(r).agg.active.data == [] && !NeedsWrap(WrapRing(r).agg, n)
  {
    SwapKeeps(r);
    var r1 := SwapRing(r);
    assert r1.agg.active.data == [];
    NothingActive(r1);
  }

  lemma NothingActive(r: Ring)
    requires WellFormed(r.hist) && r.sealed <= |r.hist.log| && ActiveOk(r) && r.agg.active.data == []
    ensures r.sealed == |r.hist.log|
  {
    if r.sealed < |r.hist.log| {
      RecordAfterFirst(r.hist, r.sealed, |r.hist.log|);
    }
  }

  lemma AppendKeeps(r: Ring, data: seq<Byte>)
    requires Live(r) && data != [] && !NeedsWrap(r.agg, |data|)
    ensures Live(AppendRing(r, data))
  {
    var rec := Record(r.agg.cursor, r.agg.generation, data);
    var r' := AppendRing(r, data);
    CursorInside(r);
    ExtendWellFormed(r.hist, rec);
    ExtendKeeps(r.hist, rec, r.flushed);
    ExtendJoined(r.hist, rec, r.flushed, r.sealed);
    ExtendJoined(r.hist, rec, r.sealed, |r.hist.log|);
    if r.agg.active.data == [] {
      NothingActive(r);
      assert Joined(r'.hist, r.sealed, |r.hist.log|) == [];
      assert r'.agg.active.data == data;
    }
    assert At(r'.hist, |r'.hist.log|) == Position(rec.generation, rec.End());
    assert ActiveOk(r') by { AppendActive(r, data); }
    forall k | k in r'.dir ensures EntryOk(r', r'.dir[k]) {
      assert EntryOk(r, r.dir[k]);
    }
  }

  lemma CursorInside(r: Ring)
    requires Live(r)
    ensures r.hist.start <= r.agg.cursor
  {
    if |r.hist.log| > 0 { assert RecordOk(r.hist, |r.hist.log| - 1); }
  }

  lemma AppendActive(r: Ring, data: seq<Byte>)
    requires Live(r) && data != []
    ensures ActiveOk(AppendRing(r, data))
  {
    var rec := Record(r.agg.cursor, r.agg.generation, data);
    var h' := Extend(r.hist, rec);
    var n := |r.hist.log|;
    ExtendJoined(r.hist, rec, r.sealed, n);
    assert Joined(h', r.sealed, n + 1) == Joined(r.hist, r.sealed, n) + data;
    if r.sealed < n {
      assert Adjacent(h'.log[n - 1], h'.log[n]);
      assert r.agg.active.data != [] by {
        if r.agg.active.data == [] { NothingActive(r); }
      }
    }
    forall k | r.sealed < k < n + 1 ensures Adjacent(h'.log[k - 1], h'.log[k]) {
      if k < n { assert Adjacent(r.hist.log[k - 1], r.hist.log[k]); }
    }
  }

  lemma MakeRoomKeeps(r: Ring, n: nat, checks: nat)
    requires Live(r) && Fits(r.agg, n)
    ensures
      var r1 := MakeRoomRing(r, n, checks);
      Live(r1) && (Room(r.agg, n, checks).stop.None? ==> !NeedsWrap(r1.agg, n))
  {
    SwapKeeps(r);
    if !r.agg.flushing && NeedsWrap(r.agg, n) { WrapKeeps(r, n); }
  }

  lemma AddKeeps(r: Ring, data: seq<Byte>, checks: nat)
    requires Live(r)
    ensures Live(AddRing(r, data, checks))
  {
    if Fits(r.agg, |data|) {
      MakeRoomKeeps(r, |data|, checks);
      if Room(r.agg, |data|, checks).stop.None? {
        var r1 := MakeRoomRing(r, |data|, checks);
        AppendKeeps(r1, data);
        SwapKeeps(AppendRing(r1, data));
      }
    }
  }

  /** A task that reaches the worker lies inside the stripe, so it is never refused. */
  lemma TaskInside(r: Ring)
    requires Live(r) && (r.worker.Queued? || r.worker.Writing?)
    ensures
      var task := r.worker.task;
      && r.stripe.start <= task.offset < task.offset + |task.data| <= r.stripe.limit
      && task.data != []
      && Continues(r.hist, At(r.hist, r.flushed), Position(task.generation, task.offset))
      && Position(task.generation, task.offset + |task.data|) == At(r.hist, r.sealed)
  {
    JoinedLength(r.hist, r.flushed, r.sealed);
    ReplayBatch(r.hist, r.flushed, r.sealed);
    assert RecordOk(r.hist, r.flushed) && RecordOk(r.hist, r.sealed - 1);
    RecordAfterFirst(r.hist, r.flushed, r.sealed);
  }

  lemma RecordAfterFirst(h: History, a: nat, b: nat)
    requires WellFormed(h) && a < b <= |h.log| && Contiguous(h, a, b)
    ensures 0 < |Joined(h, a, b)|
  {
    JoinedLength(h, a, b);
    RecordBefore(h, a, b);
    assert RecordOk(h, a);
  }

  lemma StartKeeps(r: Ring)
    requires Live(r) && r.worker.Queued?
    ensures Live(StartRing(r))
    ensures StartRing(r).worker.Writing?
  {
    TaskInside(r);
  }

  /** A finished write leaves the replay of one batch more. */
  lemma FinishedDisk(r: Ring, image: seq<Byte>)
    requires Live(r) && r.worker.Writing? && OnlyRegion(r, image) && RegionWritten(r, image)
    ensures image == Replay(r.hist, r.sealed)
  {
    TaskInside(r);
    var task := r.worker.task;
    ReplayBatch(r.hist, r.flushed, r.sealed);
    RegionReplaced(r.disk, Replay(r.hist, r.flushed), image, task.offset, task.data);
  }

  /** What differs from `before` at most in the region, and holds the data there, is `before` with the data in it. */
  lemma RegionReplaced(disk: seq<Byte>, before: seq<Byte>, image: seq<Byte>, offset: int, data: seq<Byte>)
    requires |disk| == |before| == |image| && 0 <= offset && offset + |data| <= |image|
    requires forall x | 0 <= x < |disk| && !(offset <= x < offset + |data|) :: disk[x] == before[x]
    requires forall x | 0 <= x < |image| && !(offset <= x < offset + |data|) :: image[x] == disk[x]
    requires image[offset..offset + |data|] == data
    ensures image == Blit(before, offset, data)
  {
    var after := Blit(before, offset, data);
    forall x | 0 <= x < |image| ensures image[x] == after[x] {
      BlitAt(before, offset, data, x);
      if offset <= x < offset + |data| {
        assert image[x] == image[offset..offset + |data|][x - offset];
      }
    }
  }

  lemma FinishKeeps(r: Ring, image: seq<Byte>)
    requires Live(r) && r.worker.Writing? && OnlyRegion(r, image) && RegionWritten(r, image)
    ensures Live(FinishRing(r, true, image))
  {
    TaskInside(r);
    FinishedDisk(r, image);
    var r' := FinishRing(r, true, image);
    forall k | k in r'.dir ensures EntryOk(r', r'.dir[k]) {
      assert EntryOk(r, r.dir[k]);
    }
  }

  lemma PublishKeeps(r: Ring, key: Key, k: nat, approxSize: nat)
    requires Live(r) && Enabled(r, Publish(key, k, approxSize))
    ensures Live(Apply(r, Publish(key, k, approxSize)))
    ensures k < r.flushed
  {
    assert RecordOk(r.hist, k);
    IntactIsWritten(r.hist, r.flushed, k, |r.hist.log[k].data|);
    var r' := Apply(r, Publish(key, k, approxSize));
    forall j | j in r'.dir ensures EntryOk(r', r'.dir[j]) {
      if j != key { assert EntryOk(r, r.dir[j]); }
    }
  }

  /** Steps that touch one part of the ring. */
  lemma SmallStepKeeps(r: Ring, step: Step)
    requires Live(r) && Enabled(r, step)
    requires step.WriteSome? || step.Acknowledge? || step.Remove? || step.Rephase? || step.StopAdds? || step.FailStorage?
    ensures Inv(Apply(r, step))
  {
    if step.Rephase? { assert EntryOk(r, r.dir[step.key]); }
  }

  /** Every step keeps the invariant; storage failures are never forgotten. */
  lemma StepKeeps(r: Ring, step: Step)
    requires Inv(r) && Enabled(r, step)
    ensures Inv(Apply(r, step))
    ensures r.stripe.storageErr ==> Apply(r, step).stripe.storageErr
  {
    if !r.stripe.storageErr {
      match step
      case Add(data, checks) => AddKeeps(r, data, checks);
      case TriggerFlush => SwapKeeps(r);
      case StartWrite => StartKeeps(r);
      case FinishWrite(ok, image) => if ok { FinishKeeps(r, image); }
      case Publish(key, k, approxSize) => PublishKeeps(r, key, k, approxSize);
      case _ => SmallStepKeeps(r, step);
    }
  }
}
