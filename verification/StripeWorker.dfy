/**
 The stripe as its disk worker changes it: two locked sections around an
 unlocked write, each shown to be the step of the ring log with its name.
 */
module StripeWorker {
  import opened Common
  import opened AggregateBuffer
  import opened History
  import opened RingLog

  /** The ring in which the worker has just been given `task`. */
  ghost predicate Given(r: Ring, w: StripeState, task: FlushTask)
    reads w, w.disk
  {
    r.worker == Queued(task) && r.stripe == w.View() && r.dir == w.dir && r.disk == w.disk[..]
  }

  ghost predicate Busy(r: Ring, w: StripeState, task: FlushTask)
    reads w, w.disk
  {
    r.worker == Writing(task) && r.stripe == w.View() && r.dir == w.dir && r.disk == w.disk[..]
  }

  class StripeState {
    const start: int
    const limit: int
    var writePos: int
    var phase: bool
    var generation: nat
    var writingStart: int
    var writingEnd: int
    var writingGeneration: nat
    var storageErr: bool
    var dir: map<Key, Entry>
    const disk: array<Byte>

    ghost function View(): Stripe
      reads this
    {
      Stripe(start, limit, writePos, phase, generation, writingStart, writingEnd, writingGeneration, storageErr)
    }

    constructor (first: int, end: nat, size: nat)
      ensures View() == Stripe(first, end, first, false, 0, 0, 0, 0, false) && dir == map[]
      ensures disk.Length == size && fresh(disk)
    {
      start, limit, writePos, phase, generation := first, end, first, false, 0;
      writingStart, writingEnd, writingGeneration, storageErr := 0, 0, 0, false;
      dir := map[];
      disk := new Byte[size](_ => 0);
    }

    /** The locked section before the write; `ok` says that there is something to write. */
    method Begin(task: FlushTask, ghost r: Ring) returns (ok: bool)
      requires Given(r, this, task)
      modifies this
      ensures View() == StartRing(r).stripe && dir == StartRing(r).dir
      ensures ok <==> StartRing(r).worker == Writing(task)
      ensures !ok ==> StartRing(r).worker == Acking(true)
    {
      var end := task.offset + |task.data|;
      if storageErr || task.offset < start || end > limit {
        storageErr := true;
        return false;
      }
      if task.generation != generation {
        dir := RemovePhase(dir, Phase(task.generation));
      }
      writingStart, writingEnd, writingGeneration := task.offset, end, task.generation;
      ok := true;
    }

    /** The write without the lock: it reaches byte `count` of the task and may stop short. */
    method WriteAt(task: FlushTask, count: nat, ghost r: Ring)
      requires Busy(r, this, task) && count <= |task.data|
      requires 0 <= task.offset && task.offset + |task.data| <= disk.Length
      requires writingStart == task.offset && writingEnd == task.offset + |task.data|
      modifies disk
      ensures OnlyRegion(r, disk[..]) && (count == |task.data| ==> RegionWritten(r, disk[..]))
    {
      var i := 0;
      while i < count
        invariant i <= count
        invariant forall x | 0 <= x < disk.Length ::
          disk[x] == if task.offset <= x < task.offset + i then task.data[x - task.offset] else old(disk[x])
      {
        disk[task.offset + i] := task.data[i];
        i := i + 1;
      }
    }

    /** The locked section after the write. */
    method End(task: FlushTask, ok: bool, ghost r: Ring)
      requires r.worker == Writing(task) && r.stripe == View()
      modifies this
      ensures View() == FinishRing(r, ok, disk[..]).stripe && dir == old(dir)
    {
      writingStart, writingEnd := 0, 0;
      if ok {
        writePos := task.offset + |task.data|;
        generation, phase := task.generation, Phase(task.generation);
      } else {
        storageErr := true;
      }
    }

    /** Whether the bytes of an allocation are still its own. */
    method CheckAllocation(a: Allocation, size: nat) returns (valid: bool)
      ensures valid <==> AllocationValid(View(), a, size)
    {
      if writingEnd > 0 && a.generation != writingGeneration && a.offset < writingEnd && a.offset + size > writingStart {
        return false;
      }
      if a.offset < start || a.offset + size > limit {
        return false;
      }
      return (a.generation == generation && a.offset + size <= writePos) || (a.generation + 1 == generation && a.offset >= writePos);
    }

    method CheckEntry(d: Entry) returns (valid: bool)
      ensures valid <==> DirValid(View(), d)
    {
      if writingEnd > 0 && d.phase != Phase(writingGeneration) && d.offset < writingEnd && d.offset + d.approxSize > writingStart {
        return false;
      }
      if storageErr || d.offset < start || d.offset >= limit {
        return false;
      }
      if d.phase == phase {
        return d.offset < writePos;
      }
      return d.offset >= writePos;
    }
  }
}
