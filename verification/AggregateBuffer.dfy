/**
 The aggregate write buffer: two append buffers that alternate between being
 filled by writers and being owned by the disk worker.

 The first half of the module describes one mutex-protected section as a
 function on values; the second half is the object itself, whose methods are
 proved to perform exactly those functions.
 */
module AggregateBuffer {
  import opened Common


  const AGG_BUFFER_SIZE: nat := 4 * 1024 * 1024
  const AGG_HIGH_WATER_MARK: nat := AGG_BUFFER_SIZE / 2

  /** The bytes the disk worker must write, at exactly this place. */
  datatype FlushTask = FlushTask(data: seq<Byte>, offset: int, generation: nat)

  datatype Allocation = Allocation(offset: int, generation: nat, sequence: nat)

  /** The used part of one of the two buffers. */
  datatype Batch = Batch(data: seq<Byte>, start: int, generation: nat, lastSequence: nat)

  /** `other` is the buffer that is being flushed, when `flushing` holds. */
  datatype Agg = Agg(
    active: Batch,
    other: Batch,
    flushing: bool,
    cursor: int,
    generation: nat,
    sequence: nat,
    completed: nat,
    minOffset: int,
    maxOffset: int,
    failed: bool,
    closed: bool)

  datatype Refusal = DoesNotFit | StorageFailed | Closed | Cancelled

  /** How one lock-holding section of an add ends. */
  datatype AddOutcome = Added(allocation: Allocation) | MustWait | Refused(why: Refusal)

  datatype AddResult = AddResult(agg: Agg, task: Option<FlushTask>, outcome: AddOutcome)

  /** The record can be stored at all: in one buffer and in the ring. */
  predicate Fits(b: Agg, n: nat) {
    && 0 < n <= AGG_BUFFER_SIZE
    && (b.maxOffset != 0 ==> b.minOffset < b.maxOffset && n <= b.maxOffset - b.minOffset)
  }

  predicate CanSwap(b: Agg) {
    !b.flushing && b.active.data != [] && !b.failed
  }

  /** The state after `swapAndFlushLocked`; the newly active buffer is emptied. */
  function Swap(b: Agg): Agg {
    if CanSwap(b) then
      b.(active := b.other.(data := []), other := b.active, flushing := true)
    else b
  }

  /** The task that `swapAndFlushLocked` sends, if any. */
  function Emitted(b: Agg): Option<FlushTask> {
    if CanSwap(b) then Some(FlushTask(b.active.data, b.active.start, b.active.generation)) else None
  }

  predicate NeedsWrap(b: Agg, n: nat) {
    b.maxOffset > 0 && b.cursor + n > b.maxOffset
  }

  /** Restart at the beginning of the ring in the next generation. */
  function Wrap(b: Agg): Agg {
    Swap(b).(cursor := b.minOffset, generation := b.generation + 1)
  }

  /** Append `data` to the active buffer. */
  function Append(b: Agg, data: seq<Byte>): Agg {
    var batch := if b.active.data == [] then b.active.(start := b.cursor, generation := b.generation) else b.active;
    b.(active := batch.(data := batch.data + data, lastSequence := b.sequence + 1),
       sequence := b.sequence + 1,
       cursor := b.cursor + |data|)
  }

  /** Append, then hand the buffer over when it has reached the high-water mark. */
  function AppendAndFlush(b: Agg, data: seq<Byte>, earlier: Option<FlushTask>): AddResult {
    var full := Append(b, data);
    var outcome := Added(Allocation(b.cursor, b.generation, b.sequence + 1));
    if |full.active.data| >= AGG_HIGH_WATER_MARK && !full.flushing then
      AddResult(Swap(full), if CanSwap(full) then Emitted(full) else earlier, outcome)
    else
      AddResult(full, earlier, outcome)
  }

  /** What making room for a record leads to; `stop` says why it cannot be placed now. */
  datatype RoomResult = RoomResult(agg: Agg, task: Option<FlushTask>, stop: Option<AddOutcome>)

  predicate ReadyToPlace(b: Agg, n: nat) {
    !b.failed && !b.closed && !NeedsWrap(b, n) && |b.active.data| + n <= AGG_BUFFER_SIZE
  }

  /**
   The caller's context passes `checks` cancellation checks and fails the next
   one, so a cancelled add may still have wrapped the cursor.
   */
  function Room(b: Agg, n: nat, checks: nat): RoomResult {
    if b.failed then RoomResult(b, None, Some(Refused(StorageFailed)))
    else if b.closed then RoomResult(b, None, Some(Refused(Closed)))
    else if checks == 0 then RoomResult(b, None, Some(Refused(Cancelled)))
    else if NeedsWrap(b, n) then
      if b.flushing then RoomResult(b, None, Some(MustWait))
      else RoomResult(Wrap(b), Emitted(b), if checks == 1 then Some(Refused(Cancelled)) else None)
    else if |b.active.data| + n <= AGG_BUFFER_SIZE then RoomResult(b, None, None)
    else if b.flushing then RoomResult(b, None, Some(MustWait))
    else RoomResult(Swap(b), Emitted(b), if checks == 1 then Some(Refused(Cancelled)) else None)
  }

  /** One lock-holding section of an add. */
  function AddAttempt(b: Agg, data: seq<Byte>, checks: nat): AddResult {
    if !Fits(b, |data|) then AddResult(b, None, Refused(DoesNotFit))
    else
      var room := Room(b, |data|, checks);
      if room.stop.Some? then AddResult(room.agg, room.task, room.stop.value)
      else AppendAndFlush(room.agg, data, room.task)
  }

  /** The worker reports the outcome of the outstanding task. */
  function Acknowledged(b: Agg, failure: bool): Agg {
    var failed := b.failed || failure;
    var b1 := b.(failed := failed);
    var b2 := if b1.flushing then b1.(completed := b1.other.lastSequence, flushing := false) else b1;
    if failed then b2.(active := b2.active.(data := [])) else b2
  }

  datatype FlushOutcome = FlushFailed | FlushCancelled | FlushDone | FlushMustWait

  /** One lock-holding section of `flushThrough`. */
  function FlushPoll(b: Agg, target: nat, cancelled: bool): (Agg, Option<FlushTask>, FlushOutcome) {
    if b.failed then (b, None, FlushFailed)
    else if cancelled then (b, None, FlushCancelled)
    else if b.completed >= target then (b, None, FlushDone)
    else (Swap(b), Emitted(b), FlushMustWait)
  }

  /** The cursors kept for each of the two buffers. */
  datatype Slot = Slot(pos: nat, start: int, generation: nat, lastSequence: nat)

  /**
   The object. `channel` is the one-slot channel to the disk worker; the task
   in flight aliases the inactive buffer, whose bytes must therefore not change
   until the worker has acknowledged them.
   */
  class AggregateWriteBuffer {
    const first: array<Byte>
    const second: array<Byte>
    var slots: seq<Slot>
    var activeIdx: nat
    var writeCursor: int
    var generation: nat
    var sequence: nat
    var completed: nat
    var isFlushing: bool
    var minOffset: int
    var maxOffset: int
    var failed: bool
    var closed: bool
    var channel: seq<FlushTask>
    ghost var inFlight: Option<FlushTask>

    ghost predicate Shape()
      reads this
    {
      && first != second
      && first.Length == AGG_BUFFER_SIZE && second.Length == AGG_BUFFER_SIZE
      && |slots| == 2
      && activeIdx < 2
      && slots[0].pos <= AGG_BUFFER_SIZE && slots[1].pos <= AGG_BUFFER_SIZE
    }

    function Buffer(i: nat): array<Byte> {
      if i == 0 then first else second
    }

    ghost function Used(i: nat): Batch
      requires Shape() && i < 2
      reads this, Buffer(i)
    {
      Batch(Buffer(i)[..slots[i].pos], slots[i].start, slots[i].generation, slots[i].lastSequence)
    }

    ghost function View(): Agg
      requires Shape()
      reads this, first, second
    {
      Agg(Used(activeIdx), Used(1 - activeIdx), isFlushing, writeCursor, generation, sequence,
          completed, minOffset, maxOffset, failed, closed)
    }

    /**
     The channel holds at most the outstanding task, which exists exactly while
     a flush is outstanding, and its bytes are those of the inactive buffer.
     */
    ghost predicate Valid()
      reads this, first, second
    {
      && Shape()
      && (isFlushing <==> inFlight.Some?)
      && (inFlight.Some? ==> inFlight.value.data == Used(1 - activeIdx).data)
      && (channel != [] ==> inFlight.Some? && channel == [inFlight.value])
    }

    constructor (start: int, end: int, position: int, gen: nat)
      ensures Valid()
      ensures !isFlushing && channel == [] && !failed && !closed
      ensures View().active.data == []
      ensures writeCursor == position && generation == gen && sequence == completed == 0
      ensures minOffset == start && maxOffset == end
      ensures fresh(first) && fresh(second)
    {
      first := new Byte[AGG_BUFFER_SIZE];
      second := new Byte[AGG_BUFFER_SIZE];
      slots := [Slot(0, 0, 0, 0), Slot(0, 0, 0, 0)];
      activeIdx, writeCursor, generation, sequence, completed := 0, position, gen, 0, 0;
      isFlushing, minOffset, maxOffset, failed, closed := false, start, end, false, false;
      channel, inFlight := [], None;
    }

    /** The send under the mutex finds the one-slot channel empty. */
    method SwapAndFlushLocked() returns (sent: Option<FlushTask>)
      requires Valid()
      modifies this
      ensures Valid()
      ensures View() == Swap(old(View()))
      ensures sent == Emitted(old(View()))
      ensures channel == if sent.Some? then [sent.value] else old(channel)
      ensures sent.Some? ==> old(channel) == []
    {
      var idx := activeIdx;
      if isFlushing || slots[idx].pos == 0 || failed {
        assert !CanSwap(View());
        return None;
      }
      var task := FlushTask(Buffer(idx)[..slots[idx].pos], slots[idx].start, slots[idx].generation);
      isFlushing := true;
      activeIdx := 1 - idx;
      slots := slots[activeIdx := slots[activeIdx].(pos := 0)];
      assert channel == [];
      channel := [task];
      inFlight := Some(task);
      sent := Some(task);
    }

    /** The wrap branch: hand over what is buffered and restart in the next generation. */
    method WrapLocked() returns (sent: Option<FlushTask>)
      requires Valid()
      modifies this
      ensures Valid()
      ensures View() == Wrap(old(View()))
      ensures sent == Emitted(old(View()))
      ensures channel == if sent.Some? then [sent.value] else old(channel)
      ensures sent.Some? ==> old(channel) == []
    {
      sent := SwapAndFlushLocked();
      writeCursor := minOffset;
      generation := generation + 1;
    }

    /**
     The loop of `addContext` inside one lock-holding section: make room for a
     record that fits, or find out that it has to wait or is refused.
     */
    method MakeRoom(n: nat, checks: nat) returns (stop: Option<AddOutcome>, sent: Option<FlushTask>)
      requires Valid() && Fits(View(), n)
      modifies this
      ensures Valid()
      ensures RoomResult(View(), sent, stop) == Room(old(View()), n, checks)
      ensures channel == if sent.Some? then [sent.value] else old(channel)
      ensures sent.Some? ==> old(channel) == []
    {
      sent := None;
      ghost var entry := View();
      var left := checks;
      while true
        invariant Valid()
        invariant channel == if sent.Some? then [sent.value] else old(channel)
        invariant sent.Some? ==> old(channel) == []
        invariant left == checks || (left == checks - 1 && ReadyToPlace(View(), n))
        invariant left == checks ==> View() == entry && sent == None
        invariant left < checks ==> Room(entry, n, checks) == RoomResult(View(), sent, if left == 0 then Some(Refused(Cancelled)) else None)
        decreases left
      {
        if failed { return Some(Refused(StorageFailed)), sent; }
        if closed { return Some(Refused(Closed)), sent; }
        if left == 0 { return Some(Refused(Cancelled)), sent; }
        if maxOffset > 0 && writeCursor + n > maxOffset {
          if isFlushing { return Some(MustWait), sent; }
          sent := WrapLocked();
          left := left - 1;
          continue;
        }
        if slots[activeIdx].pos + n <= AGG_BUFFER_SIZE { return None, sent; }
        if isFlushing { return Some(MustWait), sent; }
        sent := SwapAndFlushLocked();
        left := left - 1;
      }
    }

    /** One lock-holding section of `addContext`. */
    method AddSection(data: seq<Byte>, checks: nat) returns (outcome: AddOutcome, sent: Option<FlushTask>)
      requires Valid()
      modifies this, first, second
      ensures Valid()
      ensures AddResult(View(), sent, outcome) == AddAttempt(old(View()), data, checks)
      ensures channel == if sent.Some? then [sent.value] else old(channel)
      ensures sent.Some? ==> old(channel) == []
    {
      if |data| == 0 || |data| > AGG_BUFFER_SIZE
         || (maxOffset != 0 && (maxOffset <= minOffset || |data| > maxOffset - minOffset)) {
        return Refused(DoesNotFit), None;
      }
      var stop;
      stop, sent := MakeRoom(|data|, checks);
      if stop.Some? { return stop.value, sent; }
      outcome, sent := PlaceAndFlush(data, sent);
    }

    /** The tail of `addContext`: place the record, flush at the high-water mark. */
    method PlaceAndFlush(data: seq<Byte>, earlier: Option<FlushTask>) returns (outcome: AddOutcome, sent: Option<FlushTask>)
      requires Valid()
      requires 0 < |data| && slots[activeIdx].pos + |data| <= AGG_BUFFER_SIZE
      requires earlier.Some? ==> isFlushing
      modifies this, first, second
      ensures Valid()
      ensures AddResult(View(), sent, outcome) == AppendAndFlush(old(View()), data, earlier)
      ensures channel == if sent != earlier && sent.Some? then [sent.value] else old(channel)
      ensures sent != earlier ==> old(channel) == []
    {
      var a := Place(data);
      outcome := Added(a);
      sent := FlushAtMark(earlier);
    }

    /** Hand the active buffer over when it has reached the high-water mark. */
    method FlushAtMark(earlier: Option<FlushTask>) returns (sent: Option<FlushTask>)
      requires Valid()
      requires earlier.Some? ==> isFlushing
      modifies this
      ensures Valid()
      ensures
        var full := old(View());
        if |full.active.data| >= AGG_HIGH_WATER_MARK && !full.flushing then
          View() == Swap(full) && sent == if CanSwap(full) then Emitted(full) else earlier
        else View() == full && sent == earlier
      ensures channel == if sent != earlier && sent.Some? then [sent.value] else old(channel)
      ensures sent != earlier ==> old(channel) == []
    {
      sent := earlier;
      if slots[activeIdx].pos >= AGG_HIGH_WATER_MARK && !isFlushing {
        var last := SwapAndFlushLocked();
        sent := if last.Some? then last else sent;
      }
    }

    /** Copy the record behind the bytes already in the active buffer. */
    method Place(data: seq<Byte>) returns (a: Allocation)
      requires Valid()
      requires 0 < |data| && slots[activeIdx].pos + |data| <= AGG_BUFFER_SIZE
      modifies this, Buffer(activeIdx)
      ensures Valid()
      ensures View() == Append(old(View()), data)
      ensures a == Allocation(old(writeCursor), old(generation), old(sequence) + 1)
      ensures channel == old(channel)
    {
      ghost var before := View();
      CopyInto(Buffer(activeIdx), slots[activeIdx].pos, data);
      assert Used(1 - activeIdx) == before.other;
      assert Used(activeIdx) == before.active;
      a := Claim(|data|);
      assert Used(activeIdx).data == before.active.data + data;
    }

    /** Advance the cursor over `n` bytes that have just been copied in. */
    method Claim(n: nat) returns (a: Allocation)
      requires Valid()
      requires 0 < n && slots[activeIdx].pos + n <= AGG_BUFFER_SIZE
      modifies this
      ensures Valid() && activeIdx == old(activeIdx) && channel == old(channel)
      ensures View() == Append(old(View()), old(Buffer(activeIdx)[slots[activeIdx].pos..slots[activeIdx].pos + n]))
      ensures Used(activeIdx).data == old(Buffer(activeIdx)[..slots[activeIdx].pos + n])
      ensures a == Allocation(old(writeCursor), old(generation), old(sequence) + 1)
    {
      ghost var before := View();
      var idx, pos := activeIdx, slots[activeIdx].pos;
      var slot := if pos == 0 then slots[idx].(start := writeCursor, generation := generation) else slots[idx];
      sequence := sequence + 1;
      slots := slots[idx := slot.(pos := pos + n, lastSequence := sequence)];
      a := Allocation(writeCursor, generation, sequence);
      writeCursor := writeCursor + n;
      assert Used(1 - idx) == before.other;
      assert Buffer(idx)[..pos + n] == Buffer(idx)[..pos] + Buffer(idx)[pos..pos + n];
    }

    /** The disk worker takes the task out of the channel. */
    method Receive() returns (task: Option<FlushTask>)
      requires Valid()
      modifies this`channel
      ensures Valid() && channel == []
      ensures task == if old(channel) == [] then None else Some(old(channel)[0])
    {
      if channel == [] { return None; }
      task := Some(channel[0]);
      channel := [];
    }

    /** Called by the worker once it has taken the task out of the channel. */
    method NotifyFlushDone(failure: bool)
      requires Valid() && channel == []
      modifies this
      ensures Valid()
      ensures View() == Acknowledged(old(View()), failure)
      ensures channel == []
      ensures completed == if old(isFlushing) then old(View()).other.lastSequence else old(completed)
      ensures !isFlushing && (failed <==> old(failed) || failure)
      ensures View().active.data == if failed then [] else old(View()).active.data
    {
      if failure && !failed { failed := true; }
      if isFlushing {
        completed := slots[1 - activeIdx].lastSequence;
        isFlushing := false;
        inFlight := None;
      }
      if failed {
        slots := slots[activeIdx := slots[activeIdx].(pos := 0)];
      }
    }

    /** One lock-holding section of `flushThrough`. */
    method FlushSection(target: nat, cancelled: bool) returns (outcome: FlushOutcome, sent: Option<FlushTask>)
      requires Valid()
      modifies this
      ensures Valid()
      ensures (View(), sent, outcome) == FlushPoll(old(View()), target, cancelled)
      ensures sent.Some? ==> old(channel) == [] && channel == [sent.value]
    {
      if failed { return FlushFailed, None; }
      if cancelled { return FlushCancelled, None; }
      if completed >= target { return FlushDone, None; }
      sent := SwapAndFlushLocked();
      outcome := FlushMustWait;
    }

    /** The part of one buffer that starts at `offset`, at most `count` bytes. */
    method CopyFromBuffer(idx: nat, offset: int, count: nat) returns (p: seq<Byte>)
      requires Valid() && idx < 2 && Holds(Used(idx), offset)
      ensures p == Slice(Used(idx), offset, count)
    {
      var off := offset - slots[idx].start;
      var n := if off + count <= slots[idx].pos then off + count else slots[idx].pos;
      p := Buffer(idx)[off..n];
      assert p == Used(idx).data[off..n];
    }

    /**
     Read record bytes that are still in memory: the active buffer first, then
     the buffer in flight.
     */
    method CopyFrom(offset: int, count: nat) returns (p: seq<Byte>)
      requires Valid()
      ensures p == BufferedAt(View(), offset, count)
    {
      if 0 <= offset - slots[activeIdx].start < slots[activeIdx].pos {
        p := CopyFromBuffer(activeIdx, offset, count);
      } else if isFlushing && 0 <= offset - slots[1 - activeIdx].start < slots[1 - activeIdx].pos {
        p := CopyFromBuffer(1 - activeIdx, offset, count);
      } else {
        p := [];
      }
    }
  }

  /** Overwrite the bytes of `buffer` from `pos` on. */
  method CopyInto(buffer: array<Byte>, pos: nat, data: seq<Byte>)
    requires pos + |data| <= buffer.Length
    modifies buffer
    ensures buffer[..pos] == old(buffer[..pos]) && buffer[pos..pos + |data|] == data
  {
    forall i | 0 <= i < |data| {
      buffer[pos + i] := data[i];
    }
  }

  function Slice(batch: Batch, offset: int, count: nat): (p: seq<Byte>)
    requires 0 <= offset - batch.start < |batch.data|
    ensures p <= batch.data[offset - batch.start..]
  {
    var off := offset - batch.start;
    batch.data[off..if off + count <= |batch.data| then off + count else |batch.data|]
  }

  predicate Holds(batch: Batch, offset: int) {
    0 <= offset - batch.start < |batch.data|
  }

  /** At most `count` bytes at `offset` that have not left memory yet. */
  function BufferedAt(b: Agg, offset: int, count: nat): (p: seq<Byte>) {
    if Holds(b.active, offset) then Slice(b.active, offset, count)
    else if b.flushing && Holds(b.other, offset) then Slice(b.other, offset, count)
    else []
  }
}
