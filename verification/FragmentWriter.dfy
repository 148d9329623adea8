/**
 The streaming writer.  Fragment 0 is held in memory until the writer is
 closed, because it carries the total length; storing it is the commit point.
 */
module FragmentWriter {
  import opened Common
  import opened Doc
  import opened Fragments
  import opened FragmentStore

  datatype Publication = Publication(key: FragmentKey, record: nat)

  datatype ReadResult = Bytes(data: seq<Octet>) | OnDisk | NotYet | End | Failed

  /** The first `n` fragments after fragment 0 were added to the ring as the given records. */
  predicate Recorded(log: seq<Fragment>, published: seq<Publication>, key: Key, version: nat, stream: seq<Octet>) {
    && |published| * TARGET_FRAGMENT_SIZE <= |stream|
    && forall i: nat | i < |published| ::
      && published[i].key == FragmentKey(key, i + 1) && published[i].record < |log|
      && (i + 1) * TARGET_FRAGMENT_SIZE <= |stream|
      && log[published[i].record] == FragmentOf(key, version, [], stream, i + 1)
  }

  /** Everything but the last, open piece is unchanged when the stream grows. */
  lemma RecordedGrows(log: seq<Fragment>, published: seq<Publication>, key: Key, version: nat, stream: seq<Octet>, more: seq<Octet>)
    requires Recorded(log, published, key, version, stream) && (|published| + 1) * TARGET_FRAGMENT_SIZE <= |stream|
    ensures Recorded(log, published, key, version, stream + more)
  {
    forall i: nat | i < |published|
      ensures log[published[i].record] == FragmentOf(key, version, [], stream + more, i + 1)
    {
      assert Piece(stream + more, i + 1) == Piece(stream, i + 1);
    }
  }

  lemma RecordedStays(log: seq<Fragment>, log': seq<Fragment>, published: seq<Publication>, key: Key, version: nat, stream: seq<Octet>)
    requires Recorded(log, published, key, version, stream) && log <= log'
    ensures Recorded(log', published, key, version, stream)
  {
  }

  lemma RecordedOneMore(
    log: seq<Fragment>, published: seq<Publication>, key: Key, version: nat, stream: seq<Octet>, p: Publication)
    requires Recorded(log, published, key, version, stream)
    requires (|published| + 1) * TARGET_FRAGMENT_SIZE <= |stream|
    requires p.key == FragmentKey(key, |published| + 1) && p.record < |log|
    requires log[p.record] == FragmentOf(key, version, [], stream, |published| + 1)
    ensures Recorded(log, published + [p], key, version, stream)
  {
  }

  /** Every published fragment is still in the directory. */
  predicate StillThere(d: Disk, published: seq<Publication>) {
    forall i | 0 <= i < |published| :: published[i].key in d.dir && d.dir[published[i].key] == published[i].record
  }

  lemma StillThereStays(d: Disk, e: Interference, key: Key, published: seq<Publication>)
    requires DiskOk(d) && LeavesAlone(e, key) && StillThere(d, published)
    requires forall i | 0 <= i < |published| :: published[i].key.first == key
    ensures StillThere(After(d, e), published)
  {
  }

  lemma StillThereOneMore(d: Disk, published: seq<Publication>, p: Publication)
    requires StillThere(d, published) && forall i | 0 <= i < |published| :: published[i].key != p.key
    ensures StillThere(Disk(d.log, d.dir[p.key := p.record]), published + [p])
  {
  }

  /** With all later fragments in place, storing fragment 0 commits the object. */
  lemma HeadCommits(d: Disk, published: seq<Publication>, key: Key, version: nat, info: seq<Octet>, stream: seq<Octet>, a: nat)
    requires DiskOk(d) && Recorded(d.log, published, key, version, stream) && StillThere(d, published)
    requires |published| + 1 == Count(|stream|)
    requires a < |d.log| && d.log[a] == FragmentOf(key, version, info, stream, 0)
    ensures Committed(Disk(d.log, d.dir[FragmentKey(key, 0) := a]), key, version, info, stream)
  {
    var d' := Disk(d.log, d.dir[FragmentKey(key, 0) := a]);
    forall i: nat | i < Count(|stream|)
      ensures i * TARGET_FRAGMENT_SIZE <= |stream| && Shows(d', FragmentKey(key, i), FragmentOf(key, version, info, stream, i))
    {
      if i > 0 {
        assert published[i - 1].key == FragmentKey(key, i);
      }
    }
  }

  /** The directory without the given publications; entries that have been replaced since stay. */
  function Without(dir: map<FragmentKey, nat>, published: seq<Publication>): map<FragmentKey, nat> {
    map k | k in dir && Publication(k, dir[k]) !in published :: dir[k]
  }

  lemma WithoutOneMore(dir: map<FragmentKey, nat>, published: seq<Publication>, i: nat)
    requires i < |published|
    ensures
      var before, p := Without(dir, published[..i]), published[i];
      Without(dir, published[..i + 1]) == if p.key in before && before[p.key] == p.record then before - {p.key} else before
  {
    assert published[..i + 1] == published[..i] + [published[i]];
  }

  /** The memory of an open writer. */
  datatype Held = Held(
    buffer: seq<Octet>,
    frag0: seq<Octet>,
    next: nat,
    total: nat,
    published: seq<Publication>)

  /** The logical stream is fragment 0, then the stored fragments, then the buffer. */
  predicate Holds(h: Held, stream: seq<Octet>, log: seq<Fragment>, key: Key, version: nat) {
    && h.total == |stream| == h.next * TARGET_FRAGMENT_SIZE + |h.buffer|
    && h.buffer == stream[h.next * TARGET_FRAGMENT_SIZE..]
    && (if h.next == 0 then h.frag0 == [] && h.published == []
        else h.frag0 == stream[..TARGET_FRAGMENT_SIZE] && |h.published| == h.next - 1)
    && Recorded(log, h.published, key, version, stream)
  }

  lemma BufferIsTail(h: Held, stream: seq<Octet>, offset: nat, n: nat)
    requires h.total == |stream| == h.next * TARGET_FRAGMENT_SIZE + |h.buffer|
    requires h.buffer == stream[h.next * TARGET_FRAGMENT_SIZE..]
    requires |stream| - |h.buffer| <= offset <= offset + n <= |stream|
    ensures
      var from := offset - (|stream| - |h.buffer|);
      h.buffer[from..from + n] == stream[offset..offset + n]
  {
  }

  lemma AppendSlice(a: seq<Octet>, p: seq<Octet>, n: nat, m: nat)
    requires n <= m <= |p|
    ensures a + p[..n] + p[n..m] == a + p[..m]
  {
  }

  lemma Frag0IsPrefix(frag0: seq<Octet>, stream: seq<Octet>, offset: nat, n: nat)
    requires frag0 <= stream && offset + n <= |frag0|
    ensures frag0[offset..offset + n] == stream[offset..offset + n]
  {
    assert forall i | offset <= i < offset + n :: frag0[i] == stream[i];
  }

  class Writer {
    const key: Key
    const version: nat
    const info: seq<Octet>
    const store: Store
    var held: Held
    var closed: bool
    var failed: bool
    ghost const foreign: Objects
    ghost var stream: seq<Octet>

    ghost predicate Valid()
      reads this, store
    {
      && store.Valid() && Own()
      && (failed ==> closed)
      && (!closed ==> Open() && |held.buffer| < TARGET_FRAGMENT_SIZE)
      && (closed ==> held.buffer == [] && held.frag0 == [])
      && (!failed ==> held.total == |stream| <= store.area)
    }

    /** All records with this version, on the disk or overwritten, are parts of the stream. */
    ghost predicate Own()
      reads this, store
    {
      && Exclusive(store.others, version) && GenuineOthers(store.others, foreign)
      && Genuine(store.disk.log, With(foreign, version, stream))
    }

    /** Nothing is committed yet and no byte of the stream is missing. */
    ghost predicate Open()
      reads this, store
    {
      && Own() && NoHead(store.disk.log, version) && Holds(held, stream, store.disk.log, key, version)
      && (Alone() ==> StillThere(store.disk, held.published))
    }

    /** Nobody refuses the writer or touches its key, and a fragment fits the buffer and the data area. */
    ghost predicate Alone() {
      && (forall t :: LeavesAlone(store.others(t), key))
      && HEADER_SIZE + |info| + TARGET_FRAGMENT_SIZE <= AGG_BUFFER_SIZE && HEADER_SIZE + |info| + TARGET_FRAGMENT_SIZE <= store.area
    }

    constructor (k: Key, v: nat, metadata: seq<Octet>, s: Store, ghost objects: Objects)
      requires s.Valid() && Exclusive(s.others, v) && forall f | f in s.disk.log :: f.version != v
      requires Genuine(s.disk.log, objects) && GenuineOthers(s.others, objects)
      ensures Valid() && !closed && stream == []
      ensures key == k && version == v && info == metadata && store == s && foreign == objects
    {
      key, version, info, store, foreign := k, v, metadata, s, objects;
      held := Held([], [], 0, 0, []);
      closed, failed, stream := false, false, [];
    }

    /**
     Read what the writer has at `offset`.  The bytes are those of the stream;
     `OnDisk` exactly when they have been stored and are no longer in memory.
     */
    method ReadAt(offset: nat, size: nat) returns (r: ReadResult)
      requires Valid()
      ensures size == 0 ==> r == Bytes([])
      ensures size > 0 ==> (r.Failed? <==> failed) && (r.Bytes? ==> 0 < |r.data| <= size)
      ensures size > 0 && r.Bytes? ==> offset + |r.data| <= |stream| && r.data == stream[offset..offset + |r.data|]
      ensures size > 0 && r.Bytes? ==> offset < |stream| && |r.data| == Min(size, |Piece(stream, offset / TARGET_FRAGMENT_SIZE)| - offset % TARGET_FRAGMENT_SIZE)
      ensures size > 0 ==> (r.OnDisk? <==>
        !failed && offset < |stream| && (closed || TARGET_FRAGMENT_SIZE <= offset < held.next * TARGET_FRAGMENT_SIZE))
      ensures size > 0 ==> (r.End? <==> !failed && closed && offset >= |stream|)
      ensures size > 0 ==> (r.NotYet? <==> !closed && offset >= |stream|)
    {
      if size == 0 {
        return Bytes([]);
      }
      if failed {
        return Failed;
      }
      if offset < held.total {
        var available := held.total - offset;
        var start := held.total - |held.buffer|;
        if offset >= start {
          r := Bytes(held.buffer[offset - start..offset - start + Min(size, available)]);
          BufferIsTail(held, stream, offset, Min(size, available));
          return;
        }
        if offset < |held.frag0| {
          r := Bytes(held.frag0[offset..offset + Min(size, |held.frag0| - offset)]);
          Frag0IsPrefix(held.frag0, stream, offset, Min(size, |held.frag0| - offset));
          return;
        }
        return OnDisk;
      }
      return if closed then End else NotYet;
    }

    /** Give up: forget everything and take back what is still this writer's own. */
    method Abort()
      requires store.Valid() && Own()
      modifies this, store
      ensures Valid() && closed && failed && stream == old(stream)
      ensures store.disk.log == old(store.disk).log && store.clock == old(store.clock)
      ensures store.disk.dir == Without(old(store.disk).dir, old(held.published))
    {
      var i := 0;
      while i < |held.published|
        invariant store.Valid() && i <= |held.published| && held == old(held) && stream == old(stream)
        invariant store.disk.log == old(store.disk).log && store.clock == old(store.clock)
        invariant store.disk.dir == Without(old(store.disk).dir, held.published[..i])
      {
        WithoutOneMore(old(store.disk).dir, held.published, i);
        store.Withdraw(held.published[i].key, held.published[i].record);
        i := i + 1;
      }
      assert held.published[..i] == held.published;
      held := held.(buffer := [], frag0 := [], published := []);
      closed, failed := true, true;
    }

    /** Whether every published fragment is still in the directory. */
    method AllThere() returns (ok: bool)
      ensures ok <==> StillThere(store.disk, held.published)
    {
      var i := 0;
      while i < |held.published|
        invariant i <= |held.published| && StillThere(store.disk, held.published[..i])
      {
        var p := held.published[i];
        if p.key !in store.disk.dir || store.disk.dir[p.key] != p.record {
          return false;
        }
        i := i + 1;
      }
      return true;
    }

    /**
     Add a fragment to the ring, wait until it is on the disk, and publish it.
     Fragment 0 is published only over a directory that still holds all the others.
     */
    method WriteFragment(f: Fragment) returns (ok: bool, ghost before: Disk, ghost a: nat)
      requires store.Valid() && Own() && f.version == version && BelongsTo(f, stream)
      requires Recorded(store.disk.log, held.published, key, version, stream)
      requires f.id.first == key && (f.id.index == 0 || f.id.index == |held.published| + 1)
      modifies this`held, store
      ensures store.Valid() && Own() && old(store.disk).log <= store.disk.log
      ensures f.id.index > 0 && NoHead(old(store.disk).log, version) ==> NoHead(store.disk.log, version)
      ensures !ok ==> held == old(held)
      ensures ok ==> held == old(held).(published := old(held).published + [Publication(f.id, a)])
      ensures ok ==> DiskOk(before) && old(store.disk).log <= before.log && a < |before.log| && before.log[a] == f
      ensures ok ==> store.disk == Disk(before.log, before.dir[f.id := a])
      ensures ok && f.id.index == 0 ==> StillThere(before, old(held).published)
      ensures Alone() && StillThere(old(store.disk), old(held).published) && |f.info| <= |info| && |f.data| <= TARGET_FRAGMENT_SIZE ==>
        ok && StillThere(store.disk, held.published)
    {
      before, a := store.disk, 0;
      var size := HEADER_SIZE + |f.info| + |f.data|;
      if size > AGG_BUFFER_SIZE || size > store.area {
        return false, before, a;
      }
      var refused, record := AddAndFlush(f);
      a, before := record, store.disk;
      if refused {
        return false, before, a;
      }
      if f.id.index == 0 {
        var there := AllThere();
        if !there {
          return false, before, a;
        }
      }
      if Alone() && StillThere(before, held.published) {
        StillThereOneMore(before, held.published, Publication(f.id, record));
      }
      store.Publish(f.id, record);
      held := held.(published := held.published + [Publication(f.id, record)]);
      ok := true;
    }

    /** Add a fragment to the ring and wait until it is on the disk; the others go on meanwhile. */
    method AddAndFlush(f: Fragment) returns (refused: bool, record: nat)
      requires store.Valid() && Own() && f.version == version && BelongsTo(f, stream)
      requires Recorded(store.disk.log, held.published, key, version, stream)
      modifies store
      ensures store.Valid() && Own() && old(store.disk).log <= store.disk.log
      ensures f.id.index > 0 && NoHead(old(store.disk).log, version) ==> NoHead(store.disk.log, version)
      ensures !refused ==> record < |store.disk.log| && store.disk.log[record] == f
      ensures Alone() && StillThere(old(store.disk), held.published) ==> !refused && StillThere(store.disk, held.published)
    {
      refused := Pause();
      record := 0;
      if !refused {
        record := store.Add(f);
        refused := Pause();
      }
    }

    /** The others have their turn. */
    method Pause() returns (refused: bool)
      requires store.Valid() && Own()
      modifies store
      ensures store.Valid() && Own() && old(store.disk).log <= store.disk.log
      ensures NoHead(old(store.disk).log, version) ==> NoHead(store.disk.log, version)
      ensures Alone() && OurKeys() && StillThere(old(store.disk), held.published) ==> !refused && StillThere(store.disk, held.published)
    {
      OthersAreGenuine(store.others, foreign, version, stream);
      if Alone() && OurKeys() && StillThere(store.disk, held.published) {
        StillThereStays(store.disk, store.others(store.clock), key, held.published);
      }
      refused := store.Wait();
    }

    ghost predicate OurKeys()
      reads this
    {
      forall i | 0 <= i < |held.published| :: held.published[i].key.first == key
    }

    /** Store full fragments; the first one is held back. */
    method ProcessBuffer() returns (ok: bool)
      requires store.Valid() && Open() && |held.buffer| <= TARGET_FRAGMENT_SIZE
      modifies this`held, store
      ensures store.Valid() && Own()
      ensures ok ==> Open() && |held.buffer| < TARGET_FRAGMENT_SIZE
      ensures Alone() ==> ok
    {
      while |held.buffer| >= TARGET_FRAGMENT_SIZE
        invariant store.Valid() && Open() && |held.buffer| <= TARGET_FRAGMENT_SIZE
        decreases |held.buffer|
      {
        var chunk := held.buffer[..TARGET_FRAGMENT_SIZE];
        if held.next == 0 {
          held := held.(frag0 := chunk, buffer := held.buffer[TARGET_FRAGMENT_SIZE..], next := 1);
        } else {
          ok := StoreChunk(chunk);
          if !ok {
            return;
          }
        }
      }
      ok := true;
    }

    /** Store a full buffer as the next fragment. */
    method StoreChunk(chunk: seq<Octet>) returns (ok: bool)
      requires store.Valid() && Open() && held.next > 0
      requires |held.buffer| == TARGET_FRAGMENT_SIZE && chunk == held.buffer
      modifies this`held, store
      ensures store.Valid() && Own()
      ensures ok ==> Open() && |held.buffer| < TARGET_FRAGMENT_SIZE
      ensures Alone() ==> ok
    {
      ghost var h0 := held;
      var f := Fragment(FragmentKey(key, held.next), version, held.total, [], chunk);
      assert f == FragmentOf(key, version, [], stream, held.next);
      StoredBelongs(key, version, [], stream, [], held.next);
      assert stream + [] == stream;
      ghost var before, a;
      ok, before, a := WriteFragment(f);
      if ok {
        RecordedStays(old(store.disk).log, store.disk.log, h0.published, key, version, stream);
        RecordedOneMore(store.disk.log, h0.published, key, version, stream, Publication(f.id, a));
        held := held.(buffer := held.buffer[TARGET_FRAGMENT_SIZE..], next := held.next + 1);
      }
    }

    /** Append bytes to the stream, one fragment at a time. */
    method Write(p: seq<Octet>, cancelled: bool) returns (n: nat, ok: bool)
      requires Valid()
      modifies this, store
      ensures Valid() && n <= |p|
      ensures old(closed) ==> !ok && n == 0 && closed && failed == old(failed)
      ensures !old(closed) ==> stream == old(stream) + p[..n] && (ok <==> !closed) && (!ok ==> failed)
      ensures ok ==> n == |p|
      ensures !old(closed) && !cancelled && |old(stream)| + |p| <= store.area && Alone() ==> ok
    {
      if closed {
        return 0, false;
      }
      if cancelled || |p| + held.total > store.area {
        Abort();
        return 0, false;
      }
      n := 0;
      while n < |p|
        invariant Valid() && !closed && n <= |p| && stream == old(stream) + p[..n] && |old(stream)| + |p| <= store.area
      {
        var take := Min(TARGET_FRAGMENT_SIZE - |held.buffer|, |p| - n);
        AppendSlice(old(stream), p, n, n + take);
        ok := Accept(p[n..n + take]);
        n := n + take;
        if !ok {
          Abort();
          return n, false;
        }
      }
      ok := true;
    }

    /** Take bytes for which there is room in the buffer, and store it when it is full. */
    method Accept(part: seq<Octet>) returns (ok: bool)
      requires store.Valid() && Open() && |held.buffer| + |part| <= TARGET_FRAGMENT_SIZE
      modifies this`held, this`stream, store
      ensures store.Valid() && Own() && stream == old(stream) + part
      ensures ok ==> Open() && |held.buffer| < TARGET_FRAGMENT_SIZE
      ensures Alone() ==> ok
    {
      Take(part);
      ok := ProcessBuffer();
    }

    /** Move bytes into the buffer. */
    method Take(p: seq<Octet>)
      requires store.Valid() && Open()
      modifies this`held, this`stream
      ensures stream == old(stream) + p && Open()
      ensures |held.buffer| == |old(held).buffer| + |p|
    {
      GenuineGrows(store.disk.log, foreign, version, stream, p);
      if held.next > 0 {
        RecordedGrows(store.disk.log, held.published, key, version, stream, p);
      }
      held := held.(buffer := held.buffer + p, total := held.total + |p|);
      stream := stream + p;
    }

    /** Store what is left and then fragment 0; after success the whole object is in the directory. */
    method Close() returns (ok: bool)
      requires Valid()
      modifies this, store
      ensures Valid() && closed && stream == old(stream) && (ok <==> !failed)
      ensures old(closed) ==> failed == old(failed) && store.disk == old(store.disk)
      ensures ok && !old(closed) ==> Committed(store.disk, key, version, info, stream)
      ensures !old(closed) && Alone() ==> ok
    {
      if closed {
        return !failed;
      }
      ok := StoreRest();
      if ok {
        ok := StoreHead();
      }
      if !ok {
        Abort();
        return;
      }
      held := held.(buffer := [], frag0 := [], published := []);
      closed := true;
    }

    /** What is in the buffer becomes fragment 0 of a short object or the last fragment of a long one. */
    method StoreRest() returns (ok: bool)
      requires store.Valid() && Open() && |held.buffer| < TARGET_FRAGMENT_SIZE
      modifies this`held, store
      ensures store.Valid() && Own() && held.total == old(held).total
      ensures ok ==> held.frag0 == Piece(stream, 0) && |held.published| + 1 == Count(|stream|)
      ensures ok ==> Recorded(store.disk.log, held.published, key, version, stream)
      ensures Alone() ==> ok && StillThere(store.disk, held.published)
    {
      if |held.buffer| == 0 {
        return true;
      }
      if held.next == 0 {
        held := held.(frag0 := held.buffer, buffer := []);
        return true;
      }
      ghost var h0 := held;
      var f := Fragment(FragmentKey(key, held.next), version, held.total, [], held.buffer);
      assert f == FragmentOf(key, version, [], stream, held.next);
      StoredBelongs(key, version, [], stream, [], held.next);
      assert stream + [] == stream;
      ghost var before, a;
      ok, before, a := WriteFragment(f);
      if ok {
        RecordedStays(old(store.disk).log, store.disk.log, h0.published, key, version, stream);
        RecordedOneMore(store.disk.log, h0.published, key, version, stream, Publication(f.id, a));
        held := held.(buffer := [], next := held.next + 1);
      }
    }

    /** The commit point. */
    method StoreHead() returns (ok: bool)
      requires store.Valid() && Own() && Recorded(store.disk.log, held.published, key, version, stream)
      requires held.frag0 == Piece(stream, 0) && |held.published| + 1 == Count(|stream|) && held.total == |stream|
      modifies this`held, store
      ensures store.Valid() && Own() && held.total == old(held).total
      ensures ok ==> Committed(store.disk, key, version, info, stream)
      ensures Alone() && StillThere(old(store.disk), old(held).published) ==> ok
    {
      ghost var h0 := held;
      var f := Fragment(FragmentKey(key, 0), version, held.total, info, held.frag0);
      StoredBelongs(key, version, info, stream, [], 0);
      assert stream + [] == stream;
      ghost var before, a;
      ok, before, a := WriteFragment(f);
      if ok {
        RecordedStays(old(store.disk).log, before.log, h0.published, key, version, stream);
        HeadCommits(before, h0.published, key, version, info, stream, a);
      }
    }
  }
}
