/**
 Writer and reader together: what is written with any buffers is read back
 with any buffers, and a reader may follow a writer that has not finished.
 */
module FragmentRoundTrip {
  import opened Common
  import opened Doc
  import opened Fragments
  import opened FragmentStore
  import opened FragmentWriter
  import opened FragmentReader

  function Flatten(chunks: seq<seq<Octet>>): seq<Octet> {
    if chunks == [] then [] else Flatten(chunks[..|chunks| - 1]) + chunks[|chunks| - 1]
  }

  method WriteWhole(w: Writer, p: seq<Octet>) returns (ok: bool)
    requires w.Valid() && !w.closed
    modifies w, w.store
    ensures w.Valid() && (ok <==> !w.closed) && (ok ==> w.stream == old(w.stream) + p)
    ensures w.Alone() && |old(w.stream)| + |p| <= w.store.area ==> ok
  {
    var n;
    n, ok := w.Write(p, false);
    if ok {
      assert p[..n] == p;
    }
  }

  /** Write all chunks; success means the stream is their concatenation. */
  method WriteAll(w: Writer, chunks: seq<seq<Octet>>) returns (ok: bool)
    requires w.Valid() && !w.closed
    modifies w, w.store
    ensures w.Valid() && (ok <==> !w.closed)
    ensures ok ==> w.stream == old(w.stream) + Flatten(chunks)
    ensures w.Alone() && |old(w.stream)| + |Flatten(chunks)| <= w.store.area ==> ok
    decreases |chunks|
  {
    if chunks == [] {
      return true;
    }
    ok := WriteAll(w, chunks[..|chunks| - 1]);
    if ok {
      ok := WriteWhole(w, chunks[|chunks| - 1]);
    }
  }

  /** Write all chunks and close: success commits everything written. */
  method WriteObject(w: Writer, chunks: seq<seq<Octet>>) returns (ok: bool)
    requires w.Valid() && !w.closed
    modifies w, w.store
    ensures w.store.Valid() && Genuine(w.store.disk.log, With(w.foreign, w.version, w.stream))
    ensures ok ==> w.stream == old(w.stream) + Flatten(chunks) && Committed(w.store.disk, w.key, w.version, w.info, w.stream)
    ensures ok ==> |w.stream| <= w.store.area
    ensures w.Alone() && |old(w.stream)| + |Flatten(chunks)| <= w.store.area ==> ok
  {
    ok := WriteAll(w, chunks);
    if ok {
      ok := w.Close();
    }
  }

  /** Nobody refuses or touches the key, and every fragment fits. */
  ghost predicate Unhindered(s: Store, key: Key, info: seq<Octet>) {
    && (forall t :: LeavesAlone(s.others(t), key))
    && HEADER_SIZE + |info| + TARGET_FRAGMENT_SIZE <= Min(AGG_BUFFER_SIZE, s.area)
  }

  /** Nobody touches the key from time `t0` on. */
  ghost predicate QuietFrom(s: Store, key: Key, t0: nat) {
    forall t | t >= t0 :: LeavesAlone(s.others(t), key)
  }

  lemma UnhinderedIsAlone(w: Writer)
    ensures Unhindered(w.store, w.key, w.info) <==> w.Alone()
  {
  }

  /**
   For every way to cut the bytes into writes and every sequence of read
   buffers: a successful close, whatever happened while writing, followed by a
   read that nobody disturbs gives back the bytes that were written, and the
   read after the last byte reports the end.  The close does succeed if nobody
   refuses or disturbs the writer and the object fits.
   */
  method RoundTrip(
    s: Store, key: Key, version: nat, info: seq<Octet>, chunks: seq<seq<Octet>>, sizes: seq<nat>, ghost objects: Objects)
    returns (ok: bool, out: seq<Octet>, ended: bool, ghost closedAt: nat)
    requires s.Valid() && Exclusive(s.others, version) && forall f | f in s.disk.log :: f.version != version
    requires Genuine(s.disk.log, objects) && GenuineOthers(s.others, objects)
    modifies s
    ensures Unhindered(s, key, info) && |Flatten(chunks)| <= s.area ==> ok
    ensures ok && QuietFrom(s, key, closedAt) ==> out == Flatten(chunks)[..Min(Total(sizes), |Flatten(chunks)|)]
    ensures ok && QuietFrom(s, key, closedAt) && Total(sizes) >= |Flatten(chunks)| ==> ended
  {
    out, ended := [], false;
    var w := new Writer(key, version, info, s, objects);
    UnhinderedIsAlone(w);
    ok := WriteObject(w, chunks);
    closedAt := s.clock;
    if ok {
      out, ended := ReadBack(w, sizes);
    }
  }

  /** Read what a writer has committed. */
  method ReadBack(w: Writer, sizes: seq<nat>) returns (out: seq<Octet>, ended: bool)
    requires w.store.Valid() && Exclusive(w.store.others, w.version) && GenuineOthers(w.store.others, w.foreign)
    requires Genuine(w.store.disk.log, With(w.foreign, w.version, w.stream))
    requires Committed(w.store.disk, w.key, w.version, w.info, w.stream) && |w.stream| <= w.store.area
    modifies w.store
    ensures QuietFrom(w.store, w.key, old(w.store.clock)) ==> out == w.stream[..Min(Total(sizes), |w.stream|)]
    ensures QuietFrom(w.store, w.key, old(w.store.clock)) && Total(sizes) >= |w.stream| ==> ended
  {
    OthersAreGenuine(w.store.others, w.foreign, w.version, w.stream);
    out, ended := ReadObject(w.store, w.key, w.version, w.info, sizes, w.stream, With(w.foreign, w.version, w.stream));
  }

  /** Open a committed object and read it; undisturbed, the result is the object up to the buffers' total size. */
  method ReadObject(
    s: Store, key: Key, version: nat, info: seq<Octet>, sizes: seq<nat>, ghost stream: seq<Octet>, ghost objects: Objects)
    returns (out: seq<Octet>, ended: bool)
    requires s.Valid() && Genuine(s.disk.log, objects) && GenuineOthers(s.others, objects) && objects(version) == stream
    requires Committed(s.disk, key, version, info, stream) && |stream| <= s.area
    modifies s
    ensures QuietFrom(s, key, old(s.clock)) ==> out == stream[..Min(Total(sizes), |stream|)]
    ensures QuietFrom(s, key, old(s.clock)) && Total(sizes) >= |stream| ==> ended
  {
    var r := new Reader(key, s, objects);
    out := r.ReadAll(sizes, version, info);
    var _, status := r.Read(1, version, info);
    ended := status == Eof;
  }

  /** A stored fragment of a write that may still go on holds the bytes at its place. */
  lemma StoredSlice(f: Fragment, key: Key, i: nat, stream: seq<Octet>, area: nat, offset: nat, n: nat)
    requires ShapeOk(f, key, i, area) && BelongsTo(f, stream) && offset + n <= |f.data|
    ensures
      var at := i * TARGET_FRAGMENT_SIZE + offset;
      at + n <= |stream| && f.data[offset..offset + n] == stream[at..at + n]
  {
    if i == 0 {
      assert f.data == stream[..|f.data|];
    }
  }

  /** At most `size` bytes of a fragment from `offset` on; none if there is no fragment or it is too short. */
  function PartOf(f: seq<Fragment>, offset: nat, size: nat): seq<Octet> {
    if f == [] || |f[0].data| <= offset then [] else f[0].data[offset..offset + Min(size, |f[0].data| - offset)]
  }

  /** A reader that follows a writer. */
  class TailingReader {
    const writer: Writer
    var totalRead: nat
    var broken: bool

    constructor (w: Writer)
      ensures writer == w && totalRead == 0 && !broken
    {
      writer, totalRead, broken := w, 0, false;
    }

    ghost predicate Valid()
      reads this, writer, writer.store
    {
      writer.Valid()
    }

    /**
     One round of the reading loop.  The bytes come from the memory of the
     writer or from the fragment it has stored, and are the next bytes of its
     stream in either case.  No bytes and no error means another round: that is
     the answer to an empty buffer, always.
     */
    method Read(size: nat) returns (out: seq<Octet>, status: ReadResult)
      requires Valid()
      modifies this, writer.store
      ensures Valid() && totalRead == old(totalRead) + |out| && |out| <= size
      ensures writer.stream == old(writer.stream)
      ensures out != [] ==> totalRead <= |writer.stream| && out == writer.stream[old(totalRead)..totalRead]
      ensures status.Bytes? <==> out != [] || (size == 0 && !old(broken))
      ensures size == 0 ==> broken == old(broken) && writer.store.disk == old(writer.store.disk)
      ensures status.Failed? <==> broken
      ensures status.End? ==> writer.closed && totalRead >= |writer.stream|
      ensures size > 0 && !old(broken) ==>
        && (status.End? <==> !writer.failed && writer.closed && old(totalRead) >= |writer.stream|)
        && (status.NotYet? <==> !writer.closed && old(totalRead) >= |writer.stream|)
        && (writer.failed ==> status.Failed?)
      ensures size > 0 && !old(broken) && Reachable(old(totalRead), old(writer.store.clock)) ==>
        status == Bytes(out) && |out| == Min(size, |Piece(writer.stream, old(totalRead) / TARGET_FRAGMENT_SIZE)| - old(totalRead) % TARGET_FRAGMENT_SIZE) > 0
    {
      out := [];
      if broken {
        return [], Failed;
      }
      var r := writer.ReadAt(totalRead, size);
      if size == 0 {
        return [], r;
      }
      match r {
        case Bytes(data) =>
          out := data;
        case OnDisk =>
          out := ReadStored(size, writer.info);
        case NotYet => return [], NotYet;
        case End => return [], End;
        case Failed =>
      }
      broken := out == [];
      totalRead := totalRead + |out|;
      status := if broken then Failed else Bytes(out);
    }

    /** The byte at `offset` is in the writer's memory, or its fragment is still in the directory. */
    ghost predicate Reachable(offset: nat, t: nat)
      reads this, writer, writer.store
    {
      && !writer.failed && offset < |writer.stream|
      && ((!writer.closed && (offset < TARGET_FRAGMENT_SIZE || writer.held.next * TARGET_FRAGMENT_SIZE <= offset))
          || Kept(offset / TARGET_FRAGMENT_SIZE, writer.info, t))
    }

    /** While nobody disturbs an open writer, every byte it has taken can be reached. */
    lemma AloneIsReachable(offset: nat, t: nat)
      requires Valid() && writer.Alone() && !writer.closed && offset < |writer.stream|
      ensures Reachable(offset, t)
    {
      var i, held := offset / TARGET_FRAGMENT_SIZE, writer.held;
      if 0 < i < held.next {
        assert held.published[i - 1].key == FragmentKey(writer.key, i);
        assert LeavesAlone(writer.store.others(t), writer.key);
      }
    }

    /**
     A reader with any buffer follows an open writer that nobody disturbs up to
     the last byte it has taken, and then has to wait.
     */
    method Follow(size: nat) returns (out: seq<Octet>, status: ReadResult)
      requires Valid() && size > 0 && !broken && totalRead <= |writer.stream|
      requires !writer.closed && writer.Alone()
      modifies this, writer.store
      ensures Valid() && !broken && totalRead == |writer.stream|
      ensures out == writer.stream[old(totalRead)..] && status == NotYet
    {
      out, status := [], Bytes([]);
      while !status.NotYet?
        invariant Valid() && !broken && old(totalRead) <= totalRead <= |writer.stream|
        invariant out == writer.stream[old(totalRead)..totalRead] && (status.NotYet? ==> totalRead == |writer.stream|)
        decreases |writer.stream| - totalRead, if status.NotYet? then 0 else 1
      {
        out, status := FollowOnce(size, out, old(totalRead));
      }
    }

    method FollowOnce(size: nat, sofar: seq<Octet>, ghost from: nat) returns (out: seq<Octet>, status: ReadResult)
      requires Valid() && size > 0 && !broken && from <= totalRead <= |writer.stream|
      requires !writer.closed && writer.Alone() && sofar == writer.stream[from..totalRead]
      modifies this, writer.store
      ensures Valid() && !broken && old(totalRead) <= totalRead <= |writer.stream| && out == writer.stream[from..totalRead]
      ensures if status.NotYet? then totalRead == |writer.stream| else old(totalRead) < totalRead
    {
      ghost var t := writer.store.clock;
      var more;
      more, status := Read(size);
      if old(totalRead) < |writer.stream| { AloneIsReachable(old(totalRead), t); }
      if more != [] { JoinSlices(writer.stream, from, old(totalRead), totalRead); }
      out := sofar + more;
    }

    /** The reading loop, for at most `rounds` rounds: it never ends for an empty buffer and needs one round for any other. */
    method ReadRounds(size: nat, rounds: nat) returns (done: bool, out: seq<Octet>)
      requires Valid()
      modifies this, writer.store
      ensures Valid() && totalRead == old(totalRead) + |out| && |out| <= size
      ensures done <==> rounds > 0 && (size > 0 || old(broken))
    {
      done, out := false, [];
      var i := 0;
      while i < rounds && !done
        invariant Valid() && totalRead == old(totalRead) + |out| && |out| <= size && (!done ==> out == [])
        invariant i <= rounds && (done <==> i > 0 && (size > 0 || old(broken)))
        invariant !done ==> broken == old(broken)
        decreases rounds - i, !done
      {
        var status;
        out, status := Read(size);
        done := out != [] || !status.Bytes?;
        i := i + 1;
      }
    }

    /**
     Load the fragment at the reading position.  The result is a slice of the
     stream, and if the writer's own fragment is still in the directory it is
     not empty.
     */
    method ReadStored(size: nat, ghost info: seq<Octet>) returns (out: seq<Octet>)
      requires Valid() && size > 0 && totalRead < |writer.stream|
      modifies writer.store
      ensures Valid() && |out| <= size
      ensures totalRead + |out| <= |writer.stream| && out == writer.stream[totalRead..totalRead + |out|]
      ensures
        var i := totalRead / TARGET_FRAGMENT_SIZE;
        i * TARGET_FRAGMENT_SIZE <= |writer.stream| && (Kept(i, info, old(writer.store.clock)) ==>
          |out| == Min(size, |Piece(writer.stream, i)| - totalRead % TARGET_FRAGMENT_SIZE) > 0)
    {
      var i, offset := totalRead / TARGET_FRAGMENT_SIZE, totalRead % TARGET_FRAGMENT_SIZE;
      var f := Fetch(i, info);
      out := PartOf(f, offset, size);
      if out != [] {
        StoredSlice(f[0], writer.key, i, writer.stream, writer.store.area, offset, |out|);
      }
    }

    /** The writer's own fragment `i` is in the directory now, after the turn of the others at time `t`. */
    ghost predicate Kept(i: nat, info: seq<Octet>, t: nat)
      requires i * TARGET_FRAGMENT_SIZE <= |writer.stream|
      reads writer, writer.store
    {
      && !writer.store.others(t).refused && |writer.stream| <= writer.store.area
      && Shows(writer.store.disk, FragmentKey(writer.key, i), FragmentOf(writer.key, writer.version, info, writer.stream, i))
    }

    /** Look up and check one fragment; an empty result stands for an error. */
    method Fetch(i: nat, ghost info: seq<Octet>) returns (r: seq<Fragment>)
      requires Valid() && i * TARGET_FRAGMENT_SIZE < |writer.stream|
      modifies writer.store
      ensures Valid() && |r| <= 1
      ensures r != [] ==> ShapeOk(r[0], writer.key, i, writer.store.area) && BelongsTo(r[0], writer.stream)
      ensures Kept(i, info, old(writer.store.clock)) ==>
        r == [FragmentOf(writer.key, writer.version, info, writer.stream, i)]
    {
      var refused := Turn();
      var k := FragmentKey(writer.key, i);
      if refused || k !in writer.store.disk.dir {
        return [];
      }
      var f := writer.store.disk.log[writer.store.disk.dir[k]];
      if !ShapeOk(f, writer.key, i, writer.store.area) || f.version != writer.version {
        return [];
      }
      return [f];
    }

    /** The others have their turn; what the writer holds stays true. */
    method Turn() returns (refused: bool)
      requires writer.Valid()
      modifies writer.store
      ensures writer.Valid() && refused == old(writer.store.others(writer.store.clock)).refused
    {
      OthersAreGenuine(writer.store.others, writer.foreign, writer.version, writer.stream);
      refused := writer.store.Wait();
    }
  }
}
