/**
 The streaming reader.  It loads one fragment at a time, and everybody else
 may change the directory between two loads; the version that it took from the
 first fragment keeps it from mixing two objects.
 */
module FragmentReader {
  import opened Common
  import opened Doc
  import opened Fragments
  import opened FragmentStore
  import opened FragmentWriter

  datatype Status = Good | Eof | Broken

  /** From now on nobody touches the object, which is committed. */
  ghost predicate Undisturbed(s: Store, key: Key, version: nat, info: seq<Octet>, stream: seq<Octet>)
    reads s
  {
    && Committed(s.disk, key, version, info, stream) && |stream| <= s.area
    && forall t | t >= s.clock :: LeavesAlone(s.others(t), key)
  }

  datatype Loaded = Nothing | Loaded(fragment: Fragment, version: nat, total: nat, index: nat, offset: nat)

  /** The reader stands at byte `at` of the object it started to read. */
  predicate StandsAt(l: Loaded, objects: Objects, at: nat) {
    if l.Nothing? then at == 0
    else
      var s := objects(l.version);
      && l.total == |s| && l.index * TARGET_FRAGMENT_SIZE <= |s| && l.fragment.data == Piece(s, l.index)
      && l.offset <= |l.fragment.data| && at == l.index * TARGET_FRAGMENT_SIZE + l.offset
  }

  class Reader {
    const key: Key
    const store: Store
    ghost const objects: Objects
    var loaded: Loaded
    var totalRead: nat
    var broken: bool

    ghost predicate Valid()
      reads this, store
    {
      && store.Valid() && Genuine(store.disk.log, objects) && GenuineOthers(store.others, objects)
      && (!broken ==> StandsAt(loaded, objects, totalRead))
    }

    constructor (k: Key, s: Store, ghost written: Objects)
      requires s.Valid() && Genuine(s.disk.log, written) && GenuineOthers(s.others, written)
      ensures Valid() && !broken && loaded == Nothing && totalRead == 0 && key == k && store == s && objects == written
    {
      key, store, objects := k, s, written;
      loaded, totalRead, broken := Nothing, 0, false;
    }

    /** The object of version `v` is committed, is the one being read, and is left alone from now on. */
    ghost predicate Calm(v: nat, info: seq<Octet>)
      reads this, store
    {
      && Undisturbed(store, key, v, info, objects(v))
      && (loaded.Loaded? ==> loaded.version == v)
    }

    /** Load fragment `i`: look it up, read it and check it. */
    method LoadFragment(i: nat, ghost v: nat, ghost info: seq<Octet>) returns (ok: bool)
      requires Valid() && !broken
      requires if loaded.Nothing? then i == 0 else i > 0 && totalRead == i * TARGET_FRAGMENT_SIZE && totalRead < loaded.total
      modifies this`loaded, this`broken, store
      ensures Valid() && broken == !ok
      ensures ok ==> loaded.Loaded? && loaded.index == i && loaded.offset == 0
      ensures ok && old(loaded).Loaded? ==> loaded.version == old(loaded).version && loaded.total == old(loaded).total
      ensures !ok ==> loaded == old(loaded)
      ensures old(Calm(v, info)) ==> ok && Calm(v, info)
    {
      ghost var calm, before, e := Calm(v, info), store.disk, store.others(store.clock);
      var refused := store.Wait();
      if calm {
        CommittedStays(before, e, key, v, info, objects(v));
        CommittedPasses(store.disk, key, v, info, objects(v), i, store.area);
      }
      var k := FragmentKey(key, i);
      if refused || k !in store.disk.dir {
        broken := true;
        return false;
      }
      var f := store.disk.log[store.disk.dir[k]];
      var total := if i == 0 then f.totalLen else loaded.total;
      if !ChainOk(f, key, i, total, store.area) || (loaded.Loaded? && loaded.version != f.version) {
        broken := true;
        return false;
      }
      PassingIsPiece(f, key, i, objects(f.version), store.area);
      loaded := Loaded(f, f.version, total, i, 0);
      ok := true;
    }

    /** Copy from the current fragment, or from the next one when this one is used up. */
    method ReadPart(room: nat, ghost v: nat, ghost info: seq<Octet>) returns (part: seq<Octet>, status: Status)
      requires Valid() && !broken && loaded.Loaded? && room > 0
      modifies this, store
      ensures Valid() && (broken <==> status == Broken) && loaded.Loaded? && loaded.version == old(loaded).version
      ensures totalRead == old(totalRead) + |part| <= |objects(loaded.version)|
      ensures part == objects(loaded.version)[old(totalRead)..totalRead]
      ensures |part| <= room && (part != [] <==> status == Good)
      ensures status == Eof ==> totalRead == |objects(loaded.version)|
      ensures old(Calm(v, info)) ==> status != Broken && Calm(v, info)
    {
      part := [];
      if loaded.offset >= |loaded.fragment.data| {
        if totalRead >= loaded.total {
          return part, Eof;
        }
        UsedUp(loaded, objects, totalRead);
        var ok := LoadFragment(loaded.index + 1, v, info);
        if !ok {
          return part, Broken;
        }
      }
      part := CopyOut(room);
      status := Good;
    }

    method CopyOut(room: nat) returns (part: seq<Octet>)
      requires Valid() && !broken && loaded.Loaded? && room > 0 && loaded.offset < |loaded.fragment.data|
      modifies this`loaded, this`totalRead
      ensures Valid() && loaded.Loaded? && loaded.version == old(loaded).version
      ensures totalRead == old(totalRead) + |part| <= |objects(loaded.version)| && 0 < |part| <= room
      ensures part == objects(loaded.version)[old(totalRead)..totalRead]
    {
      var n := Min(room, |loaded.fragment.data| - loaded.offset);
      SliceOf(objects(loaded.version), loaded.index, totalRead, loaded.offset, n);
      part := loaded.fragment.data[loaded.offset..loaded.offset + n];
      loaded := loaded.(offset := loaded.offset + n);
      totalRead := totalRead + n;
    }

    /**
     Read up to `size` bytes.  Whatever the others do, the bytes are the next
     bytes of the one object the reader started with; a read that fails gives a
     prefix of them, and no later read succeeds.
     */
    method Read(size: nat, ghost v: nat, ghost info: seq<Octet>) returns (out: seq<Octet>, status: Status)
      requires Valid()
      modifies this, store
      ensures Valid() && |out| <= size && totalRead == old(totalRead) + |out|
      ensures broken <==> status == Broken
      ensures old(broken) ==> status == Broken && out == []
      ensures out != [] ==>
        loaded.Loaded? && totalRead <= |objects(loaded.version)| && out == objects(loaded.version)[old(totalRead)..totalRead]
      ensures old(loaded).Loaded? ==> loaded.Loaded? && loaded.version == old(loaded).version
      ensures status == Eof ==> out == [] && loaded.Loaded? && totalRead == |objects(loaded.version)|
      ensures status == Good && |out| < size ==> out != [] && totalRead == |objects(loaded.version)|
      ensures old(!broken && Calm(v, info)) ==> status != Broken && Calm(v, info)
    {
      if broken {
        return [], Broken;
      }
      if loaded.Nothing? {
        var ok := LoadFragment(0, v, info);
        if !ok {
          return [], Broken;
        }
      }
      out, status := ReadLoaded(size, v, info);
    }

    /** Collect parts until the buffer is full or the object ends. */
    method ReadLoaded(size: nat, ghost v: nat, ghost info: seq<Octet>) returns (out: seq<Octet>, status: Status)
      requires Valid() && !broken && loaded.Loaded?
      modifies this, store
      ensures Valid() && (broken <==> status == Broken) && loaded.Loaded? && loaded.version == old(loaded).version
      ensures totalRead == old(totalRead) + |out| <= |objects(loaded.version)| && |out| <= size
      ensures out == objects(loaded.version)[old(totalRead)..totalRead]
      ensures status == Eof ==> out == [] && totalRead == |objects(loaded.version)|
      ensures status == Good && |out| < size ==> out != [] && totalRead == |objects(loaded.version)|
      ensures old(Calm(v, info)) ==> status != Broken && Calm(v, info)
    {
      out := [];
      while |out| < size
        invariant Valid() && !broken && loaded.Loaded? && loaded.version == old(loaded).version
        invariant totalRead == old(totalRead) + |out| <= |objects(loaded.version)| && |out| <= size
        invariant out == objects(loaded.version)[old(totalRead)..totalRead]
        invariant old(Calm(v, info)) ==> Calm(v, info)
        decreases size - |out|
      {
        var part, st := ReadPart(size - |out|, v, info);
        if st == Broken {
          return out, Broken;
        }
        if st == Eof {
          return out, if |out| == 0 then Eof else Good;
        }
        JoinSlices(objects(loaded.version), old(totalRead), totalRead - |part|, totalRead);
        out := out + part;
      }
      status := Good;
    }

    /** Read with buffers of the given sizes, one after the other. */
    method ReadAll(sizes: seq<nat>, ghost v: nat, ghost info: seq<Octet>) returns (out: seq<Octet>)
      requires Valid() && !broken && loaded.Nothing?
      modifies this, store
      ensures Valid() && |out| == totalRead <= Total(sizes)
      ensures out != [] ==> loaded.Loaded? && out <= objects(loaded.version)
      ensures old(Calm(v, info)) ==> !broken && Calm(v, info) && |out| == Min(Total(sizes), |objects(v)|)
    {
      out := [];
      var i := 0;
      while i < |sizes|
        invariant i <= |sizes| && Valid() && SoFar(out) && |out| <= Total(sizes[..i])
        invariant old(Calm(v, info)) ==> !broken && Calm(v, info) && |out| == Min(Total(sizes[..i]), |objects(v)|)
      {
        TotalOneMore(sizes, i);
        out := ReadMore(out, sizes[i], v, info);
        i := i + 1;
      }
      assert sizes[..i] == sizes;
    }

    /** Everything read up to now, in order. */
    ghost predicate SoFar(out: seq<Octet>)
      reads this
    {
      && totalRead == |out| && (loaded.Nothing? ==> out == [])
      && (loaded.Loaded? ==> totalRead <= |objects(loaded.version)| && out == objects(loaded.version)[..totalRead])
    }

    /** One more read behind what has been read. */
    method ReadMore(before: seq<Octet>, size: nat, ghost v: nat, ghost info: seq<Octet>) returns (out: seq<Octet>)
      requires Valid() && SoFar(before)
      modifies this, store
      ensures Valid() && SoFar(out) && |before| <= |out| <= |before| + size
      ensures old(!broken && Calm(v, info)) ==> !broken && Calm(v, info) && |out| == Min(|before| + size, |objects(v)|)
    {
      var part, _ := Read(size, v, info);
      out := before;
      if part != [] {
        JoinPrefix(objects(loaded.version), |before|, totalRead);
        out := before + part;
      }
    }
  }

  function Total(sizes: seq<nat>): nat {
    if sizes == [] then 0 else Total(sizes[..|sizes| - 1]) + sizes[|sizes| - 1]
  }

  lemma TotalOneMore(sizes: seq<nat>, i: nat)
    requires i < |sizes|
    ensures Total(sizes[..i + 1]) == Total(sizes[..i]) + sizes[i]
  {
    assert sizes[..i + 1][..i] == sizes[..i];
  }

  lemma JoinPrefix(s: seq<Octet>, b: nat, c: nat)
    requires b <= c <= |s|
    ensures s[..b] + s[b..c] == s[..c]
  {
  }

  lemma CommittedPasses(d: Disk, key: Key, version: nat, info: seq<Octet>, stream: seq<Octet>, i: nat, area: nat)
    requires Committed(d, key, version, info, stream) && |stream| <= area
    requires i * TARGET_FRAGMENT_SIZE < |stream| || i == 0
    ensures FragmentKey(key, i) in d.dir && d.dir[FragmentKey(key, i)] < |d.log|
    ensures
      var f := d.log[d.dir[FragmentKey(key, i)]];
      ChainOk(f, key, i, |stream|, area) && f.version == version
  {
    assert i < Count(|stream|);
    FragmentsPass(key, version, info, stream, i, area);
    assert Shows(d, FragmentKey(key, i), FragmentOf(key, version, info, stream, i));
  }

  lemma SliceOf(s: seq<Octet>, i: nat, at: nat, offset: nat, n: nat)
    requires i * TARGET_FRAGMENT_SIZE <= |s| && at == i * TARGET_FRAGMENT_SIZE + offset && offset + n <= |Piece(s, i)|
    ensures at + n <= |s| && Piece(s, i)[offset..offset + n] == s[at..at + n]
  {
  }

  /** A fragment that is used up before the end of the object was full; the next one has bytes. */
  lemma UsedUp(l: Loaded, objects: Objects, at: nat)
    requires l.Loaded? && StandsAt(l, objects, at) && l.offset == |l.fragment.data| && at < l.total
    ensures at == (l.index + 1) * TARGET_FRAGMENT_SIZE <= |objects(l.version)|
  {
  }
}
