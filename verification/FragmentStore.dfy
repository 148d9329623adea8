/**
 What writers and readers of objects share: the records added to the ring and
 the directory entries that are valid right now.  Between any two critical
 sections everybody else may add records, publish, replace and lose entries.
 */
module FragmentStore {
  import opened Common
  import opened Doc
  import opened Fragments

  /** Records are named by the order of their addition and never change; `dir` holds the valid entries only. */
  datatype Disk = Disk(log: seq<Fragment>, dir: map<FragmentKey, nat>)

  predicate DiskOk(d: Disk) {
    forall k | k in d.dir :: d.dir[k] < |d.log|
  }

  /** What the others do between two critical sections, and whether the next one is refused. */
  datatype Interference = Interference(
    added: seq<Fragment>,
    gone: set<FragmentKey>,
    published: map<FragmentKey, nat>,
    refused: bool)

  function After(d: Disk, e: Interference): (d': Disk)
    requires DiskOk(d)
    ensures DiskOk(d') && d.log <= d'.log
  {
    var log := d.log + e.added;
    Disk(log, (d.dir - e.gone) + map k | k in e.published && e.published[k] < |log| :: e.published[k])
  }

  /** The valid fragment stored under a key. */
  predicate Shows(d: Disk, k: FragmentKey, f: Fragment) {
    k in d.dir && d.dir[k] < |d.log| && d.log[d.dir[k]] == f
  }

  /** All fragments of the object are in the directory. */
  predicate Committed(d: Disk, key: Key, version: nat, info: seq<Octet>, stream: seq<Octet>) {
    forall i: nat | i < Count(|stream|) ::
      i * TARGET_FRAGMENT_SIZE <= |stream| && Shows(d, FragmentKey(key, i), FragmentOf(key, version, info, stream, i))
  }

  /** The others leave the fragments of `key` alone. */
  predicate LeavesAlone(e: Interference, key: Key) {
    !e.refused && (forall k | k in e.gone :: k.first != key) && (forall k | k in e.published :: k.first != key)
  }

  lemma CommittedStays(d: Disk, e: Interference, key: Key, version: nat, info: seq<Octet>, stream: seq<Octet>)
    requires DiskOk(d) && Committed(d, key, version, info, stream) && LeavesAlone(e, key)
    ensures Committed(After(d, e), key, version, info, stream)
  {
    var d' := After(d, e);
    forall i: nat | i < Count(|stream|)
      ensures i * TARGET_FRAGMENT_SIZE <= |stream| && Shows(d', FragmentKey(key, i), FragmentOf(key, version, info, stream, i))
    {
      assert Shows(d, FragmentKey(key, i), FragmentOf(key, version, info, stream, i));
    }
  }

  /** What each write has written, by version. */
  type Objects = nat -> seq<Octet>

  /** Every record belongs to what the writer with its version wrote. */
  ghost predicate Genuine(log: seq<Fragment>, objects: Objects) {
    forall i | 0 <= i < |log| :: BelongsTo(log[i], objects(log[i].version))
  }

  ghost predicate GenuineOthers(others: nat -> Interference, objects: Objects) {
    forall t :: Genuine(others(t).added, objects)
  }

  function With(objects: Objects, version: nat, stream: seq<Octet>): Objects {
    v => if v == version then stream else objects(v)
  }

  /** The given write has not stored its fragment 0. */
  predicate NoHead(log: seq<Fragment>, version: nat) {
    forall i | 0 <= i < |log| && log[i].version == version :: log[i].id.index > 0
  }

  /** Versions are drawn at random; nobody else uses this one. */
  ghost predicate Exclusive(others: nat -> Interference, version: nat) {
    forall t, i | 0 <= i < |others(t).added| :: others(t).added[i].version != version
  }

  lemma BelongsToMore(f: Fragment, stream: seq<Octet>, more: seq<Octet>)
    requires BelongsTo(f, stream) && f.id.index > 0
    ensures BelongsTo(f, stream + more)
  {
    assert (stream + more)[f.totalLen - |f.data|..f.totalLen] == stream[f.totalLen - |f.data|..f.totalLen];
  }

  lemma GenuineGrows(log: seq<Fragment>, objects: Objects, version: nat, stream: seq<Octet>, more: seq<Octet>)
    requires Genuine(log, With(objects, version, stream)) && NoHead(log, version)
    ensures Genuine(log, With(objects, version, stream + more))
  {
    forall i | 0 <= i < |log|
      ensures BelongsTo(log[i], With(objects, version, stream + more)(log[i].version))
    {
      var f := log[i];
      assert BelongsTo(f, With(objects, version, stream)(f.version));
      if f.version == version {
        BelongsToMore(f, stream, more);
      }
    }
  }

  /** What the others add does not touch the write with an exclusive version. */
  lemma OthersAreGenuine(others: nat -> Interference, objects: Objects, version: nat, stream: seq<Octet>)
    requires Exclusive(others, version) && GenuineOthers(others, objects)
    ensures GenuineOthers(others, With(objects, version, stream))
  {
    forall t
      ensures Genuine(others(t).added, With(objects, version, stream))
    {
      assert Genuine(others(t).added, objects);
    }
  }

  class Store {
    /** The size of the data area, which no object may exceed. */
    const area: nat
    const others: nat -> Interference
    var clock: nat
    var disk: Disk

    ghost predicate Valid()
      reads this
    {
      DiskOk(disk)
    }

    constructor (size: nat, schedule: nat -> Interference)
      ensures Valid() && area == size && others == schedule && disk == Disk([], map[])
    {
      area, others, clock, disk := size, schedule, 0, Disk([], map[]);
    }

    /** Let the others have their turn. */
    method Wait() returns (refused: bool)
      requires Valid()
      modifies this
      ensures Valid() && clock == old(clock) + 1
      ensures disk == After(old(disk), others(old(clock))) && refused == others(old(clock)).refused
      ensures forall objects | GenuineOthers(others, objects) && Genuine(old(disk).log, objects) :: Genuine(disk.log, objects)
      ensures forall v | Exclusive(others, v) && NoHead(old(disk).log, v) :: NoHead(disk.log, v)
    {
      refused := others(clock).refused;
      disk := After(disk, others(clock));
      clock := clock + 1;
    }

    /** Add a record to the ring; it is not visible to anyone yet. */
    method Add(f: Fragment) returns (a: nat)
      requires Valid()
      modifies this`disk
      ensures Valid() && a == |old(disk).log| && disk == Disk(old(disk).log + [f], old(disk).dir)
    {
      a := |disk.log|;
      disk := disk.(log := disk.log + [f]);
    }

    /** Make a record visible under its key. */
    method Publish(k: FragmentKey, a: nat)
      requires Valid() && a < |disk.log|
      modifies this`disk
      ensures Valid() && disk == Disk(old(disk).log, old(disk).dir[k := a])
    {
      disk := disk.(dir := disk.dir[k := a]);
    }

    /** Remove an entry if it is still the one for record `a`. */
    method Withdraw(k: FragmentKey, a: nat)
      requires Valid()
      modifies this`disk
      ensures Valid() && disk.log == old(disk).log
      ensures disk.dir == if k in old(disk).dir && old(disk).dir[k] == a then old(disk).dir - {k} else old(disk).dir
    {
      if k in disk.dir && disk.dir[k] == a {
        disk := disk.(dir := disk.dir - {k});
      }
    }
  }
}
