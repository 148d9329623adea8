/**
 Refreshing the metadata of a committed object: only fragment 0 is written
 anew, with the same version and body, and it is published only if the old
 fragment 0 and all later fragments are still the ones seen before the write.
 */
module FragmentRefresh {
  import opened Common
  import opened Doc
  import opened Fragments
  import opened FragmentStore

  const MAX_METADATA: nat := 65536

  /** The entries of fragments 1, 2, ... of a key. */
  predicate Tails(d: Disk, key: Key, tails: seq<nat>) {
    forall i | 0 <= i < |tails| :: TailAt(d, key, i, tails[i])
  }

  predicate TailAt(d: Disk, key: Key, i: nat, record: nat) {
    FragmentKey(key, i + 1) in d.dir && d.dir[FragmentKey(key, i + 1)] == record
  }

  predicate AllRoomy(tails: seq<nat>, roomy: nat -> bool) {
    forall i | 0 <= i < |tails| :: roomy(tails[i])
  }

  predicate RoomyAt(d: Disk, key: Key, i: nat, roomy: nat -> bool) {
    FragmentKey(key, i) in d.dir && roomy(d.dir[FragmentKey(key, i)])
  }

  /** The same for the entries of an object of `count` fragments. */
  predicate TailsRoomy(d: Disk, key: Key, count: nat, roomy: nat -> bool) {
    forall i | 0 < i < count :: RoomyAt(d, key, i, roomy)
  }

  lemma TailsAreAll(d: Disk, key: Key, tails: seq<nat>, count: nat, roomy: nat -> bool)
    requires Tails(d, key, tails) && |tails| == Max(count, 1) - 1
    ensures AllRoomy(tails, roomy) <==> TailsRoomy(d, key, count, roomy)
  {
    if AllRoomy(tails, roomy) {
      forall i | 0 < i < count ensures RoomyAt(d, key, i, roomy) { assert TailAt(d, key, i - 1, tails[i - 1]); }
    }
    if TailsRoomy(d, key, count, roomy) {
      forall i | 0 <= i < |tails| ensures roomy(tails[i]) { assert TailAt(d, key, i, tails[i]) && RoomyAt(d, key, i + 1, roomy); }
    }
  }

  /** Fragment 0 with other metadata. */
  function Refreshed(f: Fragment, info: seq<Octet>): Fragment { f.(info := info) }

  /** The same entries name the same fragments in a longer log, so only the metadata changes. */
  lemma RefreshKeepsObject(
    d: Disk, d': Disk, key: Key, version: nat, info: seq<Octet>, info': seq<Octet>, stream: seq<Octet>, head: nat, tails: seq<nat>, a: nat)
    requires DiskOk(d) && Committed(d, key, version, info, stream) && d.log <= d'.log
    requires FragmentKey(key, 0) in d.dir && d.dir[FragmentKey(key, 0)] == head
    requires Tails(d, key, tails) && Tails(d', key, tails) && |tails| + 1 >= Count(|stream|)
    requires a < |d'.log| && d'.log[a] == Refreshed(d.log[head], info')
    ensures Committed(Disk(d'.log, d'.dir[FragmentKey(key, 0) := a]), key, version, info', stream)
  {
    var e := Disk(d'.log, d'.dir[FragmentKey(key, 0) := a]);
    forall i: nat | i < Count(|stream|)
      ensures i * TARGET_FRAGMENT_SIZE <= |stream| && Shows(e, FragmentKey(key, i), FragmentOf(key, version, info', stream, i))
    {
      assert Shows(d, FragmentKey(key, i), FragmentOf(key, version, info, stream, i));
      if i > 0 {
        assert TailAt(d, key, i - 1, tails[i - 1]) && TailAt(d', key, i - 1, tails[i - 1]);
      }
    }
  }

  /** Look up all later fragments; an empty result stands for a missing one. */
  method CollectTails(s: Store, key: Key, fragments: nat) returns (r: Option<seq<nat>>)
    ensures r.Some? ==> |r.value| == (if fragments == 0 then 0 else fragments - 1) && Tails(s.disk, key, r.value)
    ensures r.None? ==> exists i: nat | 0 < i < fragments :: FragmentKey(key, i) !in s.disk.dir
  {
    var tails: seq<nat> := [];
    var i := 1;
    while i < fragments
      invariant 1 <= i <= Max(fragments, 1) && |tails| == i - 1 && Tails(s.disk, key, tails)
    {
      var k := FragmentKey(key, i);
      if k !in s.disk.dir {
        return None;
      }
      assert TailAt(s.disk, key, i - 1, s.disk.dir[k]);
      tails := tails + [s.disk.dir[k]];
      i := i + 1;
    }
    return Some(tails);
  }

  method SameTails(s: Store, key: Key, tails: seq<nat>, roomy: nat -> bool) returns (same: bool)
    ensures same <==> Tails(s.disk, key, tails) && AllRoomy(tails, roomy)
  {
    var i := 0;
    while i < |tails|
      invariant i <= |tails| && forall j | 0 <= j < i :: TailAt(s.disk, key, j, tails[j]) && roomy(tails[j])
    {
      var k := FragmentKey(key, i + 1);
      if k !in s.disk.dir || s.disk.dir[k] != tails[i] {
        assert !TailAt(s.disk, key, i, tails[i]);
        return false;
      }
      assert TailAt(s.disk, key, i, tails[i]);
      if !roomy(tails[i]) {
        return false;
      }
      i := i + 1;
    }
    return true;
  }

  lemma TailsStay(d: Disk, e: Interference, key: Key, head: nat, tails: seq<nat>)
    requires DiskOk(d) && LeavesAlone(e, key) && Unmoved(d, key, head, tails)
    ensures Unmoved(After(d, e), key, head, tails)
  {
    forall i | 0 <= i < |tails|
      ensures TailAt(After(d, e), key, i, tails[i])
    {
      assert TailAt(d, key, i, tails[i]);
    }
  }

  lemma TailsWithMore(d: Disk, log: seq<Fragment>, key: Key, head: nat, tails: seq<nat>)
    requires Unmoved(d, key, head, tails)
    ensures Unmoved(Disk(log, d.dir), key, head, tails)
  {
    forall i | 0 <= i < |tails|
      ensures TailAt(Disk(log, d.dir), key, i, tails[i])
    {
      assert TailAt(d, key, i, tails[i]);
    }
  }

  /** Fragment 0 and the later fragments are the ones seen before. */
  predicate Unmoved(d: Disk, key: Key, head: nat, tails: seq<nat>) {
    FragmentKey(key, 0) in d.dir && d.dir[FragmentKey(key, 0)] == head && Tails(d, key, tails)
  }

  predicate FitsAlone(s: Store, f: Fragment) {
    HEADER_SIZE + |f.info| + |f.data| <= Min(AGG_BUFFER_SIZE, s.area)
  }

  /** Store the new fragment 0 and publish it over the old one, if nothing has moved meanwhile. */
  method Swap(s: Store, key: Key, head: nat, tails: seq<nat>, f: Fragment, roomy: nat -> bool)
    returns (ok: bool, ghost seen: Disk, ghost a: nat)
    requires s.Valid() && Unmoved(s.disk, key, head, tails)
    modifies s
    ensures s.Valid() && old(s.disk).log <= s.disk.log
    ensures ok ==> old(s.disk).log <= seen.log && a < |seen.log| && seen.log[a] == f && Unmoved(seen, key, head, tails)
    ensures ok ==> s.disk == Disk(seen.log, seen.dir[FragmentKey(key, 0) := a]) && AllRoomy(tails, roomy)
    ensures (forall t | t >= old(s.clock) :: LeavesAlone(s.others(t), key)) && FitsAlone(s, f) && AllRoomy(tails, roomy) ==> ok
  {
    ok, seen, a := false, s.disk, 0;
    if !FitsAlone(s, f) {
      return;
    }
    var record := s.Add(f);
    TailsWithMore(old(s.disk), s.disk.log, key, head, tails);
    if LeavesAlone(s.others(s.clock), key) {
      TailsStay(s.disk, s.others(s.clock), key, head, tails);
    }
    var refused := s.Wait();
    if refused || FragmentKey(key, 0) !in s.disk.dir || s.disk.dir[FragmentKey(key, 0)] != head {
      return;
    }
    var same := SameTails(s, key, tails, roomy);
    if !same {
      return;
    }
    a, seen := record, s.disk;
    s.Publish(FragmentKey(key, 0), record);
    ok := true;
  }

  /**
   Write fragment 0 with new metadata.  If the object was committed when the
   refresh began, it is committed with the new metadata when it succeeds; its
   body and version are the same, so a reader that began before goes on.
   `roomy` says of a record that its place is still valid in the rounded size of
   its directory entry; a tail for which it does not hold makes the refresh fail.
   */
  method UpdateInfo(
    s: Store, key: Key, head: nat, info': seq<Octet>, roomy: nat -> bool, ghost version: nat, ghost info: seq<Octet>, ghost stream: seq<Octet>)
    returns (ok: bool, ghost before: Disk)
    requires s.Valid()
    modifies s
    ensures s.Valid() && before == After(old(s.disk), s.others(old(s.clock))) && before.log <= s.disk.log
    ensures ok ==> FragmentKey(key, 0) in before.dir && before.dir[FragmentKey(key, 0)] == head
    ensures ok && Committed(before, key, version, info, stream) ==> Committed(s.disk, key, version, info', stream)
    ensures
      Untouched(s, key, old(s.clock), before, head, version, info, stream) && |info'| <= MAX_METADATA
      && HEADER_SIZE + |info'| + TARGET_FRAGMENT_SIZE <= Min(AGG_BUFFER_SIZE, s.area) ==>
        (ok <==> TailsRoomy(before, key, Count(|stream|), roomy))
  {
    ok := false;
    var refused := s.Wait();
    before := s.disk;
    if |info'| > MAX_METADATA {
      return;
    }
    var k := FragmentKey(key, 0);
    if refused || k !in s.disk.dir || s.disk.dir[k] != head {
      return;
    }
    var f := s.disk.log[head];
    if Committed(before, key, version, info, stream) {
      HeadOfCommitted(before, key, version, info, stream);
    }
    var tails := CollectTails(s, key, (f.totalLen + TARGET_FRAGMENT_SIZE - 1) / TARGET_FRAGMENT_SIZE);
    if tails.None? {
      if Committed(before, key, version, info, stream) {
        NoneMissing(before, key, version, info, stream);
      }
      return;
    }
    ghost var seen, a;
    ok, seen, a := Swap(s, key, head, tails.value, Refreshed(f, info'), roomy);
    if Committed(before, key, version, info, stream) {
      TailsAreAll(before, key, tails.value, Count(|stream|), roomy);
    }
    if ok && Committed(before, key, version, info, stream) {
      RefreshKeepsObject(before, seen, key, version, info, info', stream, head, tails.value, a);
    }
  }

  /** The object is committed, its fragment 0 is `head`, and nobody touches it from time `t0` on. */
  ghost predicate Untouched(s: Store, key: Key, t0: nat, d: Disk, head: nat, version: nat, info: seq<Octet>, stream: seq<Octet>) {
    && (forall t | t >= t0 :: LeavesAlone(s.others(t), key)) && Committed(d, key, version, info, stream)
    && FragmentKey(key, 0) in d.dir && d.dir[FragmentKey(key, 0)] == head
  }

  lemma HeadOfCommitted(d: Disk, key: Key, version: nat, info: seq<Octet>, stream: seq<Octet>)
    requires Committed(d, key, version, info, stream)
    ensures FragmentKey(key, 0) in d.dir && d.dir[FragmentKey(key, 0)] < |d.log|
    ensures
      var f := d.log[d.dir[FragmentKey(key, 0)]];
      f.totalLen == |stream| && |f.data| <= TARGET_FRAGMENT_SIZE
      && Count(|stream|) == Max(1, (f.totalLen + TARGET_FRAGMENT_SIZE - 1) / TARGET_FRAGMENT_SIZE)
  {
    assert Shows(d, FragmentKey(key, 0), FragmentOf(key, version, info, stream, 0));
  }

  lemma NoneMissing(d: Disk, key: Key, version: nat, info: seq<Octet>, stream: seq<Octet>)
    requires Committed(d, key, version, info, stream)
    ensures forall i: nat | i < Count(|stream|) :: FragmentKey(key, i) in d.dir
  {
    forall i: nat | i < Count(|stream|)
      ensures FragmentKey(key, i) in d.dir
    {
      assert Shows(d, FragmentKey(key, i), FragmentOf(key, version, info, stream, i));
    }
  }

  /** A refreshed fragment 0 belongs to the same write as the old one. */
  lemma RefreshedBelongs(f: Fragment, info: seq<Octet>, stream: seq<Octet>)
    requires BelongsTo(f, stream)
    ensures BelongsTo(Refreshed(f, info), stream) && Refreshed(f, info).version == f.version
  {
  }
}
