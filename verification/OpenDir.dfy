/**
 The directory of objects that are being written: one claim per key, shared by
 the writer and the readers that follow it.
 */
module OpenDir {
  import opened Common

  predicate Exact(refs: map<nat, nat>, holders: multiset<nat>) {
    (forall e | e in refs :: refs[e] == holders[e]) && (forall e | e in holders :: e in refs)
  }

  lemma ExactWith(refs: map<nat, nat>, holders: multiset<nat>, e: nat)
    requires Exact(refs, holders)
    ensures Exact(refs[e := (if e in refs then refs[e] else 0) + 1], holders + multiset{e})
  {
    assert e !in refs ==> e !in holders;
  }

  lemma ExactWithout(refs: map<nat, nat>, holders: multiset<nat>, e: nat)
    requires Exact(refs, holders) && e in holders
    ensures e in refs && refs[e] > 0 && Exact(refs[e := refs[e] - 1], holders - multiset{e})
  {
  }

  class OpenDir<Name(==)> {
    var entries: map<Name, nat>
    var refs: map<nat, nat>
    ghost var keys: map<nat, Name>
    /** Everybody who has an entry and has not released it, by entry. */
    ghost var holders: multiset<nat>

    /** Counts are exact; a key has at most one entry, an entry one key, and an entry that can be found is held. */
    ghost predicate Valid()
      reads this
    {
      && Exact(refs, holders)
      && (forall k | k in entries :: entries[k] in refs && refs[entries[k]] > 0)
      && (forall k | k in entries :: entries[k] in keys && keys[entries[k]] == k)
    }

    constructor ()
      ensures Valid() && entries == map[] && holders == multiset{}
    {
      entries, refs, keys, holders := map[], map[], map[], multiset{};
    }

    /** Claim a key: only one claim at a time succeeds. */
    method Add(key: Name, id: nat) returns (entry: nat, added: bool)
      requires Valid() && id !in refs
      modifies this
      ensures Valid() && (added <==> key !in old(entries))
      ensures added ==> entry == id && entries == old(entries)[key := id] && holders == old(holders) + multiset{id}
      ensures !added ==> entry == old(entries)[key] && entries == old(entries) && holders == old(holders)
    {
      if key in entries {
        return entries[key], false;
      }
      ExactWith(refs, holders, id);
      entries, refs := entries[key := id], refs[id := 1];
      keys, holders := keys[id := key], holders + multiset{id};
      return id, true;
    }

    /** A reader joins whoever writes the key. */
    method Acquire(key: Name) returns (r: Option<nat>)
      requires Valid()
      modifies this
      ensures Valid() && entries == old(entries)
      ensures r == if key in entries then Some(entries[key]) else None
      ensures holders == if r.Some? then old(holders) + multiset{r.value} else old(holders)
    {
      if key !in entries {
        return None;
      }
      var e := entries[key];
      ExactWith(refs, holders, e);
      refs := refs[e := refs[e] + 1];
      holders := holders + multiset{e};
      return Some(e);
    }

    /** The last holder takes the claim away, unless the key has been claimed anew since. */
    method Release(key: Name, e: nat)
      requires Valid() && e in holders && e in keys && keys[e] == key
      modifies this
      ensures Valid() && holders == old(holders) - multiset{e}
      ensures entries == if key in old(entries) && old(entries)[key] == e && holders[e] == 0 then old(entries) - {key} else old(entries)
    {
      ExactWithout(refs, holders, e);
      refs := refs[e := refs[e] - 1];
      holders := holders - multiset{e};
      if refs[e] == 0 && key in entries && entries[key] == e {
        entries := entries - {key};
      }
    }

    /** An invalidation takes the claim away while it is still held. */
    method Detach(key: Name) returns (r: Option<nat>)
      requires Valid()
      modifies this
      ensures Valid() && entries == old(entries) - {key} && holders == old(holders)
      ensures r == if key in old(entries) then Some(old(entries)[key]) else None
    {
      r := if key in entries then Some(entries[key]) else None;
      entries := entries - {key};
    }
  }
}
