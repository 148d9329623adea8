/**
 The memory cache in front of the S3-FIFO policy.  It refuses values and keys
 that are too large, and refusing an overwrite forgets the value it would have
 replaced, so that a hit never returns an older value.
 */
module RamCache {
  import opened Common
  import opened S3Fifo

  const MAX_KEY_BYTES: nat := 65536
  const MAX_WEIGHT: nat := 0xFFFF_FFFF

  /** What callers asked for, whether or not it was admitted. */
  datatype Request = Store(key: Key, data: seq<Byte>) | Forget(key: Key)

  /** The bytes stored last for each key and not forgotten since. */
  function Stored(requests: seq<Request>): map<Key, seq<Byte>> {
    if requests == [] then map[]
    else
      var before := Stored(requests[..|requests| - 1]);
      match requests[|requests| - 1]
      case Store(k, d) => before[k := d]
      case Forget(k) => before - {k}
  }

  lemma StoredStep(requests: seq<Request>, r: Request)
    ensures r.Store? ==> Stored(requests + [r]) == Stored(requests)[r.key := r.data]
    ensures r.Forget? ==> Stored(requests + [r]) == Stored(requests) - {r.key}
  {
    assert (requests + [r])[..|requests|] == requests;
  }

  /** Every admitted value has the bytes stored last under its key. */
  predicate Agree(values: map<Key, RamEntry>, stored: map<Key, seq<Byte>>) {
    forall k | k in values :: k in stored && values[k].data == stored[k]
  }

  /** Empty values are charged one byte; decoded headers are charged when the total fits 32 bits. */
  function NewRamEntry(data: seq<Byte>, decoded: nat): (e: RamEntry)
    requires |data| <= MAX_WEIGHT
    ensures e.data == data && 0 < e.weight <= MAX_WEIGHT && |data| <= e.weight
    ensures Max(1, |data|) + decoded <= 4294967295 ==> e.weight == Max(1, |data|) + decoded
    ensures Max(1, |data|) + decoded > 4294967295 ==> e.weight == Max(1, |data|)
  {
    var weight := if |data| == 0 then 1 else |data|;
    RamEntry(data, if weight + decoded > MAX_WEIGHT then weight else weight + decoded)
  }

  class Ram {
    const capacity: nat
    const fifo: Cache?
    ghost var requests: seq<Request>

    ghost predicate Valid()
      reads this, fifo
    {
      && (fifo == null <==> capacity == 0)
      && (fifo != null ==> fifo.Valid() && fifo.capacity == capacity && Agree(Latest(fifo.history), Stored(requests)))
    }

    /** The values held now. */
    ghost function Held(): map<Key, RamEntry>
      reads this, fifo
    {
      if fifo == null then map[] else Contents(fifo.s)
    }

    constructor (size: nat)
      ensures Valid() && capacity == size && requests == [] && Held() == map[]
      ensures fresh(this) && (fifo != null ==> fresh(fifo))
    {
      capacity := size;
      requests := [];
      if size == 0 {
        fifo := null;
      } else {
        var cache := new Cache(size);
        fifo := cache;
      }
    }

    /** A hit is exactly a held key and returns the bytes stored last. */
    method Get(key: Key) returns (r: Option<seq<Byte>>)
      requires Valid()
      modifies fifo
      ensures Valid() && Held() == old(Held())
      ensures r.Some? <==> key in Held()
      ensures r.Some? ==> key in Stored(requests) && r.value == Stored(requests)[key]
    {
      if fifo == null {
        return None;
      }
      var e := fifo.Get(key);
      return if e.Some? then Some(e.value.data) else None;
    }

    /** The bytes are admitted: they and their weight fit, and the key is not too long. */
    predicate Admits(key: Key, data: seq<Byte>, decoded: nat) {
      && 0 < capacity && |data| <= capacity && |data| <= MAX_WEIGHT && |key| <= MAX_KEY_BYTES
      && NewRamEntry(data, decoded).weight <= capacity
    }

    /** Admit the bytes, or forget the key. */
    method Put(key: Key, data: seq<Byte>, decoded: nat) returns (ghost trace: seq<State>)
      requires Valid()
      modifies this, fifo
      ensures Valid() && requests == old(requests) + [Store(key, data)]
      ensures Submap(Held() - {key}, old(Held()))
      ensures key in Held() ==> Admits(key, data, decoded) && Held()[key] == NewRamEntry(data, decoded)
      ensures key !in old(Held()) ==> (key in Held() <==> Admits(key, data, decoded))
      ensures key !in old(Held()) ==> (key in Held() <==>
        && |key| <= 65536 && |data| <= 4294967295
        && var weight := Max(1, |data|); (if weight + decoded <= 4294967295 then weight + decoded else weight) <= capacity)
      ensures !Admits(key, data, decoded) ==> Held() == old(Held()) - {key}
      ensures Admits(key, data, decoded) ==> StoredIn(old(fifo.s), key, NewRamEntry(data, decoded), trace)
      ensures Admits(key, data, decoded) && HasPlace(old(fifo.s), key, NewRamEntry(data, decoded), capacity, fifo.entryLimit) ==>
        Held() == old(Held())[key := NewRamEntry(data, decoded)]
    {
      trace := [];
      StoredStep(requests, Store(key, data));
      requests := requests + [Store(key, data)];
      if capacity == 0 || |data| > capacity || |data| > MAX_WEIGHT || |key| > MAX_KEY_BYTES {
        Forget(key);
        return;
      }
      var entry := NewRamEntry(data, decoded);
      if entry.weight > capacity {
        Forget(key);
        return;
      }
      trace := Admit(key, entry);
    }

    /** Hand an entry that fits to the policy. */
    method Admit(key: Key, entry: RamEntry) returns (ghost trace: seq<State>)
      requires capacity != 0 && fifo != null && fifo.Valid() && fifo.capacity == capacity && 0 < entry.weight <= capacity
      requires Agree(Latest(fifo.history)[key := entry], Stored(requests))
      modifies fifo
      ensures Valid()
      ensures Submap(Held(), old(Held())[key := entry])
      ensures key !in old(Held()) ==> key in Held()
      ensures StoredIn(old(fifo.s), key, entry, trace)
      ensures HasPlace(old(fifo.s), key, entry, capacity, fifo.entryLimit) ==> Held() == old(Held())[key := entry]
    {
      LatestPut(fifo.history, key, entry);
      trace := fifo.Put(key, entry);
    }

    /** The policy has stored the entry and evicted what it had to. */
    ghost predicate StoredIn(was: State, key: Key, entry: RamEntry, trace: seq<State>)
      requires fifo != null && Shape(was)
      reads this, fifo
    {
      StoredAfter(was, fifo.s, key, entry, trace, capacity, fifo.entryLimit)
    }

    method Delete(key: Key)
      requires Valid()
      modifies this, fifo
      ensures Valid() && requests == old(requests) + [Request.Forget(key)]
      ensures Held() == old(Held()) - {key}
    {
      StoredStep(requests, Request.Forget(key));
      requests := requests + [Request.Forget(key)];
      Forget(key);
    }

    /** Drop a key from the policy; the requests may already name a newer value for it. */
    method Forget(key: Key)
      requires fifo == null <==> capacity == 0
      requires fifo != null ==> fifo.Valid() && fifo.capacity == capacity && Agree(Latest(fifo.history) - {key}, Stored(requests))
      modifies fifo
      ensures Valid() && Held() == old(Held()) - {key}
    {
      if fifo != null {
        LatestDelete(fifo.history, key);
        fifo.Remove(key);
      }
    }
  }
}
