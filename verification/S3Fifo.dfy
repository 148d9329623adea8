/**
 The S3-FIFO memory cache: a small and a main queue of resident entries, a
 ghost queue of keys that were evicted lately, one map, and byte counters.
 */
module S3Fifo {
  import opened Common

  type Key = string

  /** Immutable bytes and the number of bytes they are charged with. */
  datatype RamEntry = RamEntry(data: seq<Byte>, weight: nat)

  datatype Segment = Small | Main | Ghost

  /** A ghost has no value any more. */
  datatype Entry = Entry(value: Option<RamEntry>, charge: nat, freq: nat, segment: Segment)

  datatype State = State(
    entries: map<Key, Entry>,
    small: seq<Key>,
    main: seq<Key>,
    ghosts: seq<Key>,
    smallBytes: nat,
    mainBytes: nat,
    payloadBytes: nat,
    ghostBytes: nat,
    ghostMetadata: nat)

  function Queue(s: State, segment: Segment): seq<Key> {
    match segment case Small => s.small case Main => s.main case Ghost => s.ghosts
  }

  // ---------------------------------------------------------------- sums

  /** What is summed up over a queue. */
  datatype Measure = Charge | Payload | Metadata | Frequency

  function Size(measure: Measure, k: Key, e: Entry): nat {
    match measure
    case Charge => e.charge
    case Payload => if e.value.Some? then |e.value.value.data| else 0
    case Metadata => 128 + |k|
    case Frequency => e.freq
  }

  predicate AllIn(q: seq<Key>, m: map<Key, Entry>) {
    forall k | k in q :: k in m
  }

  function Sum(measure: Measure, q: seq<Key>, m: map<Key, Entry>): nat
    requires AllIn(q, m)
  {
    if q == [] then 0 else Size(measure, q[0], m[q[0]]) + Sum(measure, q[1..], m)
  }

  predicate NoDup(q: seq<Key>) {
    forall i, j | 0 <= i < j < |q| :: q[i] != q[j]
  }

  /** A queue without its only occurrence of `k`. */
  function Dropped(q: seq<Key>, k: Key): seq<Key> {
    if q == [] then [] else if q[0] == k then q[1..] else [q[0]] + Dropped(q[1..], k)
  }

  lemma {:induction false} DroppedIs(q: seq<Key>, k: Key)
    requires NoDup(q)
    ensures NoDup(Dropped(q, k))
    ensures forall x :: x in Dropped(q, k) <==> x in q && x != k
    ensures |Dropped(q, k)| == if k in q then |q| - 1 else |q|
    ensures q != [] && q[0] == k ==> Dropped(q, k) == q[1..]
  {
    if q != [] {
      assert forall x :: x in q <==> x == q[0] || x in q[1..];
      if q[0] != k {
        DroppedIs(q[1..], k);
        var r := Dropped(q[1..], k);
        assert q[0] !in q[1..];
        forall i, j | 0 <= i < j < |[q[0]] + r| ensures ([q[0]] + r)[i] != ([q[0]] + r)[j] {
          if i == 0 { assert r[j - 1] in r; }
        }
      }
    }
  }

  lemma {:induction false} SumFrame(measure: Measure, q: seq<Key>, m: map<Key, Entry>, m': map<Key, Entry>)
    requires AllIn(q, m) && AllIn(q, m')
    requires forall k | k in q :: Size(measure, k, m'[k]) == Size(measure, k, m[k])
    ensures Sum(measure, q, m') == Sum(measure, q, m)
  {
    if q != [] { SumFrame(measure, q[1..], m, m'); }
  }

  lemma {:induction false} SumAppend(measure: Measure, q: seq<Key>, k: Key, m: map<Key, Entry>)
    requires AllIn(q + [k], m)
    ensures AllIn(q, m) && k in m
    ensures Sum(measure, q + [k], m) == Sum(measure, q, m) + Size(measure, k, m[k])
  {
    assert forall x | x in q :: x in q + [k];
    assert k in q + [k];
    if q == [] {
      assert (q + [k])[1..] == [];
    } else {
      assert (q + [k])[1..] == q[1..] + [k];
      SumAppend(measure, q[1..], k, m);
    }
  }

  lemma {:induction false} SumDropped(measure: Measure, q: seq<Key>, k: Key, m: map<Key, Entry>)
    requires AllIn(q, m) && NoDup(q) && k in q
    ensures AllIn(Dropped(q, k), m)
    ensures Sum(measure, q, m) == Sum(measure, Dropped(q, k), m) + Size(measure, k, m[k])
  {
    DroppedIs(q, k);
    if q[0] != k {
      assert k in q[1..];
      SumDropped(measure, q[1..], k, m);
      var r := Dropped(q, k);
      assert r[1..] == Dropped(q[1..], k);
    }
  }

  /** A new value for one key of the queue. */
  lemma {:induction false} SumUpdate(measure: Measure, q: seq<Key>, k: Key, e: Entry, m: map<Key, Entry>)
    requires AllIn(q, m) && NoDup(q) && k in q
    ensures AllIn(q, m[k := e])
    ensures Sum(measure, q, m[k := e]) + Size(measure, k, m[k]) == Sum(measure, q, m) + Size(measure, k, e)
  {
    SumDropped(measure, q, k, m);
    SumDropped(measure, q, k, m[k := e]);
    DroppedIs(q, k);
    SumFrame(measure, Dropped(q, k), m, m[k := e]);
  }

  // ------------------------------------------------------------ invariant

  /** An entry has a value exactly while it is resident, and is charged its weight. */
  predicate EntryOk(e: Entry) {
    && (e.segment == Ghost <==> e.value.None?)
    && (e.value.Some? ==> e.charge == e.value.value.weight)
    && 0 < e.charge
    && e.freq <= 3
  }

  ghost predicate QueueOk(s: State, segment: Segment) {
    && NoDup(Queue(s, segment))
    && forall k :: k in Queue(s, segment) <==> k in s.entries && s.entries[k].segment == segment
  }

  /** The map and the queues hold the same entries, once each. */
  ghost predicate Indexed(s: State) {
    && QueueOk(s, Small) && QueueOk(s, Main) && QueueOk(s, Ghost)
    && forall k | k in s.entries :: EntryOk(s.entries[k])
  }

  /** Every counter is the sum over its queues. */
  ghost predicate Counted(s: State)
    requires Indexed(s)
  {
    && s.smallBytes == Sum(Charge, s.small, s.entries)
    && s.mainBytes == Sum(Charge, s.main, s.entries)
    && s.payloadBytes == Sum(Payload, s.small, s.entries) + Sum(Payload, s.main, s.entries)
    && s.ghostBytes == Sum(Charge, s.ghosts, s.entries)
    && s.ghostMetadata == Sum(Metadata, s.ghosts, s.entries)
  }

  ghost predicate Shape(s: State) { Indexed(s) && Counted(s) }

  predicate GhostBounds(s: State, capacity: nat, limit: nat) {
    s.ghostBytes <= capacity && s.ghostMetadata <= Max(128, capacity / 10) && |s.ghosts| <= limit
  }

  predicate ResidentBounds(s: State, capacity: nat, limit: nat) {
    s.smallBytes + s.mainBytes <= capacity && |s.small| + |s.main| <= limit
  }

  /** What a lookup can return. */
  function Contents(s: State): map<Key, RamEntry> {
    Values(s.entries)
  }

  function Values(m: map<Key, Entry>): map<Key, RamEntry> {
    map k | k in m && m[k].value.Some? :: m[k].value.value
  }

  lemma ValuesWith(m: map<Key, Entry>, k: Key, e: Entry)
    requires e.value.Some? || k !in m || m[k].value.None?
    ensures Values(m[k := e]) == if e.value.Some? then Values(m)[k := e.value.value] else Values(m)
  {
  }

  lemma ValuesWithout(m: map<Key, Entry>, k: Key)
    ensures Values(m - {k}) == Values(m) - {k}
  {
  }

  function Resident(s: State): nat { |s.small| + |s.main| }

  predicate Submap(a: map<Key, RamEntry>, b: map<Key, RamEntry>) {
    forall k | k in a :: k in b && a[k] == b[k]
  }

  // ------------------------------------------------------- link and unlink

  lemma Enough(s: State, k: Key)
    requires Shape(s) && k in s.entries
    ensures
      var e := s.entries[k];
      match e.segment
      case Small => e.charge <= s.smallBytes && Size(Payload, k, e) <= s.payloadBytes
      case Main => e.charge <= s.mainBytes && Size(Payload, k, e) <= s.payloadBytes
      case Ghost => e.charge <= s.ghostBytes && 128 + |k| <= s.ghostMetadata
  {
    var q := Queue(s, s.entries[k].segment);
    SumDropped(Charge, q, k, s.entries);
    SumDropped(Payload, q, k, s.entries);
    SumDropped(Metadata, q, k, s.entries);
  }

  /** Take an entry out of its queue and the map. */
  ghost function Unlinked(s: State, k: Key): State
    requires Shape(s) && k in s.entries
  {
    Enough(s, k);
    var e := s.entries[k];
    var s1 := s.(entries := s.entries - {k});
    match e.segment
    case Small => s1.(small := Dropped(s.small, k), smallBytes := s.smallBytes - e.charge, payloadBytes := s.payloadBytes - Size(Payload, k, e))
    case Main => s1.(main := Dropped(s.main, k), mainBytes := s.mainBytes - e.charge, payloadBytes := s.payloadBytes - Size(Payload, k, e))
    case Ghost => s1.(ghosts := Dropped(s.ghosts, k), ghostBytes := s.ghostBytes - e.charge, ghostMetadata := s.ghostMetadata - (128 + |k|))
  }

  lemma UnlinkKeepsQueue(s: State, k: Key, segment: Segment)
    requires Shape(s) && k in s.entries
    ensures QueueOk(Unlinked(s, k), segment)
  {
    assert QueueOk(s, segment);
    if segment == s.entries[k].segment {
      DroppedIs(Queue(s, segment), k);
    }
  }

  lemma UnlinkKeepsIndex(s: State, k: Key)
    requires Shape(s) && k in s.entries
    ensures Indexed(Unlinked(s, k))
  {
    UnlinkKeepsQueue(s, k, Small);
    UnlinkKeepsQueue(s, k, Main);
    UnlinkKeepsQueue(s, k, Ghost);
  }

  lemma UnlinkKeepsSum(s: State, k: Key, segment: Segment, measure: Measure)
    requires Shape(s) && k in s.entries && Indexed(Unlinked(s, k))
    ensures Sum(measure, Queue(s, segment), s.entries)
            == Sum(measure, Queue(Unlinked(s, k), segment), Unlinked(s, k).entries)
               + if s.entries[k].segment == segment then Size(measure, k, s.entries[k]) else 0
  {
    var q, q' := Queue(s, segment), Queue(Unlinked(s, k), segment);
    if s.entries[k].segment == segment {
      SumDropped(measure, q, k, s.entries);
    }
    SumFrame(measure, q', s.entries, Unlinked(s, k).entries);
  }

  lemma UnlinkKeepsCount(s: State, k: Key)
    requires Shape(s) && k in s.entries && Indexed(Unlinked(s, k))
    ensures Counted(Unlinked(s, k))
  {
    UnlinkKeepsSum(s, k, Small, Charge);
    UnlinkKeepsSum(s, k, Main, Charge);
    UnlinkKeepsSum(s, k, Small, Payload);
    UnlinkKeepsSum(s, k, Main, Payload);
    UnlinkKeepsSum(s, k, Ghost, Charge);
    UnlinkKeepsSum(s, k, Ghost, Metadata);
  }

  lemma UnlinkMove(s: State, k: Key)
    requires Shape(s) && k in s.entries
    ensures Shape(Unlinked(s, k)) && Contents(Unlinked(s, k)) == Contents(s) - {k}
    ensures |Queue(Unlinked(s, k), s.entries[k].segment)| == |Queue(s, s.entries[k].segment)| - 1
  {
    UnlinkKeepsIndex(s, k);
    UnlinkKeepsCount(s, k);
    UnlinkShows(s, k);
  }

  lemma UnlinkShows(s: State, k: Key)
    requires Shape(s) && k in s.entries
    ensures Contents(Unlinked(s, k)) == Contents(s) - {k}
    ensures |Queue(Unlinked(s, k), s.entries[k].segment)| == |Queue(s, s.entries[k].segment)| - 1
  {
    ValuesWithout(s.entries, k);
    DroppedIs(Queue(s, s.entries[k].segment), k);
  }

  /** Put an entry at the back of the queue of its segment. */
  function Appended(s: State, k: Key, e: Entry): State {
    var s1 := s.(entries := s.entries[k := e]);
    match e.segment
    case Small => s1.(small := s.small + [k], smallBytes := s.smallBytes + e.charge, payloadBytes := s.payloadBytes + Size(Payload, k, e))
    case Main => s1.(main := s.main + [k], mainBytes := s.mainBytes + e.charge, payloadBytes := s.payloadBytes + Size(Payload, k, e))
    case Ghost => s1.(ghosts := s.ghosts + [k], ghostBytes := s.ghostBytes + e.charge, ghostMetadata := s.ghostMetadata + (128 + |k|))
  }

  lemma AppendKeepsQueue(s: State, k: Key, e: Entry, segment: Segment)
    requires QueueOk(s, segment) && k !in s.entries
    ensures QueueOk(Appended(s, k, e), segment)
  {
    if segment == e.segment {
      var q := Queue(s, segment);
      assert k !in q;
      assert forall x :: x in q + [k] <==> x in q || x == k;
      assert NoDup(q + [k]) by {
        forall i, j | 0 <= i < j < |q + [k]| ensures (q + [k])[i] != (q + [k])[j] {
          if j == |q| { assert q[i] in q; }
        }
      }
    }
  }

  lemma AppendKeepsIndex(s: State, k: Key, e: Entry)
    requires Indexed(s) && k !in s.entries && EntryOk(e)
    ensures Indexed(Appended(s, k, e))
  {
    AppendKeepsQueue(s, k, e, Small);
    AppendKeepsQueue(s, k, e, Main);
    AppendKeepsQueue(s, k, e, Ghost);
  }

  lemma AppendKeepsSum(s: State, k: Key, e: Entry, segment: Segment, measure: Measure)
    requires Indexed(s) && k !in s.entries && EntryOk(e) && Indexed(Appended(s, k, e))
    ensures Sum(measure, Queue(Appended(s, k, e), segment), Appended(s, k, e).entries)
            == Sum(measure, Queue(s, segment), s.entries) + if e.segment == segment then Size(measure, k, e) else 0
  {
    var s' := Appended(s, k, e);
    SumFrame(measure, Queue(s, segment), s.entries, s'.entries);
    if e.segment == segment { SumAppend(measure, Queue(s, segment), k, s'.entries); }
  }

  lemma AppendKeepsCount(s: State, k: Key, e: Entry)
    requires Shape(s) && k !in s.entries && EntryOk(e) && Indexed(Appended(s, k, e))
    ensures Counted(Appended(s, k, e))
  {
    AppendKeepsSum(s, k, e, Small, Charge);
    AppendKeepsSum(s, k, e, Main, Charge);
    AppendKeepsSum(s, k, e, Small, Payload);
    AppendKeepsSum(s, k, e, Main, Payload);
    AppendKeepsSum(s, k, e, Ghost, Charge);
    AppendKeepsSum(s, k, e, Ghost, Metadata);
  }

  lemma AppendMove(s: State, k: Key, e: Entry)
    requires Shape(s) && k !in s.entries && EntryOk(e)
    ensures Shape(Appended(s, k, e))
    ensures Contents(Appended(s, k, e)) == if e.value.Some? then Contents(s)[k := e.value.value] else Contents(s)
  {
    AppendKeepsIndex(s, k, e);
    AppendKeepsCount(s, k, e);
    ValuesWith(s.entries, k, e);
  }

  /** Change an entry in place: same segment. */
  ghost function Changed(s: State, k: Key, e: Entry): State
    requires Shape(s) && k in s.entries && e.segment == s.entries[k].segment
  {
    Enough(s, k);
    var was := s.entries[k];
    var s1 := s.(entries := s.entries[k := e]);
    match e.segment
    case Small => s1.(smallBytes := s.smallBytes - was.charge + e.charge, payloadBytes := s.payloadBytes - Size(Payload, k, was) + Size(Payload, k, e))
    case Main => s1.(mainBytes := s.mainBytes - was.charge + e.charge, payloadBytes := s.payloadBytes - Size(Payload, k, was) + Size(Payload, k, e))
    case Ghost => s1.(ghostBytes := s.ghostBytes - was.charge + e.charge)
  }

  lemma ChangeKeepsQueue(s: State, k: Key, e: Entry, segment: Segment)
    requires Shape(s) && k in s.entries && e.segment == s.entries[k].segment
    ensures QueueOk(Changed(s, k, e), segment)
  {
    assert QueueOk(s, segment);
  }

  lemma ChangeKeepsIndex(s: State, k: Key, e: Entry)
    requires Shape(s) && k in s.entries && e.segment == s.entries[k].segment && EntryOk(e)
    ensures Indexed(Changed(s, k, e))
  {
    ChangeKeepsQueue(s, k, e, Small);
    ChangeKeepsQueue(s, k, e, Main);
    ChangeKeepsQueue(s, k, e, Ghost);
  }

  lemma ChangeKeepsCount(s: State, k: Key, e: Entry)
    requires Shape(s) && k in s.entries && e.segment == s.entries[k].segment && EntryOk(e) && Indexed(Changed(s, k, e))
    ensures Counted(Changed(s, k, e))
  {
    ChangeKeepsSum(s, k, e, Small, Charge);
    ChangeKeepsSum(s, k, e, Main, Charge);
    ChangeKeepsSum(s, k, e, Small, Payload);
    ChangeKeepsSum(s, k, e, Main, Payload);
    ChangeKeepsSum(s, k, e, Ghost, Charge);
    ChangeKeepsSum(s, k, e, Ghost, Metadata);
  }

  lemma ChangeMove(s: State, k: Key, e: Entry)
    requires Shape(s) && k in s.entries && e.segment == s.entries[k].segment && EntryOk(e)
    ensures Shape(Changed(s, k, e))
    ensures Contents(Changed(s, k, e)) == if e.value.Some? then Contents(s)[k := e.value.value] else Contents(s)
  {
    ChangeKeepsIndex(s, k, e);
    ChangeKeepsCount(s, k, e);
    assert EntryOk(s.entries[k]);
    ValuesWith(s.entries, k, e);
  }

  lemma ChangeKeepsSum(s: State, k: Key, e: Entry, segment: Segment, measure: Measure)
    requires Shape(s) && k in s.entries && e.segment == s.entries[k].segment && EntryOk(e) && Indexed(Changed(s, k, e))
    ensures Sum(measure, Queue(s, segment), Changed(s, k, e).entries) + (if e.segment == segment then Size(measure, k, s.entries[k]) else 0)
            == Sum(measure, Queue(s, segment), s.entries) + if e.segment == segment then Size(measure, k, e) else 0
  {
    if e.segment == segment {
      SumUpdate(measure, Queue(s, segment), k, e, s.entries);
    } else {
      SumFrame(measure, Queue(s, segment), s.entries, Changed(s, k, e).entries);
    }
  }

  /** The front of the main queue goes to the back, with one use taken off. */
  function Rotated(s: State): State
    requires s.main != [] && s.main[0] in s.entries && s.entries[s.main[0]].freq > 0
  {
    var k := s.main[0];
    var e := s.entries[k];
    s.(entries := s.entries[k := e.(freq := e.freq - 1)], main := s.main[1..] + [k])
  }

  lemma {:induction false} SumRotate(measure: Measure, q: seq<Key>, m: map<Key, Entry>)
    requires q != [] && AllIn(q, m)
    ensures AllIn(q[1..] + [q[0]], m) && Sum(measure, q[1..] + [q[0]], m) == Sum(measure, q, m)
  {
    SumAppend(measure, q[1..], q[0], m);
  }

  lemma RotateQueue(q: seq<Key>)
    requires q != [] && NoDup(q)
    ensures NoDup(q[1..] + [q[0]]) && forall x :: x in q[1..] + [q[0]] <==> x in q
  {
    var r := q[1..] + [q[0]];
    assert q == [q[0]] + q[1..];
    forall i, j | 0 <= i < j < |r| ensures r[i] != r[j] {
      assert r[i] == q[i + 1];
      if j < |q| - 1 { assert r[j] == q[j + 1]; }
    }
  }

  /** Only the order of the main queue changes. */
  lemma ReorderMove(s: State, main: seq<Key>)
    requires Shape(s) && s.main != [] && main == s.main[1..] + [s.main[0]]
    ensures Shape(s.(main := main)) && Contents(s.(main := main)) == Contents(s)
    ensures Sum(Frequency, main, s.entries) == Sum(Frequency, s.main, s.entries)
  {
    RotateQueue(s.main);
    SumRotate(Charge, s.main, s.entries);
    SumRotate(Payload, s.main, s.entries);
    SumRotate(Frequency, s.main, s.entries);
  }

  /** One use taken off the front of the main queue. */
  lemma UseOff(s: State, k: Key, e: Entry)
    requires Shape(s) && s.main != [] && k == s.main[0] && k in s.entries && s.entries[k].freq > 0
    requires e == s.entries[k].(freq := s.entries[k].freq - 1)
    ensures
      var s1 := s.(entries := s.entries[k := e]);
      Shape(s1) && Contents(s1) == Contents(s) && Sum(Frequency, s1.main, s1.entries) + 1 == Sum(Frequency, s.main, s.entries)
  {
    assert s.entries[k].segment == Main && EntryOk(s.entries[k]);
    ChangeMove(s, k, e);
    ChangeKeepsSum(s, k, e, Main, Frequency);
    SameValues(s.entries, k, e);
    assert Changed(s, k, e) == s.(entries := s.entries[k := e]);
  }

  lemma RotateMove(s: State)
    requires Shape(s) && s.main != [] && s.entries[s.main[0]].freq > 0
    ensures Shape(Rotated(s)) && Contents(Rotated(s)) == Contents(s)
    ensures Sum(Frequency, Rotated(s).main, Rotated(s).entries) < Sum(Frequency, s.main, s.entries)
  {
    var k := s.main[0];
    var e := s.entries[k].(freq := s.entries[k].freq - 1);
    UseOff(s, k, e);
    ReorderMove(s.(entries := s.entries[k := e]), s.main[1..] + [k]);
  }

  lemma SameValues(m: map<Key, Entry>, k: Key, e: Entry)
    requires k in m && e.value == m[k].value
    ensures Values(m[k := e]) == Values(m)
  {
  }

  // ----------------------------------------- the counters and the contents

  /** What a value counts for: its bytes, or what it is charged with. */
  function Amount(v: RamEntry, charged: bool): nat { if charged then v.weight else |v.data| }

  ghost function Amounts(m: map<Key, RamEntry>, charged: bool): nat {
    if m == map[] then 0
    else
      var k :| k in m;
      Amount(m[k], charged) + Amounts(m - {k}, charged)
  }

  lemma {:induction false} AmountsWithout(m: map<Key, RamEntry>, charged: bool, k: Key)
    requires k in m
    ensures Amounts(m, charged) == Amount(m[k], charged) + Amounts(m - {k}, charged)
    decreases |m|
  {
    var x :| x in m && Amounts(m, charged) == Amount(m[x], charged) + Amounts(m - {x}, charged);
    if x != k {
      AmountsWithout(m - {x}, charged, k);
      AmountsWithout(m - {k}, charged, x);
      assert m - {x} - {k} == m - {k} - {x};
    }
  }

  /** The values of the keys of a queue. */
  function ValuesIn(q: seq<Key>, m: map<Key, Entry>): map<Key, RamEntry> {
    map k | k in m && k in q && m[k].value.Some? :: m[k].value.value
  }

  lemma {:induction false} QueueAmounts(q: seq<Key>, m: map<Key, Entry>, charged: bool)
    requires AllIn(q, m) && NoDup(q) && forall k | k in q :: EntryOk(m[k]) && m[k].value.Some?
    ensures Sum(if charged then Charge else Payload, q, m) == Amounts(ValuesIn(q, m), charged)
  {
    if q == [] {
      assert ValuesIn(q, m) == map[];
    } else {
      QueueAmounts(q[1..], m, charged);
      var k := q[0];
      assert k in q && k !in q[1..];
      AmountsWithout(ValuesIn(q, m), charged, k);
      assert ValuesIn(q, m) - {k} == ValuesIn(q[1..], m);
    }
  }

  lemma {:induction false} SumTogether(measure: Measure, a: seq<Key>, b: seq<Key>, m: map<Key, Entry>)
    requires AllIn(a, m) && AllIn(b, m)
    ensures AllIn(a + b, m) && Sum(measure, a + b, m) == Sum(measure, a, m) + Sum(measure, b, m)
  {
    if a == [] {
      assert a + b == b;
    } else {
      assert (a + b)[1..] == a[1..] + b;
      SumTogether(measure, a[1..], b, m);
    }
  }

  /** The byte counters are the bytes and the charges of what can be looked up, and of nothing else. */
  lemma CountersAreContents(s: State)
    requires Shape(s)
    ensures s.payloadBytes == Amounts(Contents(s), false) && s.smallBytes + s.mainBytes == Amounts(Contents(s), true)
  {
    var q := s.small + s.main;
    ResidentsAreContents(s);
    SumTogether(Charge, s.small, s.main, s.entries);
    SumTogether(Payload, s.small, s.main, s.entries);
    QueueAmounts(q, s.entries, false);
    QueueAmounts(q, s.entries, true);
  }

  lemma NoDupTogether(a: seq<Key>, b: seq<Key>)
    requires NoDup(a) && NoDup(b) && forall k | k in a :: k !in b
    ensures NoDup(a + b)
  {
    forall i, j | 0 <= i < j < |a + b|
      ensures (a + b)[i] != (a + b)[j]
    {
      if i < |a| <= j {
        assert a[i] in a && b[j - |a|] in b;
      }
    }
  }

  lemma ResidentsAreContents(s: State)
    requires Shape(s)
    ensures
      var q := s.small + s.main;
      AllIn(q, s.entries) && NoDup(q) && (forall k | k in q :: EntryOk(s.entries[k]) && s.entries[k].value.Some?)
      && ValuesIn(q, s.entries) == Contents(s)
  {
    assert QueueOk(s, Small) && QueueOk(s, Main) && QueueOk(s, Ghost);
    NoDupTogether(s.small, s.main);
    ResidentsHaveValues(s, s.small + s.main);
  }

  lemma ResidentsHaveValues(s: State, q: seq<Key>)
    requires Indexed(s) && q == s.small + s.main
    ensures AllIn(q, s.entries) && (forall k | k in q :: EntryOk(s.entries[k]) && s.entries[k].value.Some?)
    ensures ValuesIn(q, s.entries) == Contents(s)
  {
    forall k | k in s.entries
      ensures k in q <==> s.entries[k].value.Some?
    {
      assert EntryOk(s.entries[k]);
    }
  }

  // ------------------------------------------------------------- the cache

  /** What the cache was told. */
  datatype Op = Put(key: Key, value: RamEntry) | Delete(key: Key) | Get(key: Key)

  /** The value stored last for a key and not removed since. */
  function Latest(ops: seq<Op>): map<Key, RamEntry> {
    if ops == [] then map[]
    else
      var before := Latest(ops[..|ops| - 1]);
      match ops[|ops| - 1]
      case Put(k, v) => before[k := v]
      case Delete(k) => before - {k}
      case Get(_) => before
  }

  /** How often a key was asked for or stored. */
  function Uses(ops: seq<Op>, k: Key): nat {
    if ops == [] then 0
    else Uses(ops[..|ops| - 1], k) + if ops[|ops| - 1].key == k && !ops[|ops| - 1].Delete? then 1 else 0
  }

  /** The uses since the operation with number `at`. */
  function UsesSince(ops: seq<Op>, at: nat, k: Key): nat
    requires at < |ops|
  {
    Uses(ops[at + 1..], k)
  }

  lemma UsesStep(ops: seq<Op>, op: Op, at: nat, k: Key)
    requires at < |ops|
    ensures UsesSince(ops + [op], at, k) == UsesSince(ops, at, k) + if op.key == k && !op.Delete? then 1 else 0
  {
    assert (ops + [op])[at + 1..] == ops[at + 1..] + [op];
    assert (ops[at + 1..] + [op])[..|ops| - at - 1] == ops[at + 1..];
  }

  /**
   The count of an entry of the small queue is the number of its uses since it
   was stored, up to three; `entered` says by which operation that was.
   */
  ghost predicate UsesOk(s: State, ops: seq<Op>, entered: map<Key, nat>) {
    forall k | k in s.small :: k in s.entries && UseOk(s.entries[k], ops, entered, k)
  }

  ghost predicate UseOk(e: Entry, ops: seq<Op>, entered: map<Key, nat>, k: Key) {
    && k in entered && entered[k] < |ops| && ops[entered[k]].Put? && ops[entered[k]].key == k
    && e.freq == Min(3, UsesSince(ops, entered[k], k))
  }

  /** What is in the small queue was there before and has not changed. */
  predicate SmallKept(s0: State, s: State) {
    forall k | k in s.small :: k in s0.small && k in s0.entries && k in s.entries && s.entries[k] == s0.entries[k]
  }

  /** The small queue after a store: a new key has no use yet, an old one has one more, and the others have not changed. */
  ghost predicate SmallAfter(s0: State, s: State, key: Key) {
    forall k | k in s.small ::
      && k in s.entries
      && if k == key && k !in s0.small then s.entries[k].freq == 0
         else k in s0.small && k in s0.entries
              && s.entries[k].freq == if k == key then Min(3, s0.entries[k].freq + 1) else s0.entries[k].freq
  }

  lemma UsesAfterPut(s0: State, s: State, ops: seq<Op>, entered: map<Key, nat>, key: Key, value: RamEntry)
    requires UsesOk(s0, ops, entered) && SmallAfter(s0, s, key)
    ensures UsesOk(s, ops + [Op.Put(key, value)], if key in s0.small then entered else entered[key := |ops|])
  {
    var op := Op.Put(key, value);
    var entered' := if key in s0.small then entered else entered[key := |ops|];
    forall k | k in s.small
      ensures UseOk(s.entries[k], ops + [op], entered', k)
    {
      if k in s0.small {
        UsesStep(ops, op, entered[k], k);
      } else {
        assert (ops + [op])[|ops| + 1..] == [];
      }
    }
  }

  function AfterUse(s: State, key: Key): State {
    if IsResident(s, key) then s.(entries := s.entries[key := Touched(s.entries[key])]) else s
  }

  lemma UsesAfterGet(s: State, ops: seq<Op>, entered: map<Key, nat>, key: Key)
    requires Indexed(s) && UsesOk(s, ops, entered)
    ensures UsesOk(AfterUse(s, key), ops + [Op.Get(key)], entered)
  {
    assert QueueOk(s, Small);
    UsesAfterOther(s, AfterUse(s, key), ops, entered, Op.Get(key));
  }

  lemma AfterGet(s0: State, s: State, ops: seq<Op>, entered: map<Key, nat>, key: Key)
    requires Indexed(s0) && UsesOk(s0, ops, entered) && Submap(Contents(s0), Latest(ops))
    requires s == AfterUse(s0, key) && Contents(s) == Contents(s0)
    ensures UsesOk(s, ops + [Op.Get(key)], entered) && Latest(ops + [Op.Get(key)]) == Latest(ops)
    ensures Submap(Contents(s), Latest(ops + [Op.Get(key)]))
  {
    LatestGet(ops, key);
    UsesAfterGet(s0, ops, entered, key);
  }

  lemma UsesAfterOther(s0: State, s: State, ops: seq<Op>, entered: map<Key, nat>, op: Op)
    requires UsesOk(s0, ops, entered) && !op.Put?
    requires forall k | k in s.small ::
      && k in s0.small && k in s0.entries && k in s.entries && (op.Delete? ==> k != op.key)
      && s.entries[k].freq == if k == op.key then Min(3, s0.entries[k].freq + 1) else s0.entries[k].freq
    ensures UsesOk(s, ops + [op], entered)
  {
    forall k | k in s.small
      ensures UseOk(s.entries[k], ops + [op], entered, k)
    {
      UsesStep(ops, op, entered[k], k);
    }
  }

  lemma EmptyShape(s: State, capacity: nat, limit: nat, ops: seq<Op>)
    requires s.entries == map[] && s.small == s.main == s.ghosts == []
    requires s.smallBytes == s.mainBytes == s.payloadBytes == s.ghostBytes == s.ghostMetadata == 0
    ensures Shape(s) && Contents(s) == map[] && Submap(Contents(s), Latest(ops))
    ensures GhostBounds(s, capacity, limit) && ResidentBounds(s, capacity, limit)
  {
    EmptyQueue(s, Small);
    EmptyQueue(s, Main);
    EmptyQueue(s, Ghost);
  }

  lemma EmptyQueue(s: State, segment: Segment)
    requires s.entries == map[] && s.small == s.main == s.ghosts == []
    ensures QueueOk(s, segment)
  {
  }

  /** One more use of a resident entry. */
  function Touched(e: Entry): Entry { e.(freq := if e.freq + 1 < 3 then e.freq + 1 else 3) }

  /** One entry has had one use more, up to three, and nothing else has changed. */
  predicate UsedOnce(s0: State, s: State, key: Key) {
    && key in s0.entries && s == s0.(entries := s.entries) && s.entries.Keys == s0.entries.Keys
    && s.entries[key] == Entry(s0.entries[key].value, s0.entries[key].charge, Min(3, s0.entries[key].freq + 1), s0.entries[key].segment)
    && forall k | k in s.entries && k != key :: s.entries[k] == s0.entries[k]
  }

  lemma TouchMove(s: State, k: Key)
    requires Shape(s) && k in s.entries && s.entries[k].segment != Ghost
    ensures
      var s' := s.(entries := s.entries[k := Touched(s.entries[k])]);
      Shape(s') && Contents(s') == Contents(s) && k in Contents(s) && s.entries[k].value == Some(Contents(s)[k])
  {
    var e := Touched(s.entries[k]);
    ChangeMove(s, k, e);
    assert Changed(s, k, e) == s.(entries := s.entries[k := e]);
  }

  /** The book-keeping is in order and the ghosts are within bounds; residents may not be. */
  ghost predicate Kept(s: State, capacity: nat, limit: nat) {
    Shape(s) && GhostBounds(s, capacity, limit)
  }

  // -------------------------------------------------------- what is evicted

  function FreqAt(s: State, j: nat): nat
    requires j < |s.main| && s.main[j] in s.entries
  {
    s.entries[s.main[j]].freq
  }

  predicate MainIn(s: State) {
    forall j | 0 <= j < |s.main| :: s.main[j] in s.entries
  }

  /** The scan has gone `rounds` times round the main queue and then passed `p` entries, taking a use off each time. */
  ghost predicate Scanned(s0: State, s: State, rounds: nat, p: nat) {
    && MainIn(s0) && NoDup(s0.main) && p < |s0.main|
    && s.main == s0.main[p..] + s0.main[..p] && s.entries.Keys == s0.entries.Keys
    && s == s0.(entries := s.entries, main := s.main)
    && (forall j | 0 <= j < |s0.main| ::
      var taken := rounds + if j < p then 1 else 0;
      FreqAt(s0, j) >= taken && s.entries[s0.main[j]] == s0.entries[s0.main[j]].(freq := FreqAt(s0, j) - taken))
    && (forall k | k in s0.entries && k !in s0.main :: s.entries[k] == s0.entries[k])
  }

  lemma ScanStarts(s: State)
    requires Shape(s) && s.main != []
    ensures Scanned(s, s, 0, 0)
  {
    assert QueueOk(s, Main);
    assert s.main[0..] + s.main[..0] == s.main;
  }

  lemma ScanStep(s0: State, s: State, rounds: nat, p: nat)
    requires Scanned(s0, s, rounds, p) && FreqAt(s0, p) > rounds
    ensures s.main[0] == s0.main[p] && s.main[0] in s.entries && s.entries[s.main[0]].freq > 0
    ensures if p + 1 < |s0.main| then Scanned(s0, Rotated(s), rounds, p + 1) else Scanned(s0, Rotated(s), rounds + 1, 0)
  {
    RotateTwice(s0.main, p);
    ScanOthers(s0, s, rounds, p);
    ScanTakesOne(s0, s, rounds, p);
  }

  lemma ScanTakesOne(s0: State, s: State, rounds: nat, p: nat)
    requires Scanned(s0, s, rounds, p) && FreqAt(s0, p) > rounds && s.main[0] == s0.main[p] && s.main[0] in s.entries
    requires s.entries[s.main[0]].freq == FreqAt(s0, p) - rounds
    requires forall j | 0 <= j < |s0.main| && j != p :: Rotated(s).entries[s0.main[j]] == s.entries[s0.main[j]]
    ensures forall j | 0 <= j < |s0.main| ::
      Rotated(s).entries[s0.main[j]] == s0.entries[s0.main[j]].(freq := FreqAt(s0, j) - (rounds + if j <= p then 1 else 0))
  {
    forall j | 0 <= j < |s0.main|
      ensures Rotated(s).entries[s0.main[j]] == s0.entries[s0.main[j]].(freq := FreqAt(s0, j) - (rounds + if j <= p then 1 else 0))
    {
    }
  }

  /** A use is taken off one entry only. */
  lemma ScanOthers(s0: State, s: State, rounds: nat, p: nat)
    requires Scanned(s0, s, rounds, p) && FreqAt(s0, p) > rounds && s.main[0] == s0.main[p]
    ensures s.main[0] in s.entries && s.entries[s.main[0]].freq == FreqAt(s0, p) - rounds
    ensures forall j | 0 <= j < |s0.main| && j != p :: Rotated(s).entries[s0.main[j]] == s.entries[s0.main[j]]
    ensures forall k | k in s0.entries && k !in s0.main :: Rotated(s).entries[k] == s.entries[k]
  {
    forall j | 0 <= j < |s0.main| && j != p
      ensures s0.main[j] != s0.main[p]
    {
    }
    assert s0.main[p] in s0.main;
  }

  lemma RotateTwice(q: seq<Key>, p: nat)
    requires p < |q|
    ensures
      var r := q[p..] + q[..p];
      r[0] == q[p] && r[1..] + [r[0]] == if p + 1 < |q| then q[p + 1..] + q[..p + 1] else q[0..] + q[..0]
  {
    var r := q[p..] + q[..p];
    assert r[1..] == q[p + 1..] + q[..p];
    assert q[..p + 1] == q[..p] + [q[p]];
  }

  /**
   The main queue loses its first entry of least use.  Every entry before it
   has had one use more than that taken off, every entry behind it that many,
   and the queue goes on behind the entry that was lost.
   */
  ghost predicate MainEvicted(s0: State, s: State, v: nat) {
    && MainIn(s0) && v < |s0.main|
    && (forall j | 0 <= j < |s0.main| :: FreqAt(s0, j) >= FreqAt(s0, v))
    && (forall j | 0 <= j < v :: FreqAt(s0, j) > FreqAt(s0, v))
    && s.small == s0.small && s.ghosts == s0.ghosts && s.main == s0.main[v + 1..] + s0.main[..v]
    && s.entries.Keys == s0.entries.Keys - {s0.main[v]}
    && (forall j | 0 <= j < |s0.main| && j != v ::
      s0.main[j] in s.entries
      && s.entries[s0.main[j]] == s0.entries[s0.main[j]].(freq := FreqAt(s0, j) - FreqAt(s0, v) - if j < v then 1 else 0))
    && (forall k | k in s0.entries && k !in s0.main :: k in s.entries && s.entries[k] == s0.entries[k])
  }

  lemma ScanEnds(s0: State, s: State, s': State, rounds: nat, p: nat)
    requires Scanned(s0, s, rounds, p) && FreqAt(s0, p) == rounds
    requires s'.main == s.main[1..] && s'.entries == s.entries - {s.main[0]} && s'.small == s.small && s'.ghosts == s.ghosts
    ensures MainEvicted(s0, s', p)
  {
    RotateTwice(s0.main, p);
    assert s'.main == s0.main[p + 1..] + s0.main[..p];
    LeastUsed(s0, s, rounds, p);
    ScanLeaves(s0, s, s', rounds, p);
  }

  lemma LeastUsed(s0: State, s: State, rounds: nat, p: nat)
    requires Scanned(s0, s, rounds, p) && FreqAt(s0, p) == rounds
    ensures forall j | 0 <= j < |s0.main| :: FreqAt(s0, j) >= FreqAt(s0, p) && (j < p ==> FreqAt(s0, j) > FreqAt(s0, p))
  {
  }

  lemma ScanLeaves(s0: State, s: State, s': State, rounds: nat, p: nat)
    requires Scanned(s0, s, rounds, p) && FreqAt(s0, p) == rounds && s.main[0] == s0.main[p] && s'.entries == s.entries - {s.main[0]}
    ensures s'.entries.Keys == s0.entries.Keys - {s0.main[p]}
    ensures forall j | 0 <= j < |s0.main| && j != p ::
      s0.main[j] in s'.entries && FreqAt(s0, j) >= rounds + (if j < p then 1 else 0)
      && s'.entries[s0.main[j]] == s0.entries[s0.main[j]].(freq := FreqAt(s0, j) - rounds - if j < p then 1 else 0)
    ensures forall k | k in s0.entries && k !in s0.main :: k in s'.entries && s'.entries[k] == s0.entries[k]
  {
    forall j | 0 <= j < |s0.main| && j != p
      ensures s0.main[j] in s'.entries && s'.entries[s0.main[j]] == s.entries[s0.main[j]]
    {
      assert s0.main[j] != s0.main[p];
    }
    assert s0.main[p] in s0.main;
  }

  /** Entries of the small queue that were used twice move on; the first other one becomes a ghost. */
  predicate SmallEvicted(s0: State, s: State, m: nat) {
    && m <= |s0.small|
    && (forall j | 0 <= j < m :: s0.small[j] in s0.entries && s0.entries[s0.small[j]].freq >= 2)
    && (m < |s0.small| ==> s0.small[m] in s0.entries && s0.entries[s0.small[m]].freq < 2)
    && s.small == (if m < |s0.small| then s0.small[m + 1..] else [])
    && s.main == s0.main + s0.small[..m]
    && SmallKept(s0, s) && (forall k | k in s.main :: k in s0.entries && k in s.entries && s.entries[k] == MovedOn(s0, k, m))
    && (m < |s0.small| && s0.small[m] in s.entries ==>
          s.entries[s0.small[m]] == Entry(None, s0.entries[s0.small[m]].charge, 0, Ghost))
  }

  /** An entry after the first `m` of the small queue have moved to the main queue, where their uses count anew. */
  function MovedOn(s0: State, k: Key, m: nat): Entry
    requires k in s0.entries && m <= |s0.small|
  {
    if k in s0.small[..m] then Entry(s0.entries[k].value, s0.entries[k].charge, 0, Main) else s0.entries[k]
  }

  /**
   The main queue is chosen above 90 percent of the capacity or when the small
   queue is empty, unless it is empty itself.
   */
  ghost predicate OneEvicted(s0: State, s: State, at: nat, capacity: nat) {
    if (s0.mainBytes > capacity * 9 / 10 || s0.small == []) && s0.main != [] then MainEvicted(s0, s, at) else SmallEvicted(s0, s, at)
  }

  /** `extra` bytes and `room` entries can be added. */
  predicate HasRoom(s: State, extra: nat, room: nat, capacity: nat, limit: nat) {
    s.smallBytes + s.mainBytes + extra <= capacity && |s.small| + |s.main| + room <= limit
  }

  /** The entry that goes, if one does. */
  function Victim(s0: State, at: nat, capacity: nat): set<Key> {
    if (s0.mainBytes > capacity * 9 / 10 || s0.small == []) && s0.main != [] then if at < |s0.main| then {s0.main[at]} else {}
    else if at < |s0.small| then {s0.small[at]} else {}
  }

  /** The policy evicts its victim and nothing else. */
  ghost predicate Evicts(s0: State, s: State, capacity: nat) {
    exists at :: OneEvicted(s0, s, at, capacity) && Contents(s) == Contents(s0) - Victim(s0, at, capacity)
  }

  /** One eviction after the other, each of them because there was no room. */
  ghost predicate Evictions(trace: seq<State>, extra: nat, room: nat, capacity: nat, limit: nat) {
    && trace != []
    && forall i | 0 <= i < |trace| - 1 :: !HasRoom(trace[i], extra, room, capacity, limit) && Evicts(trace[i], trace[i + 1], capacity)
  }

  lemma OneMoreEviction(trace: seq<State>, s: State, at: nat, extra: nat, room: nat, capacity: nat, limit: nat)
    requires Evictions(trace, extra, room, capacity, limit) && !HasRoom(trace[|trace| - 1], extra, room, capacity, limit)
    requires OneEvicted(trace[|trace| - 1], s, at, capacity)
    requires Contents(s) == Contents(trace[|trace| - 1]) - Victim(trace[|trace| - 1], at, capacity)
    ensures Evictions(trace + [s], extra, room, capacity, limit)
  {
    var more := trace + [s];
    forall i | 0 <= i < |more| - 1
      ensures !HasRoom(more[i], extra, room, capacity, limit) && Evicts(more[i], more[i + 1], capacity)
    {
      if i < |trace| - 1 {
        assert more[i] == trace[i] && more[i + 1] == trace[i + 1];
      } else {
        assert more[i] == trace[|trace| - 1] && more[i + 1] == s;
      }
    }
  }

  /** They go on until there is room. */
  ghost predicate EvictionRun(trace: seq<State>, extra: nat, room: nat, capacity: nat, limit: nat) {
    Evictions(trace, extra, room, capacity, limit) && HasRoom(trace[|trace| - 1], extra, room, capacity, limit)
  }

  predicate IsResident(s: State, key: Key) { key in s.entries && s.entries[key].segment != Ghost }

  /** The state in which a store makes room: the old entry has the new value, or the ghost is forgotten. */
  ghost function Prepared(s: State, key: Key, value: RamEntry): State
    requires Shape(s)
  {
    if key !in s.entries then s
    else if s.entries[key].segment == Ghost then Unlinked(s, key)
    else Changed(s, key, Renewed(s.entries[key], value))
  }

  function Renewed(e: Entry, value: RamEntry): Entry {
    Touched(e.(value := Some(value), charge := value.weight))
  }

  /** The entry of a key that was not resident; one that was evicted lately goes to the main queue. */
  function NewEntry(s: State, key: Key, value: RamEntry): Entry {
    Entry(Some(value), value.weight, 0, if key in s.entries then Main else Small)
  }

  /** Nothing has to go for the value. */
  ghost predicate HasPlace(s: State, key: Key, value: RamEntry, capacity: nat, limit: nat)
    requires Shape(s)
  {
    var prepared := Prepared(s, key, value);
    if IsResident(s, key) then HasRoom(prepared, 0, 0, capacity, limit) else HasRoom(prepared, value.weight, 1, capacity, limit)
  }

  /** The value has been stored: in place or at the back of its queue, after evictions that were necessary. */
  ghost predicate StoredAfter(s0: State, s: State, key: Key, value: RamEntry, trace: seq<State>, capacity: nat, limit: nat)
    requires Shape(s0)
  {
    && trace != [] && trace[0] == Prepared(s0, key, value)
    && if IsResident(s0, key) then EvictionRun(trace, 0, 0, capacity, limit) && s == trace[|trace| - 1]
       else EvictionRun(trace, value.weight, 1, capacity, limit) && s == Appended(trace[|trace| - 1], key, NewEntry(s0, key, value))
  }

  /** The first `m` entries of the small queue have moved on, and the others are as they were. */
  predicate Promoted(s0: State, s: State, m: nat) {
    && m <= |s0.small| && s.small == s0.small[m..] && s.main == s0.main + s0.small[..m]
    && (forall j | 0 <= j < m :: s0.small[j] in s0.entries && s0.entries[s0.small[j]].freq >= 2)
    && s.entries.Keys == s0.entries.Keys
    && (forall k | k in s0.entries :: s.entries[k] == MovedOn(s0, k, m))
    && (forall k | k in s.small :: k in s0.entries && s.entries[k] == s0.entries[k])
  }

  lemma PromotedStep(s0: State, s: State, s': State, m: nat)
    requires Promoted(s0, s, m) && s.small != [] && s.small[0] in s.entries && s.entries[s.small[0]].freq >= 2
    requires forall k | k in s.small[1..] :: k != s.small[0]
    requires s'.small == s.small[1..] && s'.main == s.main + [s.small[0]]
    requires s'.entries == s.entries[s.small[0] := s.entries[s.small[0]].(freq := 0, segment := Main)]
    ensures Promoted(s0, s', m + 1)
  {
    var first := s.small[0];
    assert first == s0.small[m] && first in s.small && s.entries[first] == s0.entries[first];
    assert s0.small[..m + 1] == s0.small[..m] + [s0.small[m]];
    MovedOneMore(s0, s, s', m);
    forall k | k in s'.small
      ensures k in s0.entries && s'.entries[k] == s0.entries[k]
    {
      assert k in s.small;
    }
  }

  lemma MovedOneMore(s0: State, s: State, s': State, m: nat)
    requires m < |s0.small| && s.entries.Keys == s0.entries.Keys && (forall k | k in s0.entries :: s.entries[k] == MovedOn(s0, k, m))
    requires s0.small[m] in s0.entries && s.entries[s0.small[m]] == s0.entries[s0.small[m]]
    requires s'.entries == s.entries[s0.small[m] := s.entries[s0.small[m]].(freq := 0, segment := Main)]
    ensures forall k | k in s0.entries :: k in s'.entries && s'.entries[k] == MovedOn(s0, k, m + 1)
  {
    forall k | k in s0.entries
      ensures k in s'.entries && s'.entries[k] == MovedOn(s0, k, m + 1)
    {
      assert s0.small[..m + 1] == s0.small[..m] + [s0.small[m]];
    }
  }

  /** The contents without entry `at` of a queue, if there is one. */
  function Evicted(m: map<Key, RamEntry>, q: seq<Key>, at: nat): map<Key, RamEntry> {
    if at < |q| then m - {q[at]} else m
  }

  lemma NonePromoted(s: State)
    requires Shape(s)
    ensures Promoted(s, s, 0)
  {
    assert QueueOk(s, Small);
    assert s.small[0..] == s.small && s.main + s.small[..0] == s.main;
  }

  lemma MinusNothing(m: map<Key, RamEntry>, none: set<Key>)
    ensures none == {} ==> m - none == m
  {
  }

  lemma AllPromoted(s0: State, s: State, m: nat)
    requires Promoted(s0, s, m) && s.small == [] && AllIn(s.main, s.entries)
    ensures m == |s0.small| && SmallEvicted(s0, s, m)
  {
  }

  lemma PromotedEnds(s0: State, s: State, m: nat)
    requires Promoted(s0, s, m) && s.small != []
    ensures m < |s0.small| && s.small[0] == s0.small[m] && s.small[1..] == s0.small[m + 1..]
    ensures s0.small[m] in s0.entries && s.small[0] in s.entries && s.entries[s.small[0]] == s0.entries[s0.small[m]]
  {
    assert s.small[0] in s.small;
  }

  /** Some ghosts have been forgotten and nothing else has changed. */
  predicate GhostsGone(s0: State, s: State) {
    && (forall k | k in s.entries :: k in s0.entries && s.entries[k] == s0.entries[k])
    && (forall k | k in s0.entries && s0.entries[k].segment != Ghost :: k in s.entries)
  }

  /** The ghosts from number `d` on are too many for one of the three bounds. */
  ghost predicate TooManyGhosts(s: State, d: nat, capacity: nat, limit: nat)
    requires Shape(s) && d <= |s.ghosts|
  {
    assert AllIn(s.ghosts[d..], s.entries);
    || Sum(Charge, s.ghosts[d..], s.entries) > capacity
    || Sum(Metadata, s.ghosts[d..], s.entries) > Max(128, capacity / 10)
    || |s.ghosts| - d > limit
  }

  /** Exactly as many of the oldest ghosts have gone as had to: the last of them, too, was one too many. */
  ghost predicate OldestGone(s0: State, s: State, d: nat, capacity: nat, limit: nat)
    requires Shape(s0)
  {
    && d <= |s0.ghosts| && s.ghosts == s0.ghosts[d..]
    && (d > 0 ==> TooManyGhosts(s0, d - 1, capacity, limit)) && !TooManyGhosts(s0, d, capacity, limit)
  }

  /** The counters of a state whose first ghosts have been forgotten. */
  lemma GhostsLeft(s0: State, s: State, d: nat, capacity: nat, limit: nat)
    requires Shape(s0) && Shape(s) && GhostsGone(s0, s) && d <= |s0.ghosts| && s.ghosts == s0.ghosts[d..]
    ensures !GhostBounds(s, capacity, limit) <==> TooManyGhosts(s0, d, capacity, limit)
  {
    assert AllIn(s0.ghosts[d..], s0.entries);
    SumFrame(Charge, s.ghosts, s0.entries, s.entries);
    SumFrame(Metadata, s.ghosts, s0.entries, s.entries);
  }

  /** A new ghost: its value is gone, and no other resident has changed. */
  predicate Demoted(s0: State, s: State, k: Key) {
    && k in s0.entries && (k in s.entries ==> s.entries[k] == Entry(None, s0.entries[k].charge, 0, Ghost))
    && forall x | x in s0.entries && x != k && s0.entries[x].segment != Ghost :: x in s.entries && s.entries[x] == s0.entries[x]
  }

  lemma DemotedAfterTrim(s0: State, full: State, s: State, k: Key)
    requires k in s0.entries && GhostsGone(full, s)
    requires full.entries == (s0.entries - {k})[k := s0.entries[k].(value := None, freq := 0, segment := Ghost)]
    ensures Demoted(s0, s, k)
  {
  }

  lemma DemotedEnds(s0: State, s: State, s': State, m: nat)
    requires Promoted(s0, s, m) && Indexed(s) && s.small != [] && s.small[0] in s.entries && s.entries[s.small[0]].freq < 2
    requires Demoted(s, s', s.small[0]) && s'.small == s.small[1..] && s'.main == s.main
    ensures SmallEvicted(s0, s', m)
  {
    PromotedEnds(s0, s, m);
    assert QueueOk(s, Small) && QueueOk(s, Main);
    forall k | k in s'.small
      ensures k in s0.small && k in s0.entries && k in s'.entries && s'.entries[k] == s0.entries[k]
    {
      assert k in s.small && k != s.small[0];
    }
    forall k | k in s'.main
      ensures k in s0.entries && k in s'.entries && s'.entries[k] == MovedOn(s0, k, m)
    {
      assert k in s.main && k != s.small[0];
    }
  }

  /** Nothing stored: no queue has an entry and every counter is zero. */
  method Empty(capacity: nat, limit: nat, ghost ops: seq<Op>) returns (s: State)
    ensures Kept(s, capacity, limit) && ResidentBounds(s, capacity, limit)
    ensures Contents(s) == map[] && Submap(Contents(s), Latest(ops)) && s.small == []
  {
    s := State(map[], [], [], [], 0, 0, 0, 0, 0);
    EmptyShape(s, capacity, limit, ops);
  }

  class Cache {
    const capacity: nat
    const entryLimit: nat
    var s: State
    var hits: nat
    var misses: nat
    var promotions: nat
    var ghostHits: nat
    ghost var history: seq<Op>
    ghost var entered: map<Key, nat>

    ghost predicate Limits() {
      0 < capacity && entryLimit == if capacity < 65536 then capacity else 65536
    }

    /** Every resident value is the one stored last, and the uses in the small queue are counted since it was. */
    ghost predicate Valid()
      reads this
    {
      && Limits() && Kept(s, capacity, entryLimit) && ResidentBounds(s, capacity, entryLimit) && Submap(Contents(s), Latest(history))
      && UsesOk(s, history, entered)
    }

    constructor (size: nat)
      requires size > 0
      ensures Valid() && capacity == size && history == [] && Contents(s) == map[]
    {
      capacity := size;
      entryLimit := if size < 65536 then size else 65536;
      var empty := Empty(size, if size < 65536 then size else 65536, []);
      s := empty;
      hits, misses, promotions, ghostHits := 0, 0, 0, 0;
      history, entered := [], map[];
    }

    /** A hit returns the latest value and counts one more use, up to three. */
    method Get(key: Key) returns (r: Option<RamEntry>)
      requires Valid()
      modifies this
      ensures Valid() && history == old(history) + [Op.Get(key)] && Latest(history) == Latest(old(history))
      ensures Contents(s) == old(Contents(s)) && entered == old(entered)
      ensures r.Some? <==> key in Contents(s)
      ensures r.Some? ==> key in Latest(history) && r.value == Latest(history)[key]
      ensures if r.Some? then UsedOnce(old(s), s, key) else s == old(s)
      ensures hits + misses == old(hits + misses) + 1 && (hits == old(hits) + 1 <==> r.Some?)
    {
      r := Lookup(key);
      AfterGet(old(s), s, history, entered, key);
      history := history + [Op.Get(key)];
    }

    method Lookup(key: Key) returns (r: Option<RamEntry>)
      requires Kept(s, capacity, entryLimit)
      modifies this`s, this`hits, this`misses
      ensures Kept(s, capacity, entryLimit) && Contents(s) == old(Contents(s))
      ensures r == if key in Contents(s) then Some(Contents(s)[key]) else None
      ensures s == AfterUse(old(s), key) && (r.Some? <==> IsResident(old(s), key)) && (r.Some? ==> UsedOnce(old(s), s, key))
      ensures hits + misses == old(hits + misses) + 1 && (hits == old(hits) + 1 <==> r.Some?)
    {
      if key in s.entries && s.entries[key].segment != Ghost {
        r := Touch(key);
        hits := hits + 1;
      } else {
        assert key in s.entries ==> EntryOk(s.entries[key]);
        misses := misses + 1;
        r := None;
      }
    }

    /** Count one use of a resident entry. */
    method Touch(key: Key) returns (r: Option<RamEntry>)
      requires Kept(s, capacity, entryLimit) && IsResident(s, key)
      modifies this`s
      ensures Kept(s, capacity, entryLimit) && Contents(s) == old(Contents(s)) && key in Contents(s) && r == Some(Contents(s)[key])
      ensures s == AfterUse(old(s), key) && UsedOnce(old(s), s, key)
    {
      TouchMove(s, key);
      var e := s.entries[key];
      s := s.(entries := s.entries[key := Touched(e)]);
      r := e.value;
    }

    method Unlink(key: Key)
      requires Shape(s) && key in s.entries
      modifies this`s
      ensures s == Unlinked(old(s), key)
    {
      Enough(s, key);
      var e := s.entries[key];
      match e.segment {
        case Small =>
          s := s.(small := Dropped(s.small, key), smallBytes := s.smallBytes - e.charge,
                  payloadBytes := s.payloadBytes - Size(Payload, key, e));
        case Main =>
          s := s.(main := Dropped(s.main, key), mainBytes := s.mainBytes - e.charge,
                  payloadBytes := s.payloadBytes - Size(Payload, key, e));
        case Ghost =>
          s := s.(ghosts := Dropped(s.ghosts, key), ghostBytes := s.ghostBytes - e.charge,
                  ghostMetadata := s.ghostMetadata - (128 + |key|));
      }
      s := s.(entries := s.entries - {key});
    }

    method Append(key: Key, e: Entry)
      modifies this`s
      ensures s == Appended(old(s), key, e)
    {
      s := s.(entries := s.entries[key := e]);
      match e.segment {
        case Small =>
          s := s.(small := s.small + [key], smallBytes := s.smallBytes + e.charge, payloadBytes := s.payloadBytes + Size(Payload, key, e));
        case Main =>
          s := s.(main := s.main + [key], mainBytes := s.mainBytes + e.charge, payloadBytes := s.payloadBytes + Size(Payload, key, e));
        case Ghost =>
          s := s.(ghosts := s.ghosts + [key], ghostBytes := s.ghostBytes + e.charge, ghostMetadata := s.ghostMetadata + (128 + |key|));
      }
    }

    /** Forget the oldest ghosts until all three bounds hold, and no more of them. */
    method TrimGhost()
      requires Shape(s)
      modifies this`s
      ensures Kept(s, capacity, entryLimit)
      ensures Contents(s) == old(Contents(s)) && s.entries.Keys <= old(s.entries).Keys
      ensures s.small == old(s.small) && s.main == old(s.main) && GhostsGone(old(s), s)
      ensures exists d: nat :: OldestGone(old(s), s, d, capacity, entryLimit)
      ensures old(GhostBounds(s, capacity, entryLimit)) ==> s == old(s)
    {
      ghost var dropped: nat := 0;
      while s.ghostBytes > capacity || s.ghostMetadata > Max(128, capacity / 10) || |s.ghosts| > entryLimit
        invariant Trimmed(old(s), dropped) && (dropped > 0 ==> !old(GhostBounds(s, capacity, entryLimit)))
        decreases |s.ghosts|
      {
        TrimOne(old(s), dropped);
        dropped := dropped + 1;
      }
      GhostsLeft(old(s), s, dropped, capacity, entryLimit);
      assert OldestGone(old(s), s, dropped, capacity, entryLimit);
    }

    /** The first `d` ghosts have been forgotten, each because there were too many. */
    ghost predicate Trimmed(s0: State, d: nat)
      reads this
    {
      && Shape(s0) && Shape(s) && GhostsGone(s0, s) && Contents(s) == Contents(s0) && s.entries.Keys <= s0.entries.Keys
      && s.small == s0.small && s.main == s0.main && d <= |s0.ghosts| && s.ghosts == s0.ghosts[d..]
      && if d == 0 then s == s0 else TooManyGhosts(s0, d - 1, capacity, entryLimit)
    }

    method TrimOne(ghost s0: State, ghost d: nat)
      requires Trimmed(s0, d) && !GhostBounds(s, capacity, entryLimit)
      modifies this`s
      ensures Trimmed(s0, d + 1) && |s.ghosts| == |old(s.ghosts)| - 1
    {
      GhostsLeft(s0, s, d, capacity, entryLimit);
      SomeGhost(s);
      DropGhost();
    }

    /** The oldest ghost goes. */
    method DropGhost()
      requires Shape(s) && s.ghosts != []
      modifies this`s
      ensures Shape(s) && s.ghosts == old(s.ghosts)[1..] && GhostsGone(old(s), s)
      ensures Contents(s) == old(Contents(s)) && s.entries.Keys <= old(s.entries).Keys
      ensures s.small == old(s.small) && s.main == old(s.main)
    {
      SomeGhost(s);
      UnlinkMove(s, s.ghosts[0]);
      GhostHasNoValue(s, s.ghosts[0]);
      Unlink(s.ghosts[0]);
    }

    /** The front of the main queue goes round. */
    method RotateFront()
      requires Kept(s, capacity, entryLimit) && s.main != [] && s.main[0] in s.entries && s.entries[s.main[0]].freq > 0
      modifies this`s
      ensures Kept(s, capacity, entryLimit)
      ensures Contents(s) == old(Contents(s)) && s.entries.Keys == old(s.entries).Keys
      ensures s == Rotated(old(s))
      ensures Sum(Frequency, s.main, s.entries) < old(Sum(Frequency, s.main, s.entries))
    {
      RotateMove(s);
      var k := s.main[0];
      s := s.(entries := s.entries[k := s.entries[k].(freq := s.entries[k].freq - 1)], main := s.main[1..] + [k]);
    }

    /** The front of the main queue is evicted. */
    method TakeFront()
      requires Kept(s, capacity, entryLimit) && s.main != []
      modifies this`s
      ensures Kept(s, capacity, entryLimit)
      ensures old(s.main[0]) in old(Contents(s)) && Contents(s) == old(Contents(s)) - {old(s.main[0])}
      ensures s.main == old(s.main)[1..] && s.entries == old(s.entries) - {old(s.main[0])}
      ensures s.small == old(s.small) && s.ghosts == old(s.ghosts)
    {
      FrontOf(s, Main);
      UnlinkMove(s, s.main[0]);
      Unlink(s.main[0]);
    }

    /**
     Take the first unused entry of the main queue out; entries that were used
     go round with one use taken off, so the total number of uses falls.
     */
    method EvictMain() returns (ghost v: nat)
      requires Kept(s, capacity, entryLimit) && s.main != []
      modifies this`s
      ensures Kept(s, capacity, entryLimit) && MainEvicted(old(s), s, v)
      ensures old(s).main[v] in old(Contents(s)) && Contents(s) == old(Contents(s)) - {old(s).main[v]}
    {
      v := ScanMain(s);
    }

    /** Nothing has been evicted since `s0`, and the scan stands at entry `p` of the given round. */
    ghost predicate Scanning(s0: State, rounds: nat, p: nat)
      reads this
    {
      Kept(s, capacity, entryLimit) && s.main != [] && Contents(s) == Contents(s0) && Scanned(s0, s, rounds, p)
    }

    /** Entry `p` of the main queue has been evicted. */
    ghost predicate Taken(s0: State, p: nat)
      reads this
    {
      && Kept(s, capacity, entryLimit) && MainEvicted(s0, s, p)
      && s0.main[p] in Contents(s0) && Contents(s) == Contents(s0) - {s0.main[p]}
    }

    method ScanMain(ghost s0: State) returns (ghost v: nat)
      requires s == s0 && Kept(s, capacity, entryLimit) && s.main != []
      modifies this`s
      ensures Taken(s0, v)
    {
      ghost var rounds := 0;
      v := 0;
      ScanStarts(s);
      var done := false;
      while !done
        invariant if done then Taken(s0, v) else Scanning(s0, rounds, v)
        decreases !done, if done then 0 else Sum(Frequency, s.main, s.entries)
      {
        done, rounds, v := ScanTurn(s0, rounds, v);
      }
    }

    /** Evict the front of the main queue if it has no uses left, or take one off and let it go round. */
    method ScanTurn(ghost s0: State, ghost rounds: nat, ghost p: nat) returns (done: bool, ghost rounds': nat, ghost p': nat)
      requires Scanning(s0, rounds, p)
      modifies this`s
      ensures if done then Taken(s0, p') else Scanning(s0, rounds', p') && Sum(Frequency, s.main, s.entries) < old(Sum(Frequency, s.main, s.entries))
    {
      FrontOf(s, Main);
      if s.entries[s.main[0]].freq == 0 {
        TakeNext(s0, rounds, p);
        done, rounds', p' := true, rounds, p;
      } else {
        ScanStep(s0, s, rounds, p);
        RotateFront();
        done := false;
        rounds', p' := if p + 1 < |s0.main| then rounds else rounds + 1, if p + 1 < |s0.main| then p + 1 else 0;
      }
    }

    method TakeNext(ghost s0: State, ghost rounds: nat, ghost p: nat)
      requires Scanning(s0, rounds, p) && s.main[0] in s.entries && s.entries[s.main[0]].freq == 0
      modifies this`s
      ensures Taken(s0, p)
    {
      ghost var before := s;
      assert s.main[0] == s0.main[p];
      TakeFront();
      ScanEnds(s0, before, s, rounds, p);
    }

    /** Move the front of the small queue to the main queue. */
    method Promote(k: Key)
      requires Kept(s, capacity, entryLimit) && s.small != [] && k == s.small[0]
      modifies this`s, this`promotions
      ensures Kept(s, capacity, entryLimit)
      ensures Contents(s) == old(Contents(s)) && k in old(s.entries)
      ensures s.entries == old(s.entries)[k := old(s.entries)[k].(freq := 0, segment := Main)]
      ensures s.small == old(s.small)[1..] && s.main == old(s.main) + [k]
    {
      PromoteMove(s);
      var e := s.entries[k];
      Unlink(k);
      Append(k, e.(freq := 0, segment := Main));
      promotions := promotions + 1;
    }

    /** Drop the value of the front of the small queue and remember its key as a ghost. */
    method Demote(k: Key)
      requires Kept(s, capacity, entryLimit) && s.small != [] && k == s.small[0]
      modifies this`s
      ensures Kept(s, capacity, entryLimit)
      ensures k in old(Contents(s)) && Contents(s) == old(Contents(s)) - {k}
      ensures s.entries.Keys <= old(s.entries).Keys
      ensures s.small == old(s.small)[1..] && s.main == old(s.main) && Demoted(old(s), s, k)
      ensures exists d: nat | d <= |old(s.ghosts)| + 1 :: s.ghosts == (old(s.ghosts) + [k])[d..]
    {
      DemoteMove(s);
      var e := s.entries[k];
      Unlink(k);
      Append(k, e.(value := None, freq := 0, segment := Ghost));
      ghost var full := s;
      TrimGhost();
      DemotedAfterTrim(old(s), full, s, k);
    }

    /**
     Evict one entry, or none when every entry of the small queue has earned its
     place in the main queue. Either the residents or the small queue shrink.
     */
    method Evict() returns (ghost victims: set<Key>, ghost at: nat)
      requires Kept(s, capacity, entryLimit) && Resident(s) > 0
      modifies this`s, this`promotions
      ensures Kept(s, capacity, entryLimit)
      ensures |victims| <= 1 && Contents(s) == old(Contents(s)) - victims
      ensures s.entries.Keys <= old(s.entries).Keys
      ensures Resident(s) == old(Resident(s)) - |victims|
      ensures |victims| == 0 ==> |s.small| < |old(s.small)|
      ensures victims == Victim(old(s), at, capacity)
      ensures OneEvicted(old(s), s, at, capacity) && SmallKept(old(s), s)
    {
      if (s.mainBytes > capacity * 9 / 10 || s.small == []) && s.main != [] {
        victims, at := EvictUnused();
      } else {
        victims, at := EvictFirst();
      }
    }

    method EvictUnused() returns (ghost victims: set<Key>, ghost at: nat)
      requires Kept(s, capacity, entryLimit) && s.main != []
      modifies this`s
      ensures Kept(s, capacity, entryLimit) && MainEvicted(old(s), s, at) && s.entries.Keys <= old(s.entries).Keys && SmallKept(old(s), s)
      ensures victims == {old(s).main[at]} && Contents(s) == old(Contents(s)) - victims
      ensures Resident(s) == old(Resident(s)) - |victims| && |victims| == 1
    {
      at := EvictMain();
      victims := {old(s).main[at]};
      MainKeepsSmall(old(s), s, at);
    }

    method EvictFirst() returns (ghost victims: set<Key>, ghost at: nat)
      requires Kept(s, capacity, entryLimit) && s.small != []
      modifies this`s, this`promotions
      ensures Kept(s, capacity, entryLimit) && SmallEvicted(old(s), s, at) && s.entries.Keys <= old(s.entries).Keys && SmallKept(old(s), s)
      ensures victims == (if at < |old(s).small| then {old(s).small[at]} else {}) && Contents(s) == old(Contents(s)) - victims
      ensures Resident(s) == old(Resident(s)) - |victims|
      ensures |victims| == 0 ==> |s.small| < |old(s.small)|
    {
      at := EvictSmall();
      victims := if at < |old(s).small| then {old(s).small[at]} else {};
      MinusNothing(Contents(s), {});
    }

    /** Promote used entries from the front of the small queue until one can be evicted. */
    method EvictSmall() returns (ghost at: nat)
      requires Kept(s, capacity, entryLimit) && s.small != []
      modifies this`s, this`promotions
      ensures Kept(s, capacity, entryLimit) && SmallEvicted(old(s), s, at) && s.entries.Keys <= old(s.entries).Keys
      ensures Contents(s) == Evicted(old(Contents(s)), old(s).small, at)
    {
      NonePromoted(s);
      at := ScanSmall(s, 0);
    }

    method ScanSmall(ghost s0: State, ghost from: nat) returns (ghost at: nat)
      requires Going(s0, from)
      modifies this`s, this`promotions
      ensures Gone(s0, at)
    {
      at := from;
      var done := false;
      while !done && s.small != []
        invariant if done then Gone(s0, at) else Going(s0, at)
        decreases !done, |s.small|
      {
        done, at := SmallStep(s0, at);
      }
      if !done {
        AllPromoted(s0, s, at);
      }
    }

    /** Nothing has been evicted since `s0`; the first entries of the small queue have moved on. */
    ghost predicate Going(s0: State, at: nat)
      reads this
    {
      Kept(s, capacity, entryLimit) && Promoted(s0, s, at) && Contents(s) == Contents(s0) && s.entries.Keys == s0.entries.Keys
    }

    /** Entry `at` of the small queue has been evicted, or none if there is no such entry. */
    ghost predicate Gone(s0: State, at: nat)
      reads this
    {
      && Kept(s, capacity, entryLimit) && SmallEvicted(s0, s, at)
      && Contents(s) == Evicted(Contents(s0), s0.small, at) && s.entries.Keys <= s0.entries.Keys
    }

    /** Promote the front of the small queue, or evict it and be done. */
    method SmallStep(ghost s0: State, ghost at: nat) returns (done: bool, ghost next: nat)
      requires Going(s0, at) && s.small != []
      modifies this`s, this`promotions
      ensures if done then Gone(s0, next) else Going(s0, next)
      ensures !done ==> |s.small| == |old(s.small)| - 1
    {
      FrontOf(s, Small);
      if s.entries[s.small[0]].freq >= 2 {
        PromoteNext(s0, at);
        done, next := false, at + 1;
      } else {
        DemoteNext(s0, at);
        done, next := true, at;
      }
    }

    method PromoteNext(ghost s0: State, ghost at: nat)
      requires Kept(s, capacity, entryLimit) && Promoted(s0, s, at) && s.small != [] && s.entries[s.small[0]].freq >= 2
      modifies this`s, this`promotions
      ensures Kept(s, capacity, entryLimit) && Promoted(s0, s, at + 1) && |s.small| == |old(s.small)| - 1
      ensures Contents(s) == old(Contents(s)) && s.entries.Keys == old(s.entries).Keys
    {
      OnlyFrontIsFirst(s);
      FrontOf(s, Small);
      Promote(s.small[0]);
      PromotedStep(s0, old(s), s, at);
    }

    method DemoteNext(ghost s0: State, ghost at: nat)
      requires Kept(s, capacity, entryLimit) && Promoted(s0, s, at) && s.small != [] && s.entries[s.small[0]].freq < 2
      modifies this`s
      ensures Kept(s, capacity, entryLimit) && at < |s0.small| && SmallEvicted(s0, s, at)
      ensures Contents(s) == old(Contents(s)) - {s0.small[at]} && s.entries.Keys <= old(s.entries).Keys
    {
      PromotedEnds(s0, s, at);
      Demote(s.small[0]);
      DemotedEnds(s0, old(s), s, at);
    }

    /** Evict until the residents fit together with `extra` bytes in `room` more entries, and no further. */
    method MakeRoom(extra: nat, room: nat) returns (ghost trace: seq<State>)
      requires Limits() && Kept(s, capacity, entryLimit) && extra <= capacity && room <= 1
      modifies this`s, this`promotions
      ensures Kept(s, capacity, entryLimit)
      ensures EvictionRun(trace, extra, room, capacity, entryLimit) && trace[0] == old(s) && trace[|trace| - 1] == s
      ensures Submap(Contents(s), old(Contents(s)))
      ensures s.entries.Keys <= old(s.entries).Keys && SmallKept(old(s), s)
      ensures HasRoom(old(s), extra, room, capacity, entryLimit) ==> s == old(s)
    {
      assert QueueOk(s, Small);
      trace := [s];
      while !HasRoom(s, extra, room, capacity, entryLimit)
        invariant Kept(s, capacity, entryLimit)
        invariant Evictions(trace, extra, room, capacity, entryLimit) && trace[0] == old(s) && trace[|trace| - 1] == s
        invariant Submap(Contents(s), old(Contents(s)))
        invariant s.entries.Keys <= old(s.entries).Keys && SmallKept(old(s), s)
        invariant HasRoom(old(s), extra, room, capacity, entryLimit) ==> s == old(s)
        decreases Resident(s), |s.small|
      {
        SomeResident(s);
        ghost var _, at := Evict();
        OneMoreEviction(trace, s, at, extra, room, capacity, entryLimit);
        trace := trace + [s];
      }
    }

    /** Store a value that fits: replace the old one in place, or make room for a new entry. */
    method Put(key: Key, value: RamEntry) returns (ghost trace: seq<State>)
      requires Valid() && 0 < value.weight <= capacity
      modifies this
      ensures Valid() && history == old(history) + [Op.Put(key, value)]
      ensures Submap(Contents(s), old(Contents(s))[key := value])
      ensures key !in old(Contents(s)) ==> key in Contents(s)
      ensures StoredAfter(old(s), s, key, value, trace, capacity, entryLimit)
      ensures HasPlace(old(s), key, value, capacity, entryLimit) ==> Contents(s) == old(Contents(s))[key := value]
      ensures !IsResident(old(s), key) ==> AtBack(old(s), s, key, value)
    {
      trace := Store(key, value);
      AfterPut(old(s), s, history, entered, key, value);
      entered := if key in old(s).small then entered else entered[key := |history|];
      history := history + [Op.Put(key, value)];
    }

    method Store(key: Key, value: RamEntry) returns (ghost trace: seq<State>)
      requires Limits() && Kept(s, capacity, entryLimit) && ResidentBounds(s, capacity, entryLimit) && 0 < value.weight <= capacity
      modifies this`s, this`promotions, this`ghostHits
      ensures Kept(s, capacity, entryLimit) && ResidentBounds(s, capacity, entryLimit)
      ensures Submap(Contents(s), old(Contents(s))[key := value])
      ensures key !in old(Contents(s)) ==> key in Contents(s)
      ensures StoredAfter(old(s), s, key, value, trace, capacity, entryLimit) && SmallAfter(old(s), s, key)
      ensures HasPlace(old(s), key, value, capacity, entryLimit) ==> Contents(s) == old(Contents(s))[key := value]
      ensures !IsResident(old(s), key) ==> AtBack(old(s), s, key, value)
    {
      if key in s.entries && s.entries[key].segment != Ghost {
        assert EntryOk(s.entries[key]);
        trace := Update(key, value);
      } else {
        trace := Enter(key, value);
      }
    }

    /** Replace the value of a resident entry and evict what no longer fits. */
    method Update(key: Key, value: RamEntry) returns (ghost trace: seq<State>)
      requires Limits() && Kept(s, capacity, entryLimit) && ResidentBounds(s, capacity, entryLimit)
      requires IsResident(s, key) && 0 < value.weight
      modifies this`s, this`promotions
      ensures Kept(s, capacity, entryLimit) && ResidentBounds(s, capacity, entryLimit)
      ensures Submap(Contents(s), old(Contents(s))[key := value])
      ensures StoredAfter(old(s), s, key, value, trace, capacity, entryLimit) && SmallAfter(old(s), s, key)
      ensures HasPlace(old(s), key, value, capacity, entryLimit) ==> Contents(s) == old(Contents(s))[key := value]
    {
      Replace(key, value);
      ghost var replaced := s;
      trace := MakeRoom(0, 0);
      SmallAfterUpdate(old(s), replaced, s, key);
    }

    /** Store a key that is not resident; one that was evicted lately goes to the main queue. */
    method Enter(key: Key, value: RamEntry) returns (ghost trace: seq<State>)
      requires Limits() && Kept(s, capacity, entryLimit) && !IsResident(s, key)
      requires 0 < value.weight <= capacity
      modifies this`s, this`promotions, this`ghostHits
      ensures Kept(s, capacity, entryLimit) && ResidentBounds(s, capacity, entryLimit)
      ensures Submap(Contents(s), old(Contents(s))[key := value]) && key in Contents(s)
      ensures StoredAfter(old(s), s, key, value, trace, capacity, entryLimit) && SmallAfter(old(s), s, key)
      ensures HasPlace(old(s), key, value, capacity, entryLimit) ==> Contents(s) == old(Contents(s))[key := value]
      ensures AtBack(old(s), s, key, value)
    {
      var segment := Forgotten(key);
      ghost var prepared := s;
      trace := Insert(key, value, segment);
      EnterMove(old(s), prepared, trace[|trace| - 1], s, key, value);
    }

    /** Forget the ghost of a key that is to be stored, and choose the queue it goes to. */
    method Forgotten(key: Key) returns (segment: Segment)
      requires Kept(s, capacity, entryLimit) && !IsResident(s, key)
      modifies this`s, this`ghostHits
      ensures Kept(s, capacity, entryLimit) && key !in s.entries && Contents(s) == old(Contents(s))
      ensures s == (if key in old(s).entries then Unlinked(old(s), key) else old(s))
      ensures segment == (if key in old(s).entries then Main else Small)
    {
      segment := Small;
      if key in s.entries {
        segment := Main;
        ghostHits := ghostHits + 1;
        ForgetGhost(key);
      }
    }

    /** A key that is not stored gets an entry at the back of its queue, after making room. */
    method Insert(key: Key, value: RamEntry, segment: Segment) returns (ghost trace: seq<State>)
      requires Limits() && Kept(s, capacity, entryLimit) && key !in s.entries && segment != Ghost && 0 < value.weight <= capacity
      modifies this`s, this`promotions
      ensures Kept(s, capacity, entryLimit) && ResidentBounds(s, capacity, entryLimit)
      ensures Submap(Contents(s), old(Contents(s))[key := value]) && key in Contents(s)
      ensures EvictionRun(trace, value.weight, 1, capacity, entryLimit) && trace[0] == old(s) && SmallKept(old(s), trace[|trace| - 1])
      ensures s == Appended(trace[|trace| - 1], key, Entry(Some(value), value.weight, 0, segment))
      ensures HasRoom(old(s), value.weight, 1, capacity, entryLimit) ==> Contents(s) == old(Contents(s))[key := value]
    {
      trace := MakeRoom(value.weight, 1);
      SubmapPut(Contents(s), old(Contents(s)), key, value);
      Place(key, Entry(Some(value), value.weight, 0, segment));
    }

    /** Append an entry for which there is room. */
    method Place(key: Key, e: Entry)
      requires Kept(s, capacity, entryLimit) && key !in s.entries && EntryOk(e) && e.segment != Ghost
      requires s.smallBytes + s.mainBytes + e.charge <= capacity && |s.small| + |s.main| + 1 <= entryLimit
      modifies this`s
      ensures Kept(s, capacity, entryLimit) && ResidentBounds(s, capacity, entryLimit) && s == Appended(old(s), key, e)
      ensures Contents(s) == old(Contents(s))[key := e.value.value]
    {
      InsertMove(s, key, e, capacity, entryLimit);
      Append(key, e);
    }

    /** Take a ghost that is wanted again out of its queue. */
    method ForgetGhost(key: Key)
      requires Kept(s, capacity, entryLimit) && key in s.entries && s.entries[key].segment == Ghost
      modifies this`s
      ensures Kept(s, capacity, entryLimit) && key !in s.entries && s == Unlinked(old(s), key)
      ensures Contents(s) == old(Contents(s)) && s.small == old(s.small) && s.main == old(s.main)
    {
      UnlinkMove(s, key);
      GhostHasNoValue(s, key);
      Unlink(key);
    }

    /** A new value for a resident entry. */
    method Replace(key: Key, value: RamEntry)
      requires Kept(s, capacity, entryLimit) && key in s.entries && s.entries[key].segment != Ghost && 0 < value.weight
      modifies this`s
      ensures Kept(s, capacity, entryLimit) && s == Changed(old(s), key, Renewed(old(s).entries[key], value))
      ensures Contents(s) == old(Contents(s))[key := value]
      ensures s.small == old(s.small) && s.main == old(s.main) && s.ghosts == old(s.ghosts)
      ensures
        var was := old(s).entries[key];
        s.entries == old(s).entries[key := Entry(Some(value), value.weight, Min(3, was.freq + 1), was.segment)]
    {
      var was := s.entries[key];
      var e := Renewed(was, value);
      RenewMove(s, key, value, capacity, entryLimit);
      s := s.(payloadBytes := s.payloadBytes - Size(Payload, key, was) + Size(Payload, key, e));
      if was.segment == Small {
        s := s.(smallBytes := s.smallBytes - was.charge + value.weight);
      } else {
        s := s.(mainBytes := s.mainBytes - was.charge + value.weight);
      }
      s := s.(entries := s.entries[key := e]);
    }

    /** Forget a key, whether it is resident or a ghost. */
    method Remove(key: Key)
      requires Valid()
      modifies this
      ensures Valid() && history == old(history) + [Op.Delete(key)]
      ensures Contents(s) == old(Contents(s)) - {key} && key !in s.entries
    {
      LatestDelete(history, key);
      if key in s.entries {
        UnlinkMove(s, key);
        UnlinkShrinks(s, key);
        SmallAfterUnlink(s, key);
        Unlink(key);
      } else {
        assert Contents(s) - {key} == Contents(s);
        assert QueueOk(s, Small);
      }
      UsesAfterOther(old(s), s, history, entered, Op.Delete(key));
      history := history + [Op.Delete(key)];
    }
  }

  /**
   The small queue at work over whole runs: an entry that has been asked for or
   stored again at least twice since it was stored survives an eviction from the
   small queue, in the main queue if the scan came to it. What moves on has been
   used twice, and what is evicted has not.
   */
  lemma UsedTwiceStays(s0: State, s: State, at: nat, ops: seq<Op>, entered: map<Key, nat>, k: Key)
    requires Shape(s0) && UsesOk(s0, ops, entered) && k in s0.small
    requires SmallEvicted(s0, s, at) && Contents(s) == Evicted(Contents(s0), s0.small, at)
    ensures k in entered && entered[k] < |ops|
    ensures
      var uses := UsesSince(ops, entered[k], k);
      && (uses >= 2 ==> k in Contents(s) && (k in s.small || k in s.main))
      && (k in s0.small[..at] ==> uses >= 2 && k in s.main && k in s.entries && s.entries[k].segment == Main)
      && (at < |s0.small| && k == s0.small[at] ==> uses < 2 && k !in Contents(s))
  {
    var i :| 0 <= i < |s0.small| && s0.small[i] == k;
    assert UseOk(s0.entries[k], ops, entered, k);
    SmallIsContents(s0, k);
    PlaceAfterScan(s0, s, at, i);
    ScannedByUse(s0, s, at, i);
  }

  lemma SmallIsContents(s: State, k: Key)
    requires Indexed(s) && k in s.small
    ensures NoDup(s.small) && k in s.entries && k in Contents(s)
  {
    assert QueueOk(s, Small) && EntryOk(s.entries[k]);
  }

  lemma ScannedByUse(s0: State, s: State, at: nat, i: nat)
    requires SmallEvicted(s0, s, at) && i < |s0.small| && s0.small[i] in s0.entries
    ensures i < at ==> s0.entries[s0.small[i]].freq >= 2
    ensures i == at ==> s0.entries[s0.small[i]].freq < 2
  {
  }

  /** Where the entry at place `i` of the small queue is after the scan. */
  lemma PlaceAfterScan(s0: State, s: State, at: nat, i: nat)
    requires NoDup(s0.small) && SmallEvicted(s0, s, at) && i < |s0.small|
    ensures s0.small[i] in s0.small[..at] <==> i < at
    ensures i < at ==> s0.small[i] in s.main && s0.small[i] in s.entries && s.entries[s0.small[i]].segment == Main
    ensures i > at ==> s0.small[i] in s.small
    ensures i != at && at < |s0.small| ==> s0.small[i] != s0.small[at]
  {
    if i < at {
      assert s0.small[..at][i] == s0.small[i];
      assert s.main[|s0.main| + i] == s0.small[i];
    }
    if i > at {
      assert s.small[i - at - 1] == s0.small[i];
    }
  }

  lemma AfterPut(s0: State, s: State, ops: seq<Op>, entered: map<Key, nat>, key: Key, value: RamEntry)
    requires Submap(Contents(s0), Latest(ops)) && Submap(Contents(s), Contents(s0)[key := value])
    requires UsesOk(s0, ops, entered) && SmallAfter(s0, s, key)
    ensures Submap(Contents(s), Latest(ops + [Op.Put(key, value)]))
    ensures UsesOk(s, ops + [Op.Put(key, value)], if key in s0.small then entered else entered[key := |ops|])
  {
    SubmapPut(Contents(s0), Latest(ops), key, value);
    LatestPut(ops, key, value);
    UsesAfterPut(s0, s, ops, entered, key, value);
  }

  /** A store over a resident key starts from the new value in place, with one more use. */
  lemma StoredInPlace(s0: State, s: State, key: Key, value: RamEntry, trace: seq<State>, capacity: nat, limit: nat)
    requires Shape(s0) && IsResident(s0, key) && StoredAfter(s0, s, key, value, trace, capacity, limit)
    ensures
      var was, first := s0.entries[key], trace[0];
      && first.entries == s0.entries[key := Entry(Some(value), value.weight, Min(3, was.freq + 1), was.segment)]
      && first.small == s0.small && first.main == s0.main && first.ghosts == s0.ghosts
      && first.smallBytes + first.mainBytes + was.charge == s0.smallBytes + s0.mainBytes + value.weight
  {
  }

  /** A key that was evicted lately is at the back of the main queue, one that was not known at the back of the small queue. */
  predicate AtBack(s0: State, s: State, key: Key, value: RamEntry) {
    && key in s.entries
    && if key in s0.entries
       then s.main != [] && s.main[|s.main| - 1] == key && s.entries[key] == Entry(Some(value), value.weight, 0, Main)
       else s.small != [] && s.small[|s.small| - 1] == key && s.entries[key] == Entry(Some(value), value.weight, 0, Small)
  }

  lemma SmallAfterUpdate(s0: State, replaced: State, s: State, key: Key)
    requires Shape(s0) && key in s0.entries && replaced.small == s0.small && SmallKept(replaced, s)
    requires key in replaced.entries && replaced.entries == s0.entries[key := replaced.entries[key]]
    requires replaced.entries[key].freq == Min(3, s0.entries[key].freq + 1)
    ensures SmallAfter(s0, s, key)
  {
    assert QueueOk(s0, Small);
  }

  lemma EnterMove(s0: State, prepared: State, roomy: State, s: State, key: Key, value: RamEntry)
    requires Shape(s0) && !IsResident(s0, key) && prepared == (if key in s0.entries then Unlinked(s0, key) else s0)
    requires SmallKept(prepared, roomy)
    requires s == Appended(roomy, key, Entry(Some(value), value.weight, 0, if key in s0.entries then Main else Small))
    ensures prepared == Prepared(s0, key, value) && s == Appended(roomy, key, NewEntry(s0, key, value))
    ensures SmallAfter(s0, s, key) && AtBack(s0, s, key, value)
  {
    assert QueueOk(s0, Small);
    assert prepared.small == s0.small && forall k | k in prepared.entries :: prepared.entries[k] == s0.entries[k];
  }

  lemma SmallAfterUnlink(s: State, key: Key)
    requires Shape(s) && key in s.entries
    ensures forall k | k in Unlinked(s, key).small :: k != key && k in s.small && k in s.entries && Unlinked(s, key).entries[k] == s.entries[k]
  {
    assert QueueOk(s, Small);
    UnlinkKeepsQueue(s, key, Small);
    DroppedIs(s.small, key);
  }

  lemma MainKeepsSmall(s0: State, s: State, v: nat)
    requires Shape(s0) && MainEvicted(s0, s, v)
    ensures SmallKept(s0, s)
  {
    assert QueueOk(s0, Small) && QueueOk(s0, Main);
  }

  /** Removing an entry keeps all bounds. */
  lemma UnlinkShrinks(s: State, k: Key)
    requires Shape(s) && k in s.entries
    ensures
      var s' := Unlinked(s, k);
      && s'.smallBytes + s'.mainBytes <= s.smallBytes + s.mainBytes && |s'.small| + |s'.main| <= |s.small| + |s.main|
      && s'.ghostBytes <= s.ghostBytes && s'.ghostMetadata <= s.ghostMetadata && |s'.ghosts| <= |s.ghosts|
  {
    DroppedIs(Queue(s, s.entries[k].segment), k);
  }

  lemma GhostHasNoValue(s: State, k: Key)
    requires Shape(s) && k in s.entries && s.entries[k].segment == Ghost
    ensures Contents(s) - {k} == Contents(s)
    ensures |Dropped(s.ghosts, k)| <= |s.ghosts|
  {
    DroppedIs(s.ghosts, k);
    assert EntryOk(s.entries[k]) && k !in Contents(s);
    MinusAbsent(Contents(s), k);
  }

  lemma MinusAbsent(m: map<Key, RamEntry>, k: Key)
    requires k !in m
    ensures m - {k} == m
  {
  }

  lemma PromoteMove(s: State)
    requires Shape(s) && s.small != []
    ensures
      var k := s.small[0];
      && k in s.entries
      && var e := s.entries[k].(freq := 0, segment := Main);
         var s' := Appended(Unlinked(s, k), k, e);
         && Shape(s') && Contents(s') == Contents(s)
         && s'.small == s.small[1..] && s'.main == s.main + [k] && s'.entries == s.entries[k := e]
         && s'.ghosts == s.ghosts && s'.ghostBytes == s.ghostBytes && s'.ghostMetadata == s.ghostMetadata
  {
    FrontOf(s, Small);
    var k := s.small[0];
    var e := s.entries[k].(freq := 0, segment := Main);
    UnlinkMove(s, k);
    var s1 := Unlinked(s, k);
    AppendMove(s1, k, e);
    PutBack(Contents(s), k);
    BackAgain(s.entries, k, e);
  }

  lemma BackAgain(m: map<Key, Entry>, k: Key, e: Entry)
    ensures (m - {k})[k := e] == m[k := e]
  {
  }

  /** A new value for a resident entry: the counters follow and nothing else changes. */
  lemma RenewMove(s: State, k: Key, value: RamEntry, capacity: nat, limit: nat)
    requires Kept(s, capacity, limit) && IsResident(s, k) && 0 < value.weight
    ensures
      var was, e := s.entries[k], Renewed(s.entries[k], value);
      && s.payloadBytes >= Size(Payload, k, was)
      && (e.segment == Small ==> s.smallBytes >= was.charge) && (e.segment == Main ==> s.mainBytes >= was.charge)
      && var s' := Changed(s, k, e);
         Kept(s', capacity, limit) && Contents(s') == Contents(s)[k := value]
  {
    assert EntryOk(s.entries[k]);
    Enough(s, k);
    var e := Renewed(s.entries[k], value);
    ChangeMove(s, k, e);
    var s' := Changed(s, k, e);
    assert s'.ghosts == s.ghosts && s'.ghostBytes == s.ghostBytes && s'.ghostMetadata == s.ghostMetadata;
  }

  /** A new resident entry for which there is room. */
  lemma InsertMove(s: State, k: Key, e: Entry, capacity: nat, limit: nat)
    requires Kept(s, capacity, limit) && k !in s.entries && EntryOk(e) && e.segment != Ghost
    requires s.smallBytes + s.mainBytes + e.charge <= capacity && |s.small| + |s.main| + 1 <= limit
    ensures
      var s' := Appended(s, k, e);
      Kept(s', capacity, limit) && ResidentBounds(s', capacity, limit) && Contents(s') == Contents(s)[k := e.value.value]
  {
    AppendMove(s, k, e);
  }

  lemma OnlyFrontIsFirst(s: State)
    requires Shape(s) && s.small != []
    ensures forall k | k in s.small[1..] :: k != s.small[0] && k in s.entries
  {
    assert QueueOk(s, Small);
  }

  lemma SubmapPut(a: map<Key, RamEntry>, b: map<Key, RamEntry>, k: Key, v: RamEntry)
    requires Submap(a, b)
    ensures Submap(a[k := v], b[k := v])
  {
  }

  lemma PutBack(m: map<Key, RamEntry>, k: Key)
    requires k in m
    ensures (m - {k})[k := m[k]] == m
  {
  }

  lemma DemoteMove(s: State)
    requires Shape(s) && s.small != []
    ensures
      var k := s.small[0];
      && k in s.entries && k in Contents(s)
      && var e := s.entries[k].(value := None, freq := 0, segment := Ghost);
         var s' := Appended(Unlinked(s, k), k, e);
         && Shape(s') && Contents(s') == Contents(s) - {k}
         && |s'.small| == |s.small| - 1 && s'.main == s.main
  {
    FrontOf(s, Small);
    var k := s.small[0];
    UnlinkMove(s, k);
    AppendMove(Unlinked(s, k), k, s.entries[k].(value := None, freq := 0, segment := Ghost));
  }

  lemma FrontOf(s: State, segment: Segment)
    requires Shape(s) && Queue(s, segment) != []
    ensures Queue(s, segment)[0] in s.entries && s.entries[Queue(s, segment)[0]].segment == segment
    ensures EntryOk(s.entries[Queue(s, segment)[0]])
    ensures segment != Ghost ==> Queue(s, segment)[0] in Contents(s)
  {
  }

  /** Bytes that are charged belong to some resident entry. */
  lemma SomeResident(s: State)
    requires Shape(s)
    ensures Resident(s) == 0 ==> s.smallBytes + s.mainBytes == 0
  {
  }

  lemma LatestPut(ops: seq<Op>, k: Key, v: RamEntry)
    ensures Latest(ops + [Op.Put(k, v)]) == Latest(ops)[k := v]
  {
    assert (ops + [Op.Put(k, v)])[..|ops|] == ops;
  }

  lemma LatestGet(ops: seq<Op>, k: Key)
    ensures Latest(ops + [Op.Get(k)]) == Latest(ops)
  {
    assert (ops + [Op.Get(k)])[..|ops|] == ops;
  }

  lemma LatestDelete(ops: seq<Op>, k: Key)
    ensures Latest(ops + [Op.Delete(k)]) == Latest(ops) - {k}
  {
    assert (ops + [Op.Delete(k)])[..|ops|] == ops;
  }

  /** Counters that are not zero belong to a queue that is not empty. */
  lemma SomeGhost(s: State)
    requires Shape(s)
    ensures s.ghosts == [] ==> s.ghostBytes == 0 && s.ghostMetadata == 0
    ensures s.ghosts != [] ==> s.ghosts[0] in s.entries && s.entries[s.ghosts[0]].segment == Ghost && s.ghosts[0] !in Contents(s)
  {
  }
}
