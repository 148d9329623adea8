/**
 A segment as a table: for every bucket the entries of its chain, in order,
 each with the identity stored beside it. This is the form in which the
 directory's operations are specified and in which it is shown to be a map.
 */
module DirectoryView {
  import opened Common
  import opened DirEntry
  import opened DirectoryRep

  /** The stored hash of a full key; zero when it is unknown. */
  type Identity = nat

  /** An entry without its chain link, and its identity. */
  datatype Slot = Slot(entry: Dir, identity: Identity) {
    function Tag(): nat { entry.Tag() }
  }

  type Bucket = seq<Slot>
  type Table = seq<Bucket>

  function SlotAt(cells: seq<Dir>, ids: seq<Identity>, x: nat): Slot
    requires x < |cells| == |ids|
  {
    Slot(cells[x].SetNext(0), ids[x])
  }

  predicate Inside(chain: seq<nat>, n: nat) {
    forall x | x in chain :: x < n
  }

  function BucketOf(cells: seq<Dir>, ids: seq<Identity>, chain: seq<nat>): (bucket: Bucket)
    requires |cells| == |ids| && Inside(chain, |cells|)
    ensures |bucket| == |chain|
  {
    seq(|chain|, i requires 0 <= i < |chain| => assert chain[i] in chain; SlotAt(cells, ids, chain[i]))
  }

  lemma ChainsInside(cells: seq<Dir>, chains: seq<seq<nat>>, owner: seq<nat>, b: nat)
    requires ChainsOk(cells, chains, owner) && b < |chains|
    ensures Inside(chains[b], |cells|)
  {
    forall x | x in chains[b] ensures x < |cells| { OnChain(cells, chains, owner, b, x); }
  }

  /** Cells that agree up to their links show the same bucket. */
  lemma BucketFrame(cells: seq<Dir>, ids: seq<Identity>, cells': seq<Dir>, ids': seq<Identity>, chain: seq<nat>)
    requires |cells| == |ids| == |cells'| == |ids'| && Inside(chain, |cells|)
    requires forall x | x in chain :: SlotAt(cells', ids', x) == SlotAt(cells, ids, x)
    ensures BucketOf(cells', ids', chain) == BucketOf(cells, ids, chain)
  {
    forall i | 0 <= i < |chain| ensures BucketOf(cells', ids', chain)[i] == BucketOf(cells, ids, chain)[i] {
      assert chain[i] in chain;
    }
  }

  /** The whole segment. */
  function TableOf(cells: seq<Dir>, ids: seq<Identity>, rep: Rep): (t: Table)
    requires |cells| == |ids| && ChainsOk(cells, rep.chains, rep.owner)
    ensures |t| == |rep.chains|
    ensures forall b | 0 <= b < |t| :: Inside(rep.chains[b], |cells|) && t[b] == BucketOf(cells, ids, rep.chains[b])
  {
    assert forall b | 0 <= b < |rep.chains| :: Inside(rep.chains[b], |cells|) by {
      forall b | 0 <= b < |rep.chains| ensures Inside(rep.chains[b], |cells|) {
        ChainsInside(cells, rep.chains, rep.owner, b);
      }
    }
    seq(|rep.chains|, b requires 0 <= b < |rep.chains| => BucketOf(cells, ids, rep.chains[b]))
  }

  /** A bucket whose chain and slots are the same shows the same in both tables. */
  lemma TableFrame(cells: seq<Dir>, ids: seq<Identity>, rep: Rep, cells': seq<Dir>, ids': seq<Identity>, rep': Rep, b: nat)
    requires |cells| == |ids| == |cells'| == |ids'|
    requires ChainsOk(cells, rep.chains, rep.owner) && ChainsOk(cells', rep'.chains, rep'.owner)
    requires b < |rep.chains| && rep'.chains[b] == rep.chains[b]
    requires forall x | x in rep.chains[b] && x < |cells| :: SlotAt(cells', ids', x) == SlotAt(cells, ids, x)
    ensures TableOf(cells', ids', rep')[b] == TableOf(cells, ids, rep)[b]
  {
    ChainsInside(cells, rep.chains, rep.owner, b);
    BucketFrame(cells, ids, cells', ids', rep.chains[b]);
  }

  // ------------------------------------------------------------- lookups

  /** The place of the first entry with this tag, or the length. */
  function Find(bucket: Bucket, tag: nat): (i: nat)
    ensures i <= |bucket|
    ensures i < |bucket| ==> bucket[i].Tag() == tag
    ensures forall k | 0 <= k < i :: bucket[k].Tag() != tag
  {
    if bucket == [] then 0
    else if bucket[0].Tag() == tag then 0
    else 1 + Find(bucket[1..], tag)
  }

  lemma FindUnique(bucket: Bucket, tag: nat, i: nat)
    requires i <= |bucket| && (i < |bucket| ==> bucket[i].Tag() == tag)
    requires forall k | 0 <= k < i :: bucket[k].Tag() != tag
    ensures Find(bucket, tag) == i
  {
  }

  function Lookup(bucket: Bucket, tag: nat): Option<Slot> {
    var i := Find(bucket, tag);
    if i < |bucket| then Some(bucket[i]) else None
  }

  /** Replace the first entry with the tag, or add at the end. */
  function Put(bucket: Bucket, slot: Slot): Bucket {
    var i := Find(bucket, slot.Tag());
    if i < |bucket| then bucket[i := slot] else bucket + [slot]
  }

  function Drop(bucket: Bucket, tag: nat): Bucket {
    var i := Find(bucket, tag);
    if i < |bucket| then Without(bucket, i) else bucket
  }

  /** No tag occurs twice. */
  predicate TagsDistinct(bucket: Bucket) {
    forall i, j | 0 <= i < j < |bucket| :: bucket[i].Tag() != bucket[j].Tag()
  }

  predicate AtMostOnce(bucket: Bucket, tag: nat) {
    forall i, j | 0 <= i < j < |bucket| :: bucket[i].Tag() != tag || bucket[j].Tag() != tag
  }

  /** No tag occurs twice behind the head. */
  predicate TailDistinct(bucket: Bucket) {
    forall i, j | 0 < i < j < |bucket| :: bucket[i].Tag() != bucket[j].Tag()
  }

  /** Storing is a map update, whatever else the bucket holds. */
  lemma PutIsUpdate(bucket: Bucket, slot: Slot, tag: nat)
    ensures Lookup(Put(bucket, slot), tag) == if tag == slot.Tag() then Some(slot) else Lookup(bucket, tag)
    ensures TagsDistinct(bucket) ==> TagsDistinct(Put(bucket, slot))
    ensures TailDistinct(bucket) ==> TailDistinct(Put(bucket, slot))
    ensures AtMostOnce(bucket, tag) ==> AtMostOnce(Put(bucket, slot), tag)
  {
    var i := Find(bucket, slot.Tag());
    var bucket' := Put(bucket, slot);
    if tag == slot.Tag() {
      FindUnique(bucket', tag, i);
    } else {
      var j := Find(bucket, tag);
      assert j < |bucket| ==> bucket'[j] == bucket[j];
      FindUnique(bucket', tag, if j < |bucket| then j else |bucket'|);
    }
  }

  /** Removing is a map removal, if the tag does not occur twice; other tags are unaffected in any case. */
  lemma DropIsRemoval(bucket: Bucket, gone: nat, tag: nat)
    ensures tag != gone ==> Lookup(Drop(bucket, gone), tag) == Lookup(bucket, tag)
    ensures AtMostOnce(bucket, gone) ==> Lookup(Drop(bucket, gone), gone) == None
    ensures AtMostOnce(bucket, tag) ==> AtMostOnce(Drop(bucket, gone), tag)
    ensures TagsDistinct(bucket) ==> TagsDistinct(Drop(bucket, gone))
    ensures TailDistinct(bucket) ==> TailDistinct(Drop(bucket, gone))
  {
    if tag != gone {
      DropKeepsOthers(bucket, gone, tag);
    }
    DropStaysDistinct(bucket, gone);
    if AtMostOnce(bucket, tag) {
      DropStaysOnce(bucket, gone, tag);
    }
    if AtMostOnce(bucket, gone) {
      DropForgets(bucket, gone);
    }
  }

  lemma DropKeepsOthers(bucket: Bucket, gone: nat, tag: nat)
    requires tag != gone
    ensures Lookup(Drop(bucket, gone), tag) == Lookup(bucket, tag)
  {
    var i := Find(bucket, gone);
    if i < |bucket| {
      var bucket', j := Drop(bucket, gone), Find(bucket, tag);
      FindUnique(bucket', tag, if j < i then j else if j < |bucket| then j - 1 else |bucket'|);
    }
  }

  lemma DropStaysDistinct(bucket: Bucket, gone: nat)
    ensures TagsDistinct(bucket) ==> TagsDistinct(Drop(bucket, gone))
    ensures TailDistinct(bucket) ==> TailDistinct(Drop(bucket, gone))
  {
  }

  lemma DropStaysOnce(bucket: Bucket, gone: nat, tag: nat)
    requires AtMostOnce(bucket, tag)
    ensures AtMostOnce(Drop(bucket, gone), tag)
  {
    var i, after := Find(bucket, gone), Drop(bucket, gone);
    forall j, k | 0 <= j < k < |after| ensures after[j].Tag() != tag || after[k].Tag() != tag {
      if i < |bucket| {
        assert after[j] == bucket[if j < i then j else j + 1] && after[k] == bucket[if k < i then k else k + 1];
      }
    }
  }

  lemma DropForgets(bucket: Bucket, gone: nat)
    requires AtMostOnce(bucket, gone)
    ensures Lookup(Drop(bucket, gone), gone) == None
  {
    var i := Find(bucket, gone);
    if i < |bucket| {
      var bucket' := Drop(bucket, gone);
      FindUnique(bucket', gone, |bucket'|);
    }
  }

  /** The entries whose phase bit is not the given one, in order. */
  function KeepPhase(bucket: Bucket, gone: bool): Bucket {
    if bucket == [] then []
    else if bucket[0].entry.Phase() == gone then KeepPhase(bucket[1..], gone)
    else [bucket[0]] + KeepPhase(bucket[1..], gone)
  }

  /** Taking out an entry of the phase does not change what is kept. */
  lemma {:induction false} KeepPhaseWithout(bucket: Bucket, gone: bool, i: nat)
    requires i < |bucket| && bucket[i].entry.Phase() == gone
    ensures KeepPhase(Without(bucket, i), gone) == KeepPhase(bucket, gone)
  {
    if i == 0 {
      assert Without(bucket, i) == bucket[1..];
    } else {
      assert Without(bucket, i)[1..] == Without(bucket[1..], i - 1);
      KeepPhaseWithout(bucket[1..], gone, i - 1);
    }
  }

  lemma {:induction false} KeepPhaseAll(bucket: Bucket, gone: bool)
    requires forall i | 0 <= i < |bucket| :: bucket[i].entry.Phase() != gone
    ensures KeepPhase(bucket, gone) == bucket
  {
    if bucket != [] { KeepPhaseAll(bucket[1..], gone); }
  }

  /** What is kept is exactly what has the other phase. */
  lemma {:induction false} KeepPhaseMembers(bucket: Bucket, gone: bool, slot: Slot)
    ensures slot in KeepPhase(bucket, gone) <==> slot in bucket && slot.entry.Phase() != gone
  {
    if bucket != [] {
      KeepPhaseMembers(bucket[1..], gone, slot);
      assert bucket == [bucket[0]] + bucket[1..];
    }
  }

  /** The place of the first entry of the phase, or the length. */
  function FindPhase(bucket: Bucket, phase: bool): (i: nat)
    ensures i <= |bucket|
    ensures i < |bucket| ==> bucket[i].entry.Phase() == phase
    ensures forall k | 0 <= k < i :: bucket[k].entry.Phase() != phase
  {
    if bucket == [] then 0
    else if bucket[0].entry.Phase() == phase then 0
    else 1 + FindPhase(bucket[1..], phase)
  }

  lemma FindPhaseUnique(bucket: Bucket, phase: bool, i: nat)
    requires i <= |bucket| && (i < |bucket| ==> bucket[i].entry.Phase() == phase)
    requires forall k | 0 <= k < i :: bucket[k].entry.Phase() != phase
    ensures FindPhase(bucket, phase) == i
  {
  }

  /** Drop the tag of the first entry of the phase until there is none. */
  function SweepBucket(bucket: Bucket, phase: bool): (r: Bucket)
    ensures |r| <= |bucket| && forall i | 0 <= i < |r| :: r[i].entry.Phase() != phase
    decreases |bucket|
  {
    var i := FindPhase(bucket, phase);
    if i == |bucket| then bucket else SweepBucket(Drop(bucket, bucket[i].Tag()), phase)
  }

  /** If tags are distinct, exactly the entries of the phase go. */
  lemma {:induction false} SweepKeeps(bucket: Bucket, phase: bool)
    requires TagsDistinct(bucket)
    ensures SweepBucket(bucket, phase) == KeepPhase(bucket, phase)
    decreases |bucket|
  {
    var i := FindPhase(bucket, phase);
    if i == |bucket| {
      KeepPhaseAll(bucket, phase);
    } else {
      var tag := bucket[i].Tag();
      FindUnique(bucket, tag, i);
      KeepPhaseWithout(bucket, phase, i);
      DropStaysDistinct(bucket, tag);
      SweepKeeps(Drop(bucket, tag), phase);
    }
  }

  /** Under a tag that is not there twice, the entry goes exactly if it has the phase. */
  lemma {:induction false} SweepIsRemoval(bucket: Bucket, phase: bool, tag: nat)
    requires AtMostOnce(bucket, tag)
    ensures AtMostOnce(SweepBucket(bucket, phase), tag)
    ensures
      var was := Lookup(bucket, tag);
      Lookup(SweepBucket(bucket, phase), tag) == if was.Some? && was.value.entry.Phase() == phase then None else was
    decreases |bucket|
  {
    var i := FindPhase(bucket, phase);
    if i < |bucket| {
      var gone := bucket[i].Tag();
      if gone == tag { FindUnique(bucket, tag, i); }
      DropIsRemoval(bucket, gone, tag);
      SweepIsRemoval(Drop(bucket, gone), phase, tag);
    }
  }

  lemma {:induction false} SweepTailDistinct(bucket: Bucket, phase: bool)
    requires TailDistinct(bucket)
    ensures TailDistinct(SweepBucket(bucket, phase))
    decreases |bucket|
  {
    var i := FindPhase(bucket, phase);
    if i < |bucket| {
      DropStaysDistinct(bucket, bucket[i].Tag());
      SweepTailDistinct(Drop(bucket, bucket[i].Tag()), phase);
    }
  }

  // -------------------------------------------------- histories of a table

  /**
   What the directory's methods do to the table. A store may have purged other
   buckets first; a removal may have put a back link over the first entry of
   bucket 0.
   */
  datatype TableOp =
    | Store(b: nat, slot: Slot, purged: set<nat>)
    | Remove(b: nat, tag: nat)
    | Sweep(phase: bool)
    | Clobber(word: Word)

  predicate OpFits(op: TableOp, n: nat) {
    match op
    case Store(b, _, purged) => b < n && b !in purged
    case Remove(b, _) => b < n
    case Sweep(_) => true
    case Clobber(_) => 0 < n
  }

  function Purge(t: Table, purged: set<nat>): (r: Table)
    ensures |r| == |t|
    ensures forall c | 0 <= c < |t| :: r[c] == if c in purged then [] else t[c]
  {
    seq(|t|, c requires 0 <= c < |t| => if c in purged then [] else t[c])
  }

  function WithBackLink(bucket: Bucket, word: Word): Bucket {
    if bucket == [] then [] else bucket[0 := bucket[0].(entry := bucket[0].entry.SetPrev(word))]
  }

  function ApplyOp(t: Table, op: TableOp): (r: Table)
    requires OpFits(op, |t|)
    ensures |r| == |t|
  {
    match op
    case Store(b, slot, purged) => Purge(t, purged)[b := Put(t[b], slot)]
    case Remove(b, tag) => t[b := Drop(t[b], tag)]
    case Sweep(phase) => seq(|t|, c requires 0 <= c < |t| => SweepBucket(t[c], phase))
    case Clobber(word) => t[0 := WithBackLink(t[0], word)]
  }

  predicate AllFit(ops: seq<TableOp>, n: nat) {
    forall op | op in ops :: OpFits(op, n)
  }

  function ApplySeq(t: Table, ops: seq<TableOp>): (r: Table)
    requires AllFit(ops, |t|)
    ensures |r| == |t|
  {
    if ops == [] then t
    else
      assert ops[|ops| - 1] in ops;
      ApplyOp(ApplySeq(t, ops[..|ops| - 1]), ops[|ops| - 1])
  }

  /** A new directory, after the operations. */
  function ApplyAll(n: nat, ops: seq<TableOp>): (t: Table)
    requires AllFit(ops, n)
    ensures |t| == n
  {
    ApplySeq(seq(n, _ => []), ops)
  }

  lemma {:induction false} ApplySeqJoins(t: Table, a: seq<TableOp>, b: seq<TableOp>)
    requires AllFit(a, |t|) && AllFit(b, |t|)
    ensures AllFit(a + b, |t|) && ApplySeq(t, a + b) == ApplySeq(ApplySeq(t, a), b)
    decreases |b|
  {
    if b == [] {
      assert a + b == a;
    } else {
      assert (a + b)[..|a + b| - 1] == a + b[..|b| - 1];
      assert b[|b| - 1] in b;
      ApplySeqJoins(t, a, b[..|b| - 1]);
    }
  }

  lemma ApplyOne(t: Table, op: TableOp)
    requires OpFits(op, |t|)
    ensures ApplySeq(t, [op]) == ApplyOp(t, op)
  {
    assert [op][..0] == [];
  }

  lemma ApplyTwo(t: Table, op1: TableOp, op2: TableOp)
    requires OpFits(op1, |t|) && OpFits(op2, |t|)
    ensures ApplySeq(t, [op1, op2]) == ApplyOp(ApplyOp(t, op1), op2)
  {
    ApplyOne(t, op1);
    assert [op1, op2][..1] == [op1];
  }

  /** The entry that was stored last for a bucket and tag and has survived. */
  function Survivor(ops: seq<TableOp>, b: nat, tag: nat): Option<Slot> {
    if ops == [] then None
    else
      var before := Survivor(ops[..|ops| - 1], b, tag);
      match ops[|ops| - 1]
      case Store(c, slot, purged) =>
        if c == b && slot.Tag() == tag then Some(slot) else if b in purged then None else before
      case Remove(c, gone) => if c == b && gone == tag then None else before
      case Sweep(phase) => if before.Some? && before.value.entry.Phase() == phase then None else before
      case Clobber(_) => before
  }

  /**
   The tags of bucket 0 that back links have put in disorder: the tag that the
   head had and the one that the link spells. A store or a removal under a tag
   puts it in order again unless it is there twice, and a purge of the bucket all
   of them. Links that change nothing do no harm.
   */
  ghost function Astray(n: nat, ops: seq<TableOp>): set<nat>
    requires AllFit(ops, n) && 0 < n
  {
    if ops == [] then {}
    else
      assert ops[|ops| - 1] in ops;
      AstrayAfter(ApplyAll(n, ops[..|ops| - 1])[0], Astray(n, ops[..|ops| - 1]), ops[|ops| - 1])
  }

  ghost function AstrayAfter(bucket: Bucket, before: set<nat>, op: TableOp): set<nat> {
    match op
    case Store(b, slot, purged) =>
      if 0 in purged then {} else if b == 0 && AtMostOnce(bucket, slot.Tag()) then before - {slot.Tag()} else before
    case Remove(b, tag) => if b == 0 && AtMostOnce(bucket, tag) then before - {tag} else before
    case Sweep(_) => before
    case Clobber(word) => before + Reach(bucket, word)
  }

  /** The tags under which a back link changes what is found. */
  function Reach(bucket: Bucket, word: Word): set<nat> {
    if bucket == [] || bucket[0].entry.link == word then {} else {bucket[0].Tag(), word % 0x1000}
  }

  /** Under any other tag a back link changes nothing. */
  lemma ClobberReach(bucket: Bucket, word: Word, tag: nat)
    ensures tag !in Reach(bucket, word) ==> Lookup(WithBackLink(bucket, word), tag) == Lookup(bucket, tag)
    ensures tag !in Reach(bucket, word) && AtMostOnce(bucket, tag) ==> AtMostOnce(WithBackLink(bucket, word), tag)
  {
    if tag !in Reach(bucket, word) && bucket != [] {
      if bucket[0].entry.link == word {
        ClobberChanges(bucket, word);
      } else {
        var after := WithBackLink(bucket, word);
        assert after[0].Tag() == word % 0x1000 && forall i | 0 < i < |bucket| :: after[i] == bucket[i];
        FindUnique(after, tag, Find(bucket, tag));
      }
    }
  }

  /**
   Over any history, the table answers every lookup with the last surviving
   store: in every bucket but the first always, and in the first under every tag
   that no back link has put in disorder.
   */
  lemma {:induction false} TableIsMap(n: nat, ops: seq<TableOp>, b: nat, tag: nat)
    requires AllFit(ops, n) && b < n && (b > 0 || tag !in Astray(n, ops))
    ensures AtMostOnce(ApplyAll(n, ops)[b], tag)
    ensures Lookup(ApplyAll(n, ops)[b], tag) == Survivor(ops, b, tag)
  {
    if ops != [] {
      var init, last := ops[..|ops| - 1], ops[|ops| - 1];
      assert last in ops;
      var t := ApplyAll(n, init);
      if b > 0 || tag !in Astray(n, init) {
        TableIsMap(n, init, b, tag);
      }
      match last
      case Store(c, slot, purged) => if c == b { PutIsUpdate(t[b], slot, tag); }
      case Remove(c, gone) => if c == b { DropIsRemoval(t[b], gone, tag); }
      case Sweep(phase) => if AtMostOnce(t[b], tag) { SweepIsRemoval(t[b], phase, tag); }
      case Clobber(word) => if b == 0 { ClobberReach(t[0], word, tag); }
    }
  }

  /** No tag is twice in a bucket but the first, nor in the first if none is in disorder. */
  lemma TableDistinct(n: nat, ops: seq<TableOp>, b: nat)
    requires AllFit(ops, n) && b < n && (b > 0 || Astray(n, ops) == {})
    ensures TagsDistinct(ApplyAll(n, ops)[b])
  {
    var bucket := ApplyAll(n, ops)[b];
    forall i, j | 0 <= i < j < |bucket| ensures bucket[i].Tag() != bucket[j].Tag() {
      TableIsMap(n, ops, b, bucket[i].Tag());
    }
  }

  /** One more operation in a history. */
  lemma OneRecorded(n: nat, h: seq<TableOp>, op: TableOp)
    requires 0 < n && AllFit(h, n) && OpFits(op, n)
    ensures
      var t, all := ApplyAll(n, h), h + [op];
      && AllFit(all, n) && ApplyAll(n, all) == ApplyOp(t, op) && Astray(n, all) == AstrayAfter(t[0], Astray(n, h), op)
      && all[..|all| - 1] == h && all[|all| - 1] == op
  {
    var all := h + [op];
    assert all[..|h|] == h;
  }

  /** An operation other than a back link puts nothing in disorder. */
  lemma AfterShrinks(bucket: Bucket, before: set<nat>, op: TableOp)
    requires !op.Clobber?
    ensures AstrayAfter(bucket, before, op) <= before
  {
  }

  /**
   The condition is exact: with nothing in disorder, a back link leaves every
   lookup of bucket 0 with its survivor if and only if it changes nothing.
   */
  lemma ClobberMisleadsExactly(n: nat, ops: seq<TableOp>, word: Word)
    requires AllFit(ops, n) && 0 < n && Astray(n, ops) == {}
    ensures AllFit(ops + [Clobber(word)], n)
    ensures
      var after := ops + [Clobber(word)];
      (forall tag: nat :: Lookup(ApplyAll(n, after)[0], tag) == Survivor(after, 0, tag)) <==> Reach(ApplyAll(n, ops)[0], word) == {}
  {
    var after := ops + [Clobber(word)];
    var bucket := ApplyAll(n, ops)[0];
    assert after[..|after| - 1] == ops;
    if Reach(bucket, word) == {} {
      forall tag: nat ensures Lookup(ApplyAll(n, after)[0], tag) == Survivor(after, 0, tag) {
        TableIsMap(n, after, 0, tag);
      }
    } else {
      var tag := bucket[0].Tag();
      TableDistinct(n, ops, 0);
      TableIsMap(n, ops, 0, tag);
      ClobberHides(bucket, word);
      assert Lookup(ApplyAll(n, after)[0], tag) != Survivor(after, 0, tag);
    }
  }

  /** A changed head is not found again under its own tag. */
  lemma ClobberHides(bucket: Bucket, word: Word)
    requires TagsDistinct(bucket) && bucket != [] && bucket[0].entry.link != word
    ensures Lookup(WithBackLink(bucket, word), bucket[0].Tag()) != Lookup(bucket, bucket[0].Tag()) == Some(bucket[0])
  {
    var tag := bucket[0].Tag();
    var after := WithBackLink(bucket, word);
    FindUnique(bucket, tag, 0);
    FindUnique(after, tag, if after[0].Tag() == tag then 0 else |after|);
  }

  /** In every history tags are distinct behind the heads. */
  lemma {:induction false} TableTailDistinct(n: nat, ops: seq<TableOp>, b: nat)
    requires AllFit(ops, n) && b < n
    ensures TailDistinct(ApplyAll(n, ops)[b])
  {
    if ops != [] {
      var init, last := ops[..|ops| - 1], ops[|ops| - 1];
      assert last in ops;
      TableTailDistinct(n, init, b);
      var t := ApplyAll(n, init);
      match last
      case Store(c, slot, purged) => PutIsUpdate(t[c], slot, 0);
      case Remove(c, gone) => DropIsRemoval(t[c], gone, 0);
      case Sweep(phase) => SweepTailDistinct(t[b], phase);
      case Clobber(word) => ClobberChanges(t[0], word);
    }
  }

  /** A back link changes a bucket exactly if it is not already what the head holds. */
  lemma ClobberChanges(bucket: Bucket, word: Word)
    ensures WithBackLink(bucket, word) == bucket <==> bucket == [] || bucket[0].entry.link == word
    ensures TailDistinct(bucket) ==> TailDistinct(WithBackLink(bucket, word))
  {
    if bucket != [] && bucket[0].entry.link != word {
      assert WithBackLink(bucket, word)[0] != bucket[0];
    }
  }

  // ----------------------------------------------------------- pigeonhole

  /** A sequence without its only occurrence of `y`. */
  ghost function DropOne(s: seq<nat>, y: nat): (t: seq<nat>)
    requires NoDup(s) && y in s
    ensures NoDup(t) && |t| == |s| - 1
    ensures forall z :: z in t <==> z in s && z != y
  {
    var i :| 0 <= i < |s| && s[i] == y;
    var t := Without(s, i);
    assert forall z | z in t :: z in s && z != y;
    assert forall z | z in s && z != y :: z in t by {
      forall z | z in s && z != y ensures z in t { StillIn(s, i, z); }
    }
    t
  }

  /** Distinct numbers below `n` are at most `n`. */
  lemma {:induction false} NoDupBound(s: seq<nat>, n: nat)
    requires NoDup(s) && Inside(s, n)
    ensures |s| <= n
    decreases n
  {
    if s != [] {
      assert s[0] in s;
      if n - 1 in s {
        NoDupBound(DropOne(s, n - 1), n - 1);
      } else {
        NoDupBound(s, n - 1);
      }
    }
  }

  function Tags(bucket: Bucket): (tags: seq<nat>)
    ensures |tags| == |bucket| && Inside(tags, 0x1000)
    ensures forall i | 0 <= i < |tags| :: tags[i] == bucket[i].Tag()
  {
    seq(|bucket|, i requires 0 <= i < |bucket| => bucket[i].Tag())
  }

  /** A bucket that lacks a tag has room for it among the 4096 tags. */
  lemma TagsBound(bucket: Bucket, tag: nat)
    requires TagsDistinct(bucket) && tag < 0x1000 && Lookup(bucket, tag) == None
    ensures |bucket| <= 4095
  {
    var tags := Tags(bucket) + [tag];
    assert Inside(tags, 0x1000);
    NoDupBound(tags, 0x1000);
  }

  lemma TailBound(bucket: Bucket, tag: nat)
    requires TailDistinct(bucket) && tag < 0x1000 && Lookup(bucket, tag) == None
    ensures |bucket| <= 4096
  {
    if bucket != [] {
      var tail := bucket[1..];
      forall i, j | 0 <= i < j < |tail| ensures tail[i].Tag() != tail[j].Tag() {
        assert tail[i] == bucket[i + 1] && tail[j] == bucket[j + 1];
      }
      FindUnique(tail, tag, |tail|);
      TagsBound(tail, tag);
    }
  }

  ghost function DropThree(s: seq<nat>, y: nat): (t: seq<nat>)
    requires NoDup(s) && y in s && y + 1 in s && y + 2 in s
    ensures NoDup(t) && |t| == |s| - 3
    ensures forall z :: z in t <==> z in s && !(y <= z <= y + 2)
  {
    DropOne(DropOne(DropOne(s, y), y + 1), y + 2)
  }

  /** Fewer than `3 * n` distinct cells that are no heads leave one out. */
  lemma {:induction false} SomeCellLeft(s: seq<nat>, n: nat) returns (x: nat)
    requires NoDup(s) && |s| < 3 * n
    ensures x < 4 * n && x % 4 != 0 && x !in s
  {
    if 4 * n - 1 !in s {
      x := 4 * n - 1;
    } else if 4 * n - 2 !in s {
      x := 4 * n - 2;
    } else if 4 * n - 3 !in s {
      x := 4 * n - 3;
    } else {
      x := SomeCellLeft(DropThree(s, 4 * n - 3), n - 1);
    }
  }
}
