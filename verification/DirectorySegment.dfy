/**
 One segment of the directory, updated in place: the chain walks and the free
 list of the hash index. Every method is specified by what it does to the table
 that the segment shows.
 */
module DirectorySegment {
  import opened Common
  import opened DirEntry
  import opened DirectoryRep
  import opened DirectoryView
  import opened DirectoryMoves

  /** The first pass of `linkEmptyDirs`. */
  method LinkForwards(cells: array<Dir>, n: nat)
    requires cells.Length == 4 * n <= 0x1_0000 && forall x | 0 <= x < 4 * n :: cells[x] == EMPTY
    modifies cells
    ensures forall x | 0 <= x < 4 * n :: cells[x] == EMPTY.(next := NewNext(x, n))
  {
    for b := 0 to n
      invariant forall x | 0 <= x < 4 * n :: cells[x] == EMPTY.(next := if x < 4 * b then NewNext(x, n) else 0)
    {
      var offset := b * 4;
      cells[offset + 1] := cells[offset + 1].SetNext(offset + 2);
      cells[offset + 2] := cells[offset + 2].SetNext(offset + 3);
      if b != n - 1 {
        cells[offset + 3] := cells[offset + 3].SetNext(offset + 5);
      }
    }
  }

  /** The second pass of `linkEmptyDirs`. */
  method LinkBackwards(cells: array<Dir>, n: nat)
    requires cells.Length == 4 * n <= 0x1_0000
    requires forall x | 0 <= x < 4 * n :: cells[x] == EMPTY.(next := NewNext(x, n))
    modifies cells
    ensures forall x | 0 <= x < 4 * n :: cells[x] == EMPTY.(next := NewNext(x, n), link := NewPrev(x))
  {
    for b := 0 to n
      invariant forall x | 0 <= x < 4 * n :: cells[x] == EMPTY.(next := NewNext(x, n), link := if x < 4 * b then NewPrev(x) else 0)
    {
      var offset := b * 4;
      cells[offset + 3] := cells[offset + 3].SetPrev(offset + 2);
      cells[offset + 2] := cells[offset + 2].SetPrev(offset + 1);
      if b != 0 {
        cells[offset + 1] := cells[offset + 1].SetPrev(offset - 1);
      }
    }
  }

  class Segment {
    const cells: array<Dir>
    const identities: array<Identity>
    var freeStart: Word
    ghost var rep: Rep

    /** A segment of `n` empty buckets, linked forwards and then backwards. */
    constructor (n: nat)
      requires 0 < n <= MAX_BUCKETS
      ensures Valid() && Buckets() == n
      ensures View() == seq(n, _ => [])
      ensures fresh(cells) && fresh(identities)
    {
      cells := new Dir[4 * n](_ => EMPTY);
      identities := new Identity[4 * n](_ => 0);
      freeStart := 1;
      rep := NewRep(n);
      new;
      LinkForwards(cells, n);
      LinkBackwards(cells, n);
      NewSegment(cells[..], n);
      assert View() == seq(n, _ => []);
    }

    ghost function Now(): State
      reads this, cells, identities
    {
      State(cells[..], identities[..], rep)
    }

    /** The chains are in order; the free list may not be. */
    ghost predicate ChainsValid()
      reads this, cells, identities
    {
      Ok(Now())
    }

    /** Everything is in order, except that cell `x` may be on no list. */
    ghost predicate ValidExcept(x: nat)
      reads this, cells, identities
    {
      && ChainsValid()
      && FreeLinked(cells[..], rep.free) && FreeCovers(cells[..], rep.free, x)
      && freeStart == First(rep.free)
    }

    ghost predicate Valid()
      reads this, cells, identities
    {
      ValidExcept(0)
    }

    ghost function View(): DirectoryView.Table
      requires ChainsValid()
      reads this, cells, identities
    {
      DirectoryMoves.Table(Now())
    }

    ghost function Buckets(): nat
      reads this
    {
      |rep.chains|
    }

    /**
     Walk the chain of bucket `b`. A miss reports cell 0 behind a chain that is
     not empty and the head of one that is.
     */
    method Probe(tag: nat, b: nat) returns (hit: bool, x: nat, prev: nat)
      requires ChainsValid() && b < Buckets()
      ensures
        var chain, i := rep.chains[b], Find(View()[b], tag);
        && hit == (i < |chain|)
        && (hit ==> x == chain[i] && prev == Before(chain, i))
        && (!hit ==> x == if chain == [] then 4 * b else 0)
    {
      ghost var chain := rep.chains[b];
      ghost var i: nat := 0;
      var index, counter := b * 4, 0;
      prev := 0;
      assert ChainOk(cells[..], rep.owner, b, chain);
      assert chain != [] ==> LinkOk(cells[..], rep.owner, b, chain, 0);
      assert |chain| <= cells.Length by {
        ChainsInside(cells[..], rep.chains, rep.owner, b);
        NoDupBound(chain, cells.Length);
      }
      while index != 0 || counter == 0
        invariant counter == i <= |chain|
        invariant index == if chain == [] then 4 * b else if i < |chain| then chain[i] else 0
        invariant 0 < i < |chain| ==> chain[i] != 0
        invariant prev == if i == 0 then 0 else chain[i - 1]
        invariant forall k | 0 <= k < i :: View()[b][k].Tag() != tag
        decreases |chain| - i, counter == 0
      {
        counter := counter + 1;
        if chain != [] { assert LinkOk(cells[..], rep.owner, b, chain, i) by { NonZeroLinks(cells[..], rep, b, i); } }
        // A guard against cyclic chains, which these never are.
        if counter > cells.Length || index >= cells.Length { assert false; }
        if !cells[index].Used() {
          FindUnique(View()[b], tag, 0);
          return false, index, prev;
        }
        assert View()[b][i] == SlotAt(cells[..], identities[..], index);
        if cells[index].Tag() == tag {
          FindUnique(View()[b], tag, i);
          return true, index, prev;
        }
        prev := index;
        index := cells[index].next;
        i := i + 1;
        if i < |chain| { NonZeroLinks(cells[..], rep, b, i); }
      }
      FindUnique(View()[b], tag, |chain|);
      return false, index, prev;
    }

    /** Take a cell out of the free list. */
    method FreeChainDelete(x: nat, ghost i: nat)
      requires Valid() && i < |rep.free| && rep.free[i] == x
      modifies this, cells
      ensures ValidExcept(x) && rep == old(rep).(free := Without(old(rep.free), i))
      ensures View() == old(View())
      ensures 0 < x < cells.Length && x % 4 != 0 && !cells[x].Used() && x !in rep.free
      ensures forall y | 0 <= y < cells.Length :: cells[y].Used() == old(cells[y].Used())
    {
      ghost var before := Now();
      ghost var free := rep.free;
      assert FreeLinkOk(cells[..], free, i);
      if i > 0 { assert FreeLinkOk(cells[..], free, i - 1); }
      if i + 1 < |free| { assert FreeLinkOk(cells[..], free, i + 1); }
      UnlinkFree(cells[..], free, i);
      var prev, next := cells[x].link, cells[x].next;
      if prev == 0 {
        freeStart := next;
      } else {
        cells[prev] := cells[prev].SetNext(next);
      }
      if next != 0 {
        cells[next] := cells[next].SetPrev(prev);
      }
      rep := rep.(free := Without(free, i));
      assert cells[..] == Unlinked(before.cells, free, i);
      FreeMove(before, cells[..], rep.free);
    }

    /** Put a cleared cell on the free list, in front. */
    method FreeChainSet(x: Word)
      requires ValidExcept(x) && 0 < x < cells.Length && x % 4 != 0 && cells[x] == EMPTY && x !in rep.free
      modifies this, cells
      ensures Valid() && rep == old(rep).(free := [x] + old(rep.free))
      ensures View() == if old(rep.free) == [] then old(View())[0 := WithBackLink(old(View())[0], x)] else old(View())
    {
      ghost var before := Now();
      PushMove(before, x);
      var index := freeStart;
      cells[index] := cells[index].SetPrev(x);
      cells[x] := cells[x].SetNext(index);
      freeStart := x;
      rep := rep.(free := [x] + rep.free);
      assert cells[..] == Pushed(before.cells, First(before.rep.free), x);
    }

    /**
     Delete the first entry with the tag. The cell that becomes free is the
     entry's own, or the second one of the chain when the head is deleted.
     */
    method DirDelete(tag: nat, b: nat) returns (found: bool)
      requires Valid() && b < Buckets()
      modifies this, cells, identities
      ensures Valid() && Buckets() == old(Buckets())
      ensures found == (Find(old(View())[b], tag) < |old(View())[b]|)
      ensures View() == Deleted(old(Now()), b, tag)
      ensures !found ==> rep == old(rep)
      ensures found ==> rep.free == (if |old(View())[b]| == 1 then [] else [ReleasedBy(old(Now()), tag, b)]) + old(rep.free)
      ensures forall c | 0 <= c < Buckets() && c != b :: rep.chains[c] == old(rep.chains)[c]
    {
      var hit, x, prev := Probe(tag, b);
      if !hit { return false; }
      found := true;
      ghost var i := Find(View()[b], tag);
      if x == b * 4 {
        HeadIsFirst(Now(), b, i);
        if cells[x].next != 0 {
          DeleteHead(b);
        } else {
          ClearHead(b);
        }
      } else {
        NotHeadIsLater(Now(), b, i);
        DeleteTail(b, x, prev, i);
      }
    }

    method DeleteTail(b: nat, x: nat, prev: nat, ghost i: nat)
      requires Valid() && b < Buckets() && 0 < i < |rep.chains[b]|
      requires x == rep.chains[b][i] && prev == rep.chains[b][i - 1]
      modifies this, cells, identities
      ensures Valid() && Buckets() == old(Buckets())
      ensures 0 < x < 0x1_0000 && rep.free == [x] + old(rep.free)
      ensures forall c | 0 <= c < Buckets() && c != b :: rep.chains[c] == old(rep.chains)[c]
      ensures
        var t := old(View())[b := Without(old(View())[b], i)];
        View() == if old(rep.free) == [] then t[0 := WithBackLink(t[0], x)] else t
    {
      ghost var before := Now();
      CutMove(before, b, i);
      CutKeepsFree(before, b, i);
      identities[x] := 0;
      cells[prev] := cells[prev].SetNext(cells[x].next);
      cells[x] := EMPTY;
      rep := rep.(chains := rep.chains[b := Without(rep.chains[b], i)]);
      assert Now() == Cut(before, b, i);
      FreeChainSet(x);
    }

    method DeleteHead(b: nat)
      requires Valid() && b < Buckets() && 1 < |rep.chains[b]|
      modifies this, cells, identities
      ensures Valid() && Buckets() == old(Buckets())
      ensures
        var x, t := old(rep.chains)[b][1], old(View())[b := Without(old(View())[b], 0)];
        && 0 < x < 0x1_0000 && rep.free == [x] + old(rep.free)
        && View() == if old(rep.free) == [] then t[0 := WithBackLink(t[0], x)] else t
      ensures forall c | 0 <= c < Buckets() && c != b :: rep.chains[c] == old(rep.chains)[c]
    {
      ghost var before := Now();
      BeheadMove(before, b);
      BeheadKeepsFree(before, b);
      var h := b * 4;
      var next := cells[h].next;
      cells[h] := cells[next];
      identities[h] := identities[next];
      identities[next] := 0;
      cells[next] := EMPTY;
      rep := rep.(chains := rep.chains[b := Without(rep.chains[b], 1)]);
      assert Now() == Beheaded(before, b);
      FreeChainSet(next);
    }

    method ClearHead(b: nat)
      requires Valid() && b < Buckets() && |rep.chains[b]| == 1
      modifies this, cells, identities
      ensures Valid() && Buckets() == old(Buckets())
      ensures rep.free == old(rep.free) && View() == old(View())[b := []]
      ensures forall c | 0 <= c < Buckets() && c != b :: rep.chains[c] == old(rep.chains)[c]
    {
      ghost var before := Now();
      HeadIsFirst(before, b, 0);
      identities[b * 4] := 0;
      cells[b * 4] := EMPTY;
      assert before.rep.chains[b] == [b * 4];
      ClearMove(before, cells[..], identities[..], b);
      HeadKeepsFree(before.cells, rep.free, 0, b * 4, EMPTY);
      assert cells[..] == before.cells[b * 4 := EMPTY];
      rep := rep.(chains := rep.chains[b := []]);
    }

    /** Put one more cell at the end of the free list under construction. */
    method LinkFree(x: Word, prev: Word, ghost was: seq<Dir>, ghost free: seq<nat>)
      requires 0 < x < cells.Length && x % 4 != 0 && !cells[x].Used()
      requires Rebuilding(was, cells[..], free, x) && prev == Last(free) && freeStart == First(free)
      modifies this`freeStart, cells
      ensures Rebuilding(was, cells[..], free + [x], x + 1) && freeStart == First(free + [x])
    {
      RebuildStep(was, cells[..], free, x);
      assert free != [] ==> FreeLinkOk(cells[..], free, 0);
      ghost var before := cells[..];
      if freeStart == 0 { freeStart := x; }
      cells[x] := EMPTY.SetPrev(prev);
      if prev != 0 {
        cells[prev] := cells[prev].SetNext(x);
      }
      assert cells[..] == Relinked(before, free, x);
    }

    /** Link all unused cells that are no heads, in increasing order. */
    method FreeChainRebuild() returns (count: nat)
      requires ChainsValid()
      modifies this, cells
      ensures Valid() && rep == old(rep).(free := rep.free) && count == |rep.free|
      ensures View() == old(View())
      ensures forall y | 0 <= y < cells.Length :: cells[y].Used() == old(cells[y].Used())
    {
      ghost var before := Now();
      ghost var free: seq<nat> := [];
      var prev: Word := 0;
      freeStart := 0;
      count := 0;
      var n := cells.Length / 4;
      for b := 0 to n
        invariant rep == before.rep && Rebuilding(before.cells, cells[..], free, 4 * b)
        invariant prev == Last(free) && freeStart == First(free) && count == |free|
      {
        for j := 1 to 4
          invariant rep == before.rep && Rebuilding(before.cells, cells[..], free, 4 * b + j)
          invariant prev == Last(free) && freeStart == First(free) && count == |free|
        {
          var x := 4 * b + j;
          if !cells[x].Used() {
            LinkFree(x, prev, before.cells, free);
            prev := x;
            free := free + [x];
            count := count + 1;
          }
        }
      }
      assert 4 * n == cells.Length;
      FreeMove(before, cells[..], free);
      rep := rep.(free := free);
    }

    /** Clear every cell of a bucket's chain. */
    method PurgeBucket(b: nat) returns (count: nat)
      requires ChainsValid() && b < Buckets()
      modifies this, cells
      ensures ChainsValid() && rep == old(rep).(chains := old(rep.chains)[b := []])
      ensures View() == old(View())[b := []]
    {
      ghost var before := Now();
      PathLinks(before, b);
      count := ClearPath(b);
      assert forall y | 0 <= y < cells.Length :: cells[..][y] == if y in Path(before, b) then EMPTY else before.cells[y];
      ClearMove(before, cells[..], identities[..], b);
      rep := rep.(chains := rep.chains[b := []]);
    }

    /** Follow the links from the head of a bucket and clear every cell on the way. */
    method ClearPath(b: nat) returns (count: nat)
      requires ChainsValid() && b < Buckets()
      modifies cells
      ensures
        var path := Path(old(Now()), b);
        forall y | 0 <= y < cells.Length :: cells[y] == if y in path then EMPTY else old(cells[y])
    {
      ghost var before := Now();
      ghost var path := Path(before, b);
      PathLinks(before, b);
      var index := b * 4;
      count := 0;
      while index != 0 || count == 0
        invariant count <= |path|
        invariant index == if count < |path| then path[count] else 0
        invariant cells[..] == Cleared(before.cells, path, count)
        decreases |path| - count
      {
        ClearedAt(before.cells, path, count, index);
        assert cells[index] == before.cells[index];
        var next := cells[index].next;
        cells[index] := EMPTY;
        count := count + 1;
        index := next;
      }
      forall y | 0 <= y < cells.Length ensures cells[y] == if y in path then EMPTY else before.cells[y] {
        ClearedAt(before.cells, path, count, y);
      }
    }

    /** Each bucket is as it was, or empty; the protected one is as it was. */
    ghost predicate PurgedFrom(was: State, protected: nat)
      requires Ok(was) && ChainsValid()
      reads this, cells, identities
    {
      && |rep.chains| == |was.rep.chains|
      && (forall c | 0 <= c < |rep.chains| :: View()[c] == DirectoryMoves.Table(was)[c] || View()[c] == [])
      && (protected < |rep.chains| ==> rep.chains[protected] == was.rep.chains[protected]
                                       && View()[protected] == DirectoryMoves.Table(was)[protected])
    }

    /** Purge a tenth of the buckets, or all when there are at most ten. */
    method PurgeRandom10(protected: nat)
      requires ChainsValid() && protected < Buckets()
      modifies this, cells
      ensures Valid() && PurgedFrom(old(Now()), protected)
    {
      ghost var before := Now();
      var pick :| 0 <= pick < 10;
      var n := cells.Length / 4;
      for i := 0 to n
        invariant ChainsValid() && PurgedFrom(before, protected)
      {
        if (n > 10 && i % 10 != pick) || i == protected { continue; }
        var _ := PurgeBucket(i);
      }
      var _ := FreeChainRebuild();
    }

    /** Purge every bucket but the protected one. */
    method PurgeRandom100(protected: nat)
      requires ChainsValid() && protected < Buckets()
      modifies this, cells
      ensures Valid() && PurgedFrom(old(Now()), protected)
      ensures forall c | 0 <= c < |rep.chains| && c != protected :: rep.chains[c] == []
    {
      ghost var before := Now();
      var n := cells.Length / 4;
      for i := 0 to n
        invariant ChainsValid() && PurgedFrom(before, protected)
        invariant forall c | 0 <= c < i && c != protected :: rep.chains[c] == []
      {
        if i == protected { continue; }
        var _ := PurgeBucket(i);
      }
      var _ := FreeChainRebuild();
    }

    /** Some cell that is no head is not on the chain of bucket `b`. */
    ghost predicate Spare(b: nat)
      requires b < Buckets()
      reads this
    {
      exists x :: 0 <= x < cells.Length && x % 4 != 0 && x !in rep.chains[b]
    }

    /**
     A cell from the free list. When there is none, buckets are purged at
     random, at last all but the protected one. It fails, where the program
     would panic, exactly if the protected chain holds every cell that is no
     head.
     */
    method FreeChainPop(protected: nat) returns (r: Option<nat>)
      requires Valid() && protected < Buckets()
      modifies this, cells
      ensures r.Some? <==> old(Spare(protected))
      ensures r.Some? ==> FreeCell(r.value)
      ensures r.Some? ==> PurgedFrom(old(Now()), protected)
      ensures r.Some? && old(rep.free) != [] ==> View() == old(View()) && rep.chains == old(rep.chains)
    {
      ghost var before := Now();
      var attempt := 0;
      while true
        invariant 0 <= attempt <= 50
        invariant Valid() && PurgedFrom(before, protected)
        invariant Spare(protected) == old(Spare(protected))
        invariant attempt == 0 ==> Now() == before
        invariant attempt > 0 ==> before.rep.free == []
        invariant attempt == 50 ==> !Spare(protected)
        decreases 51 - attempt
      {
        attempt := attempt + 1;
        if attempt > 49 {
          PurgeRandom100(protected);
          SpareIsFree(Now(), protected);
        }
        if attempt > 50 { return None; }
        if freeStart == 0 {
          ZeroIsNone(cells[..], rep.free);
          var found := FreeChainRebuild();
          if found == 0 {
            PurgeRandom10(protected);
            continue;
          }
        }
        ZeroIsNone(cells[..], rep.free);
        FirstFree(Now(), protected);
        var x := freeStart;
        FreeChainDelete(x, 0);
        return Some(x);
      }
    }

    /** An unused cell that is on no list, ready to be filled. */
    ghost predicate FreeCell(x: nat)
      reads this, cells, identities
    {
      ValidExcept(x) && 0 < x < cells.Length && x % 4 != 0 && !cells[x].Used() && x !in rep.free
    }

    /** A cell for a new entry: the head, a cell of the same bucket, or any. */
    method GetFreeDir(b: nat) returns (r: Option<nat>)
      requires Valid() && b < Buckets()
      modifies this, cells
      ensures r.Some? <==> old(rep.chains[b] == [] || Spare(b))
      ensures r.Some? ==> Buckets() == old(Buckets())
      ensures r.Some? && r.value % 4 == 0 ==> r.value == 4 * b && rep.chains[b] == [] && Valid() && Now() == old(Now())
      ensures r.Some? && r.value % 4 != 0 ==> rep.chains[b] != [] && FreeCell(r.value) && PurgedFrom(old(Now()), b)
      ensures r.Some? && old(rep.free) != [] ==> View() == old(View())
    {
      var index := b * 4;
      HeadInUse(Now(), b);
      if !cells[index].Used() { return Some(index); }
      for i := 1 to 4
        invariant Now() == old(Now()) && freeStart == old(freeStart)
      {
        if !cells[index + i].Used() {
          ghost var k := PlaceInFree(Now(), b, index + i);
          FreeChainDelete(index + i, k);
          return Some(index + i);
        }
      }
      r := FreeChainPop(b);
      if r.Some? { HeadInUse(Now(), b); }
    }

    /** The last cell of a chain that is not empty. */
    method LastOfBucket(b: nat) returns (last: nat)
      requires ChainsValid() && b < Buckets() && rep.chains[b] != []
      ensures last == rep.chains[b][|rep.chains[b]| - 1] < cells.Length
    {
      ghost var path := rep.chains[b];
      PathLinks(Now(), b);
      last := b * 4;
      ghost var i: nat := 0;
      while cells[last].next != 0
        invariant i < |path| && last == path[i]
        decreases |path| - i
      {
        last := cells[last].next;
        i := i + 1;
      }
    }

    /**
     Store an entry under its tag in bucket `b`. It fails, where the program
     would panic, exactly if the tag is new and the bucket's chain already
     holds every cell that could take it. Other buckets are untouched unless no
     cell was free; then some may have been purged as a whole.
     */
    method Set(tag: nat, b: nat, d: Dir, id: Identity) returns (ok: bool)
      requires Valid() && b < Buckets() && d.Used() && d.next == 0 && d.Tag() == tag
      modifies this, cells, identities
      ensures ok <==> old(Find(View()[b], tag) < |View()[b]| || rep.chains[b] == [] || Spare(b))
      ensures ok ==> Valid() && Buckets() == old(Buckets()) && View()[b] == Put(old(View())[b], Slot(d, id))
      ensures ok ==> forall c | 0 <= c < Buckets() && c != b :: View()[c] == old(View())[c] || View()[c] == []
      ensures ok && old(rep.free != [] || rep.chains[b] == [] || Find(View()[b], tag) < |View()[b]|) ==>
                View() == old(View())[b := Put(old(View())[b], Slot(d, id))]
    {
      var hit, x, _ := Probe(tag, b);
      ghost var i := Find(View()[b], tag);
      if hit {
        Overwrite(b, x, d, id, i);
        return true;
      }
      var r := GetFreeDir(b);
      if r.None? { return false; }
      x := r.value;
      if x % 4 == 0 {
        StoreHead(b, d, id);
      } else {
        StoreTail(b, x, d, id);
      }
      ok := true;
    }

    method Overwrite(b: nat, x: nat, d: Dir, id: Identity, ghost i: nat)
      requires Valid() && b < Buckets() && i < |rep.chains[b]| && x == rep.chains[b][i] && d.Used() && d.next == 0
      modifies cells, identities
      ensures Valid() && View() == old(View())[b := old(View())[b][i := Slot(d, id)]]
    {
      ghost var before := Now();
      ReplaceMove(before, b, i, d, id);
      ReplaceUsedKeepsFree(before.cells, rep.free, 0, x, d.SetNext(cells[x].next));
      cells[x] := d.SetNext(cells[x].next);
      identities[x] := id;
      assert Now() == Replaced(before, x, d, id);
    }

    method StoreHead(b: nat, d: Dir, id: Identity)
      requires Valid() && b < Buckets() && rep.chains[b] == [] && d.Used() && d.next == 0
      modifies this, cells, identities
      ensures Valid() && Buckets() == old(Buckets()) && View() == old(View())[b := [Slot(d, id)]]
    {
      ghost var before := Now();
      HeadMove(before, b, d, id);
      HeadKeepsFree(before.cells, rep.free, 0, 4 * b, d);
      cells[b * 4] := d;
      identities[b * 4] := id;
      rep := rep.(chains := rep.chains[b := [4 * b]], owner := rep.owner[4 * b := b]);
      assert Now() == Headed(before, b, d, id);
    }

    method StoreTail(b: nat, x: nat, d: Dir, id: Identity)
      requires b < Buckets() && FreeCell(x) && rep.chains[b] != [] && d.Used() && d.next == 0
      modifies this, cells, identities
      ensures Valid() && Buckets() == old(Buckets()) && View() == old(View())[b := old(View())[b] + [Slot(d, id)]]
    {
      ghost var before := Now();
      AppendMove(before, b, x, d, id);
      var last := LastOfBucket(b);
      AppendKeepsFree(before, b, x, d, last);
      cells[x] := d;
      cells[last] := cells[last].SetNext(x);
      identities[x] := id;
      rep := rep.(chains := rep.chains[b := rep.chains[b] + [x]], owner := rep.owner[x := b]);
      assert Now() == Appended(before, b, x, d, id);
    }

    /** Look an entry up; a stored identity must agree with the key's. */
    method Get(tag: nat, b: nat, id: Identity) returns (r: Option<Dir>)
      requires Valid() && b < Buckets()
      ensures
        var found := Lookup(View()[b], tag);
        && (r.Some? <==> found.Some? && (found.value.identity == 0 || found.value.identity == id))
        && (r.Some? ==> r.value.SetNext(0) == found.value.entry)
    {
      var hit, x, _ := Probe(tag, b);
      if !hit { return None; }
      ghost var i := Find(View()[b], tag);
      assert rep.chains[b][i] in rep.chains[b];
      assert View()[b][i] == SlotAt(cells[..], identities[..], x) by { ChainsInside(cells[..], rep.chains, rep.owner, b); }
      if identities[x] != 0 && identities[x] != id { return None; }
      return Some(cells[x]);
    }

    /** Delete a key's entry, unless the stored identity is another key's. */
    method Delete(tag: nat, b: nat, id: Identity)
      requires Valid() && b < Buckets()
      modifies this, cells, identities
      ensures Valid() && Buckets() == old(Buckets())
      ensures
        var found := Lookup(old(View())[b], tag);
        if found.Some? && (found.value.identity == 0 || found.value.identity == id) then View() == Deleted(old(Now()), b, tag)
        else View() == old(View()) && rep == old(rep)
    {
      var current := Get(tag, b, id);
      if current.None? { return; }
      var _ := DirDelete(tag, b);
    }

    /**
     Delete a key's entry if it is at the expected offset. It reports failure
     when the entry is another key's or at another offset.
     */
    method DeleteAt(tag: nat, b: nat, id: Identity, expected: nat) returns (gone: bool)
      requires Valid() && b < Buckets()
      modifies this, cells, identities
      ensures Valid() && Buckets() == old(Buckets())
      ensures
        var found := Lookup(old(View())[b], tag);
        && gone == (found.None? || ((found.value.identity == 0 || found.value.identity == id) && found.value.entry.offset == expected))
        && if found.Some? && gone then View() == Deleted(old(Now()), b, tag) else View() == old(View()) && rep == old(rep)
    {
      var hit, x, _ := Probe(tag, b);
      if !hit { gone := true; return; }
      ghost var i := Find(View()[b], tag);
      ProbedSlot(Now(), b, i);
      gone := false;
      if identities[x] != 0 && identities[x] != id { return; }
      if cells[x].offset != expected { return; }
      var _ := DirDelete(tag, b);
      gone := true;
    }

    /** Walk a chain from its head to the first entry of the phase. */
    method ProbePhase(phase: bool, b: nat) returns (found: bool, tag: nat)
      requires Valid() && b < Buckets()
      ensures
        var i := FindPhase(View()[b], phase);
        found == (i < |View()[b]|) && (found ==> tag == View()[b][i].Tag())
    {
      tag := 0;
      HeadInUse(Now(), b);
      var index := b * 4;
      if !cells[index].Used() { return false, 0; }
      ghost var i: nat := 0;
      HeadIsFirst(Now(), b, 0);
      while true
        invariant i < |rep.chains[b]| && index == rep.chains[b][i]
        invariant forall k | 0 <= k < i :: View()[b][k].entry.Phase() != phase
        decreases |rep.chains[b]| - i
      {
        ProbedSlot(Now(), b, i);
        var d := cells[index];
        if d.Phase() == phase {
          FindPhaseUnique(View()[b], phase, i);
          return true, d.Tag();
        }
        if d.next == 0 {
          FindPhaseUnique(View()[b], phase, i + 1);
          return false, 0;
        }
        index := d.next;
        i := i + 1;
      }
    }

    ghost predicate OtherChains(was: Rep, b: nat)
      reads this
    {
      Buckets() == |was.chains| && forall c | 0 <= c < Buckets() && c != b :: rep.chains[c] == was.chains[c]
    }

    /** Remove the first entry of the phase from a bucket, if there is one. */
    method RemoveOne(phase: bool, b: nat) returns (found: bool)
      requires Valid() && b < Buckets()
      modifies this, cells, identities
      ensures Valid() && OtherChains(old(rep), b)
      ensures
        var bucket := old(View())[b];
        var i := FindPhase(bucket, phase);
        && found == (i < |bucket|)
        && View() == (if found then Deleted(old(Now()), b, bucket[i].Tag()) else old(View()))
        && |View()[b]| == |bucket| - (if found then 1 else 0)
      ensures if found && old(|View()[b]|) > 1 then rep.free != [] else rep.free == old(rep.free)
    {
      var tag;
      found, tag := ProbePhase(phase, b);
      if found {
        OneGone(View()[b], tag);
        var _ := DirDelete(tag, b);
      }
    }

    /** A sweep of bucket `b` alone is under way, and there is a free cell or nothing to be done. */
    ghost predicate Sweeping(was: State, phase: bool, b: nat)
      reads this, cells, identities
    {
      && Valid() && Ok(was) && b < Buckets() && OtherChains(was.rep, b)
      && View() == DirectoryMoves.Table(was)[b := View()[b]]
      && SweepBucket(View()[b], phase) == SweepBucket(DirectoryMoves.Table(was)[b], phase)
      && (rep.free == [] <==> was.rep.free == []) && (rep.free != [] || View()[b] == [])
    }

    /** One turn of the sweep. */
    method SweepTurn(phase: bool, b: nat, ghost was: State) returns (found: bool)
      requires Sweeping(was, phase, b)
      modifies this, cells, identities
      ensures Sweeping(was, phase, b)
      ensures if found then |View()[b]| < old(|View()[b]|) else FindPhase(View()[b], phase) == |View()[b]|
    {
      found := RemoveOne(phase, b);
    }

    /** The rest of a sweep. */
    method SweepQuietly(phase: bool, b: nat)
      requires Valid() && b < Buckets() && (rep.free != [] || View()[b] == [])
      modifies this, cells, identities
      ensures Valid() && OtherChains(old(rep), b)
      ensures View() == old(View())[b := SweepBucket(old(View())[b], phase)]
      ensures rep.free == [] <==> old(rep.free) == []
    {
      ghost var was := Now();
      var found := true;
      while found
        invariant Sweeping(was, phase, b)
        invariant !found ==> FindPhase(View()[b], phase) == |View()[b]|
        decreases |View()[b]|, found
      {
        found := SweepTurn(phase, b, was);
      }
    }

    /**
     Remove all entries of one phase from a bucket. The walk starts again at the
     head after every removal, so it ends.
     */
    method RemovePhaseFromBucket(phase: bool, b: nat)
      requires Valid() && b < Buckets()
      modifies this, cells, identities
      ensures Valid() && OtherChains(old(rep), b)
      ensures View() == SweptOnce(old(Now()), b, phase)
      ensures rep.free == [] <==> old(rep.free) == [] && !Releases(old(View())[b], phase)
    {
      var found := RemoveOne(phase, b);
      if found {
        SweepQuietly(phase, b);
      }
    }

    /**
     Remove all entries of one phase from the segment. Every bucket but the first
     is swept as if it were alone; the first one may get a back link, from its own
     sweep or from the first cell that a later bucket gives back.
     */
    method RemovePhase(phase: bool)
      requires Valid()
      modifies this, cells, identities
      ensures Valid() && Buckets() == old(Buckets())
      ensures forall b | 0 < b < Buckets() :: View()[b] == SweepBucket(old(View())[b], phase)
      ensures View()[0] == SweptFirst(old(Now()), phase)
    {
      ghost var start := Now();
      SweptOthers(start, 0, phase);
      RemovePhaseFromBucket(phase, 0);
      var n := cells.Length / 4;
      for b := 1 to n
        invariant Valid() && Buckets() == |start.rep.chains| == n && SweptUpTo(start, Now(), phase, b)
      {
        ghost var now := Now();
        RemovePhaseFromBucket(phase, b);
        SweptOneMore(start, now, Now(), phase, b);
      }
    }
  }

  /** The cell that deleting a tag gives back, if it gives one back. */
  lemma OneGone(bucket: Bucket, tag: nat)
    requires Find(bucket, tag) < |bucket|
    ensures |Drop(bucket, tag)| == |bucket| - 1
  {
  }

  ghost function ReleasedBy(s: State, tag: nat, b: nat): Word
    requires Ok(s) && b < |s.rep.chains| && Find(DirectoryMoves.Table(s)[b], tag) < |DirectoryMoves.Table(s)[b]|
  {
    var i := Find(DirectoryMoves.Table(s)[b], tag);
    var k := if i == 0 then 1 else i;
    if k < |s.rep.chains[b]| then ProbedSlot(s, b, k); s.rep.chains[b][k] else 0
  }

  /**
   The table after the first entry with the tag is deleted: it loses that entry,
   and a cell that goes to an empty free list writes its back link over the head
   of bucket 0.
   */
  ghost function Deleted(s: State, b: nat, tag: nat): (t: DirectoryView.Table)
    requires Ok(s) && b < |s.rep.chains|
    ensures |t| == |s.rep.chains|
  {
    var bucket := DirectoryMoves.Table(s)[b];
    var t := DirectoryMoves.Table(s)[b := Drop(bucket, tag)];
    if Find(bucket, tag) == |bucket| || |bucket| == 1 || s.rep.free != [] then t
    else t[0 := WithBackLink(t[0], ReleasedBy(s, tag, b))]
  }

  /** The same as operations on the table. */
  ghost function DeletionOps(s: State, b: nat, tag: nat): (ops: seq<TableOp>)
    requires Ok(s) && b < |s.rep.chains| && Find(DirectoryMoves.Table(s)[b], tag) < |DirectoryMoves.Table(s)[b]|
  {
    var t := DirectoryMoves.Table(s);
    var first := if b == 0 then Drop(t[0], tag) else t[0];
    if |t[b]| == 1 || s.rep.free != [] || first == [] then [Remove(b, tag)] else [Remove(b, tag), Clobber(ReleasedBy(s, tag, b))]
  }

  lemma DeletionApplies(s: State, b: nat, tag: nat)
    requires Ok(s) && b < |s.rep.chains| && Find(DirectoryMoves.Table(s)[b], tag) < |DirectoryMoves.Table(s)[b]|
    ensures
      var t, ops := DirectoryMoves.Table(s), DeletionOps(s, b, tag);
      && AllFit(ops, |t|) && ApplySeq(t, ops) == Deleted(s, b, tag)
  {
    var t := DirectoryMoves.Table(s);
    var removed := t[b := Drop(t[b], tag)];
    ApplyOne(t, Remove(b, tag));
    if |DeletionOps(s, b, tag)| == 2 {
      ApplyTwo(t, Remove(b, tag), Clobber(ReleasedBy(s, tag, b)));
    } else {
      assert removed[0] == [] ==> removed[0 := []] == removed;
    }
  }

  /** A sweep of the bucket gives a cell back: it has an entry of the phase, and another one. */
  predicate Releases(bucket: Bucket, phase: bool) {
    1 < |bucket| && FindPhase(bucket, phase) < |bucket|
  }

  /** The table after one bucket has been swept. */
  ghost function SweptOnce(s: State, b: nat, phase: bool): (t: DirectoryView.Table)
    requires Ok(s) && b < |s.rep.chains|
    ensures |t| == |s.rep.chains|
  {
    var bucket := DirectoryMoves.Table(s)[b];
    var i := FindPhase(bucket, phase);
    if i == |bucket| then DirectoryMoves.Table(s)
    else
      var t := Deleted(s, b, bucket[i].Tag());
      t[b := SweepBucket(t[b], phase)]
  }

  lemma SweptOthers(s: State, b: nat, phase: bool)
    requires Ok(s) && b < |s.rep.chains|
    ensures
      var t, after := DirectoryMoves.Table(s), SweptOnce(s, b, phase);
      && (forall c | 0 < c < |t| && c != b :: after[c] == t[c])
      && (b > 0 ==> after[b] == SweepBucket(t[b], phase))
      && (b > 0 && Releases(t[b], phase) && s.rep.free == [] ==>
            after[0] == WithBackLink(t[0], ReleasedBy(s, t[b][FindPhase(t[b], phase)].Tag(), b)))
      && (b > 0 && !(Releases(t[b], phase) && s.rep.free == []) ==> after[0] == t[0])
  {
    var t: DirectoryView.Table := DirectoryMoves.Table(s);
    var i := FindPhase(t[b], phase);
    if i < |t[b]| {
      DeletedAt(s, b, t[b][i].Tag());
    }
  }

  /** What a deletion does to each bucket. */
  lemma DeletedAt(s: State, b: nat, tag: nat)
    requires Ok(s) && b < |s.rep.chains| && Find(DirectoryMoves.Table(s)[b], tag) < |DirectoryMoves.Table(s)[b]|
    ensures
      var t, after := DirectoryMoves.Table(s), Deleted(s, b, tag);
      && (forall c | 0 < c < |t| && c != b :: after[c] == t[c])
      && (b > 0 ==> after[b] == Drop(t[b], tag))
      && (b > 0 ==> after[0] == if |t[b]| > 1 && s.rep.free == [] then WithBackLink(t[0], ReleasedBy(s, tag, b)) else t[0])
  {
  }

  /** What a bucket gives back depends on its own chain and contents only. */
  lemma SameRelease(s: State, s': State, b: nat, phase: bool)
    requires Ok(s) && Ok(s') && b < |s.rep.chains| == |s'.rep.chains| && s'.rep.chains[b] == s.rep.chains[b]
    requires DirectoryMoves.Table(s')[b] == DirectoryMoves.Table(s)[b]
    ensures
      var bucket := DirectoryMoves.Table(s)[b];
      Releases(bucket, phase) ==>
        var tag := bucket[FindPhase(bucket, phase)].Tag();
        ReleasedBy(s', tag, b) == ReleasedBy(s, tag, b)
  {
  }

  /** The first bucket from `b` on that gives a cell back, or their number. */
  ghost function FirstRelease(t: DirectoryView.Table, phase: bool, b: nat): (c: nat)
    requires b <= |t|
    ensures b <= c <= |t| && (c < |t| ==> Releases(t[c], phase)) && forall k | b <= k < c :: !Releases(t[k], phase)
    decreases |t| - b
  {
    if b == |t| || Releases(t[b], phase) then b else FirstRelease(t, phase, b + 1)
  }

  /** Bucket 0 after a sweep of the segment. */
  ghost function SweptFirst(s: State, phase: bool): Bucket
    requires Ok(s) && 0 < |s.rep.chains|
  {
    var t := DirectoryMoves.Table(s);
    var first, c := SweptOnce(s, 0, phase)[0], FirstRelease(t, phase, 1);
    if s.rep.free != [] || Releases(t[0], phase) || c == |t| then first
    else
      WithBackLink(first, ReleasedBy(s, t[c][FindPhase(t[c], phase)].Tag(), c))
  }

  /** The buckets before `b` have been swept, the others are as they were. */
  ghost predicate SweptUpTo(start: State, now: State, phase: bool, b: nat)
    requires Ok(start) && Ok(now) && |start.rep.chains| == |now.rep.chains|
  {
    var t, t' := DirectoryMoves.Table(start), DirectoryMoves.Table(now);
    var c := FirstRelease(t, phase, 1);
    && (forall k | b <= k < |t| :: now.rep.chains[k] == start.rep.chains[k] && t'[k] == t[k])
    && (forall k | 0 < k < b && k < |t| :: t'[k] == SweepBucket(t[k], phase))
    && (now.rep.free == [] <==> start.rep.free == [] && !Releases(t[0], phase) && b <= c)
    && t'[0] == if c < b then SweptFirst(start, phase) else SweptOnce(start, 0, phase)[0]
  }

  lemma SweptOneMore(start: State, now: State, next: State, phase: bool, b: nat)
    requires Ok(start) && Ok(now) && Ok(next) && |start.rep.chains| == |now.rep.chains| == |next.rep.chains|
    requires 0 < b < |start.rep.chains| && SweptUpTo(start, now, phase, b)
    requires DirectoryMoves.Table(next) == SweptOnce(now, b, phase)
    requires forall c | 0 <= c < |start.rep.chains| && c != b :: next.rep.chains[c] == now.rep.chains[c]
    requires next.rep.free == [] <==> now.rep.free == [] && !Releases(DirectoryMoves.Table(now)[b], phase)
    ensures SweptUpTo(start, next, phase, b + 1)
  {
    var t, t' := DirectoryMoves.Table(start), DirectoryMoves.Table(next);
    var c := FirstRelease(t, phase, 1);
    SweptOthers(now, b, phase);
    assert Releases(t[b], phase) ==> c <= b;
    SweptZero(start, now, phase, b);
  }

  /** What the sweep of a later bucket does to bucket 0. */
  lemma SweptZero(start: State, now: State, phase: bool, b: nat)
    requires Ok(start) && Ok(now) && |start.rep.chains| == |now.rep.chains|
    requires 0 < b < |start.rep.chains| && SweptUpTo(start, now, phase, b)
    ensures
      var c := FirstRelease(DirectoryMoves.Table(start), phase, 1);
      SweptOnce(now, b, phase)[0] == if c < b + 1 then SweptFirst(start, phase) else SweptOnce(start, 0, phase)[0]
  {
    var t := DirectoryMoves.Table(start);
    var c := FirstRelease(t, phase, 1);
    SweptOthers(now, b, phase);
    if c == b {
      SameRelease(start, now, b, phase);
    }
  }

  /** A sweep as operations on the table: the back link comes in the middle of bucket 0's own sweep, or behind it, or not at all. */
  ghost function SweepOps(s: State, phase: bool): (ops: seq<TableOp>)
    requires Ok(s)
  {
    var t := DirectoryMoves.Table(s);
    var c := FirstRelease(t, phase, 1);
    if s.rep.free != [] then [Sweep(phase)]
    else if Releases(t[0], phase) then
      var tag := t[0][FindPhase(t[0], phase)].Tag();
      [Remove(0, tag), Clobber(ReleasedBy(s, tag, 0)), Sweep(phase)]
    else if c == |t| then [Sweep(phase)]
    else [Sweep(phase), Clobber(ReleasedBy(s, t[c][FindPhase(t[c], phase)].Tag(), c))]
  }

  /** The table after a sweep of the segment. */
  ghost function SweptTable(s: State, phase: bool): (t: DirectoryView.Table)
    requires Ok(s)
  {
    var t := DirectoryMoves.Table(s);
    seq(|t|, b requires 0 <= b < |t| => if b == 0 then SweptFirst(s, phase) else SweepBucket(t[b], phase))
  }

  /** The plain sweep of a table. */
  lemma PlainSweep(t: DirectoryView.Table, phase: bool)
    ensures
      var r := ApplySeq(t, [Sweep(phase)]);
      |r| == |t| && forall b | 0 <= b < |t| :: r[b] == SweepBucket(t[b], phase)
  {
    ApplyOne(t, Sweep(phase));
  }

  lemma SweepApplies(s: State, phase: bool)
    requires Ok(s)
    ensures
      var t, ops := DirectoryMoves.Table(s), SweepOps(s, phase);
      AllFit(ops, |t|) && ApplySeq(t, ops) == SweptTable(s, phase)
  {
    var t, c := DirectoryMoves.Table(s), FirstRelease(DirectoryMoves.Table(s), phase, 1);
    if s.rep.free == [] && Releases(t[0], phase) {
      SweepInside(s, phase);
    } else {
      PlainSweep(t, phase);
      PlainFirst(s, phase);
      var r := ApplySeq(t, [Sweep(phase)]);
      if s.rep.free == [] && c < |t| {
        var x := ReleasedBy(s, t[c][FindPhase(t[c], phase)].Tag(), c);
        ApplyOne(t, Sweep(phase));
        ApplyTwo(t, Sweep(phase), Clobber(x));
        assert SweptTable(s, phase) == r[0 := WithBackLink(r[0], x)];
      } else {
        assert SweptTable(s, phase) == r;
      }
    }
  }

  /** Where bucket 0 gives nothing back to an empty list, its own sweep is plain. */
  lemma PlainFirst(s: State, phase: bool)
    requires Ok(s) && (s.rep.free != [] || !Releases(DirectoryMoves.Table(s)[0], phase))
    ensures SweptOnce(s, 0, phase)[0] == SweepBucket(DirectoryMoves.Table(s)[0], phase)
  {
  }

  lemma SweepInside(s: State, phase: bool)
    requires Ok(s) && s.rep.free == [] && Releases(DirectoryMoves.Table(s)[0], phase)
    ensures
      var t, ops := DirectoryMoves.Table(s), SweepOps(s, phase);
      AllFit(ops, |t|) && ApplySeq(t, ops) == SweptTable(s, phase)
  {
    var t: DirectoryView.Table := DirectoryMoves.Table(s);
    var tag := t[0][FindPhase(t[0], phase)].Tag();
    var x := ReleasedBy(s, tag, 0);
    var two := [Remove(0, tag), Clobber(x)];
    ApplyTwo(t, two[0], two[1]);
    var t1 := ApplySeq(t, two);
    assert t1 == Deleted(s, 0, tag);
    ApplySeqJoins(t, two, [Sweep(phase)]);
    assert two + [Sweep(phase)] == SweepOps(s, phase);
    PlainSweep(t1, phase);
    assert SweptTable(s, phase) == ApplySeq(t1, [Sweep(phase)]);
  }

  lemma ProbedSlot(s: State, b: nat, i: nat)
    requires Ok(s) && b < |s.rep.chains| && i < |s.rep.chains[b]|
    ensures s.rep.chains[b][i] < |s.cells|
    ensures DirectoryMoves.Table(s)[b][i] == SlotAt(s.cells, s.ids, s.rep.chains[b][i])
    ensures s.cells[s.rep.chains[b][i]].Used() && s.cells[s.rep.chains[b][i]].next == After(s.rep.chains[b], i)
    ensures i + 1 < |s.rep.chains[b]| ==> s.rep.chains[b][i + 1] != 0
  {
    assert s.rep.chains[b][i] in s.rep.chains[b];
    OnChain(s.cells, s.rep.chains, s.rep.owner, b, s.rep.chains[b][i]);
    ChainsInside(s.cells, s.rep.chains, s.rep.owner, b);
    NonZeroLinks(s.cells, s.rep, b, i);
    if i + 1 < |s.rep.chains[b]| { NonZeroLinks(s.cells, s.rep, b, i + 1); }
  }

  lemma HeadInUse(s: State, b: nat)
    requires Ok(s) && b < |s.rep.chains|
    ensures 4 * b + 3 < |s.cells|
    ensures s.cells[4 * b].Used() <==> s.rep.chains[b] != []
  {
    assert ChainOk(s.cells, s.rep.owner, b, s.rep.chains[b]);
    if s.rep.chains[b] != [] { assert LinkOk(s.cells, s.rep.owner, b, s.rep.chains[b], 0); }
  }

  lemma PlaceInFree(s: State, b: nat, x: nat) returns (k: nat)
    requires Ok(s) && FreeOk(s.cells, s.rep.free) && b < |s.rep.chains| && x < |s.cells| && x % 4 != 0 && !s.cells[x].Used()
    ensures k < |s.rep.free| && s.rep.free[k] == x
    ensures x !in s.rep.chains[b]
  {
    assert x in s.rep.free;
    k :| 0 <= k < |s.rep.free| && s.rep.free[k] == x;
    if x in s.rep.chains[b] { OnChain(s.cells, s.rep.chains, s.rep.owner, b, x); }
  }

  lemma AppendKeepsFree(s: State, b: nat, x: nat, d: Dir, last: nat)
    requires Ok(s) && FreeLinked(s.cells, s.rep.free) && FreeCovers(s.cells, s.rep.free, x) && b < |s.rep.chains|
    requires s.rep.chains[b] != [] && last == s.rep.chains[b][|s.rep.chains[b]| - 1] < |s.cells|
    requires 0 < x < |s.cells| && x % 4 != 0 && !s.cells[x].Used() && x !in s.rep.free && x < 0x1_0000 && d.Used()
    ensures
      var cells' := s.cells[x := d][last := s.cells[last].SetNext(x)];
      FreeLinked(cells', s.rep.free) && FreeCovers(cells', s.rep.free, 0)
  {
    assert last in s.rep.chains[b];
    OnChain(s.cells, s.rep.chains, s.rep.owner, b, last);
    var cells', free := s.cells[x := d][last := s.cells[last].SetNext(x)], s.rep.free;
    forall k | 0 <= k < |free| ensures FreeLinkOk(cells', free, k) {
      assert FreeLinkOk(s.cells, free, k);
      assert free[k] in free;
    }
  }

  /** Cell 0 is never on the free list, so zero means that the list is empty. */
  lemma ZeroIsNone(cells: seq<Dir>, free: seq<nat>)
    requires FreeLinked(cells, free)
    ensures First(free) == 0 <==> free == []
  {
    if free != [] { assert FreeLinkOk(cells, free, 0); }
  }

  lemma FirstFree(s: State, b: nat)
    requires Ok(s) && FreeOk(s.cells, s.rep.free) && s.rep.free != [] && b < |s.rep.chains|
    ensures s.rep.free[0] !in s.rep.chains[b]
    ensures 0 < s.rep.free[0] < |s.cells| && s.rep.free[0] % 4 != 0
  {
    assert FreeLinkOk(s.cells, s.rep.free, 0);
    if s.rep.free[0] in s.rep.chains[b] { OnChain(s.cells, s.rep.chains, s.rep.owner, b, s.rep.free[0]); }
  }

  lemma UsedIsOnChain(s: State, x: nat)
    requires Ok(s) && x < |s.cells|
    ensures s.cells[x].Used() ==> exists c :: 0 <= c < |s.rep.chains| && x in s.rep.chains[c]
  {
  }

  /** With all other buckets empty, a cell that is not on the one chain is free. */
  lemma SpareIsFree(s: State, b: nat)
    requires Ok(s) && FreeOk(s.cells, s.rep.free) && b < |s.rep.chains|
    requires forall c | 0 <= c < |s.rep.chains| && c != b :: s.rep.chains[c] == []
    ensures (exists x :: 0 <= x < |s.cells| && x % 4 != 0 && x !in s.rep.chains[b]) ==> s.rep.free != []
  {
    if x :| 0 <= x < |s.cells| && x % 4 != 0 && x !in s.rep.chains[b] {
      UsedIsOnChain(s, x);
      assert x in s.rep.free;
    }
  }

  /** The cells after the first `k` of a walk have been cleared. */
  function Cleared(cells: seq<Dir>, path: seq<nat>, k: nat): (r: seq<Dir>)
    requires k <= |path| && Inside(path, |cells|)
    ensures |r| == |cells|
  {
    if k == 0 then cells else
      assert path[k - 1] in path;
      Cleared(cells, path, k - 1)[path[k - 1] := EMPTY]
  }

  lemma {:induction false} ClearedAt(cells: seq<Dir>, path: seq<nat>, k: nat, y: nat)
    requires k <= |path| && Inside(path, |cells|) && y < |cells|
    ensures Cleared(cells, path, k)[y] == if y in path[..k] then EMPTY else cells[y]
    ensures NoDup(path) && k < |path| && y == path[k] ==> y !in path[..k]
    ensures k == |path| ==> path[..k] == path
  {
    if k > 0 {
      ClearedAt(cells, path, k - 1, y);
      assert path[..k] == path[..k - 1] + [path[k - 1]];
    }
  }

  /** The cells that a walk from the head of a bucket visits. */
  function Path(s: State, b: nat): (path: seq<nat>)
    requires Ok(s) && b < |s.rep.chains|
    ensures path != [] && (s.rep.chains[b] != [] ==> path == s.rep.chains[b])
  {
    if s.rep.chains[b] == [] then [4 * b] else s.rep.chains[b]
  }

  lemma PathLinks(s: State, b: nat)
    requires Ok(s) && b < |s.rep.chains|
    ensures
      var path := Path(s, b);
      && NoDup(path) && path[0] == 4 * b && Inside(path, |s.cells|)
      && forall k | 0 <= k < |path| :: path[k] < |s.cells| && s.cells[path[k]].next == After(path, k) && (k > 0 ==> path[k] != 0)
  {
    var chain, path := s.rep.chains[b], Path(s, b);
    assert ChainOk(s.cells, s.rep.owner, b, chain);
    forall k | 0 <= k < |path| ensures path[k] < |s.cells| && s.cells[path[k]].next == After(path, k) && (k > 0 ==> path[k] != 0) {
      if chain != [] { assert LinkOk(s.cells, s.rep.owner, b, chain, k); }
    }
    if chain != [] { assert LinkOk(s.cells, s.rep.owner, b, chain, 0); }
  }

  lemma HeadIsFirst(s: State, b: nat, i: nat)
    requires Ok(s) && b < |s.rep.chains| && i < |s.rep.chains[b]|
    ensures s.rep.chains[b][0] == 4 * b < |s.cells| && s.cells[4 * b].Used()
    ensures s.rep.chains[b][i] == 4 * b ==> i == 0
    ensures s.cells[4 * b].next == 0 <==> |s.rep.chains[b]| == 1
  {
    assert ChainOk(s.cells, s.rep.owner, b, s.rep.chains[b]) && LinkOk(s.cells, s.rep.owner, b, s.rep.chains[b], 0);
    if 1 < |s.rep.chains[b]| { assert LinkOk(s.cells, s.rep.owner, b, s.rep.chains[b], 1); }
    assert LinkOk(s.cells, s.rep.owner, b, s.rep.chains[b], i);
  }

  lemma NotHeadIsLater(s: State, b: nat, i: nat)
    requires Ok(s) && b < |s.rep.chains| && i < |s.rep.chains[b]| && s.rep.chains[b][i] != 4 * b
    ensures i > 0
  {
    assert ChainOk(s.cells, s.rep.owner, b, s.rep.chains[b]) && LinkOk(s.cells, s.rep.owner, b, s.rep.chains[b], 0);
  }

  /** Cells in use are not on the free list, so cutting one leaves the list alone. */
  lemma CutKeepsFree(s: State, b: nat, i: nat)
    requires Ok(s) && FreeOk(s.cells, s.rep.free) && b < |s.rep.chains| && 0 < i < |s.rep.chains[b]|
    ensures
      var p, x := s.rep.chains[b][i - 1], s.rep.chains[b][i];
      && p < |s.cells| && x < |s.cells| && x !in s.rep.free
      && FreeLinked(Cut(s, b, i).cells, s.rep.free) && FreeCovers(Cut(s, b, i).cells, s.rep.free, x)
  {
    CutMove(s, b, i);
    var p, x := s.rep.chains[b][i - 1], s.rep.chains[b][i];
    assert p in s.rep.chains[b];
    OnChain(s.cells, s.rep.chains, s.rep.owner, b, p);
    UsedChangesKeepFree(s.cells, Cut(s, b, i).cells, s.rep.free, p, x);
  }

  lemma BeheadKeepsFree(s: State, b: nat)
    requires Ok(s) && FreeOk(s.cells, s.rep.free) && b < |s.rep.chains| && 1 < |s.rep.chains[b]|
    ensures
      var h, x := s.rep.chains[b][0], s.rep.chains[b][1];
      && h < |s.cells| && x < |s.cells| && x !in s.rep.free
      && FreeLinked(Beheaded(s, b).cells, s.rep.free) && FreeCovers(Beheaded(s, b).cells, s.rep.free, x)
  {
    BeheadMove(s, b);
    HeadIsFirst(s, b, 0);
    UsedChangesKeepFree(s.cells, Beheaded(s, b).cells, s.rep.free, s.rep.chains[b][0], s.rep.chains[b][1]);
  }

  /** Changing two cells in use, of which `x` is given up, does not touch the free list. */
  lemma UsedChangesKeepFree(cells: seq<Dir>, cells': seq<Dir>, free: seq<nat>, p: nat, x: nat)
    requires FreeOk(cells, free) && |cells'| == |cells| && p < |cells| && x < |cells|
    requires cells[p].Used() && cells[x].Used() && cells'[p].Used()
    requires forall y | 0 <= y < |cells| && y != p && y != x :: cells'[y] == cells[y]
    ensures FreeLinked(cells', free) && FreeCovers(cells', free, x) && x !in free
  {
    forall k | 0 <= k < |free| ensures FreeLinkOk(cells', free, k) && free[k] != x {
      assert FreeLinkOk(cells, free, k);
    }
  }

  /** Behind the head, a link of zero means the end. */
  lemma NonZeroLinks(cells: seq<Dir>, rep: Rep, b: nat, i: nat)
    requires ChainsOk(cells, rep.chains, rep.owner) && b < |rep.chains| && i < |rep.chains[b]|
    ensures LinkOk(cells, rep.owner, b, rep.chains[b], i)
    ensures i > 0 ==> rep.chains[b][i] != 0
  {
    assert ChainOk(cells, rep.owner, b, rep.chains[b]);
  }
}
