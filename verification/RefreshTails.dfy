/**
 The check that a metadata refresh makes on the fragments it keeps: each place
 must be valid in the size that its directory entry remembers, which is rounded
 up. So a fragment that is intact can be refused.
 */
module RefreshTails {
  import opened Common
  import opened AggregateBuffer
  import opened DirEntry
  import RingLog

  /** The place is valid in the rounded size. */
  predicate Roomy(s: RingLog.Stripe, a: Allocation, size: nat)
    requires 0 < size
  {
    RingLog.AllocationValid(s, a, RoundedUp(size))
  }

  /**
   Of the places that are valid in their own size, exactly those pass whose
   rounded end lies inside the data area, does not reach into a write of another
   generation, and, in the generation of the stripe, is not ahead of the cursor.
   */
  lemma RoomyExactly(s: RingLog.Stripe, a: Allocation, size: nat)
    requires 0 < size && RingLog.AllocationValid(s, a, size)
    ensures
      var end := a.offset + RoundedUp(size);
      Roomy(s, a, size) <==>
        (&& end <= s.limit
         && (s.writingEnd > 0 && a.generation != s.writingGeneration && a.offset < s.writingEnd ==> end <= s.writingStart)
         && (a.generation == s.generation ==> end <= s.writePos))
  {
  }

  /** A fragment near the end of the data area is refused in every state of the stripe, intact or not. */
  lemma NeverRoomy(s: RingLog.Stripe, a: Allocation, size: nat)
    requires 0 < size && a.offset + RoundedUp(size) > s.limit
    ensures !Roomy(s, a, size)
  {
  }

  /** One of 40000 bytes that begins less than 256 KiB before the end of the data area, after a wrap: it is intact and refused. */
  lemma IntactTailIsRefused()
    ensures
      var s := RingLog.Stripe(8192, 10000000, 100000, true, 1, 0, 0, 0, false);
      var a := Allocation(9900000, 0, 1);
      RingLog.AllocationValid(s, a, 40000) && !Roomy(s, a, 40000)
  {
  }
}
