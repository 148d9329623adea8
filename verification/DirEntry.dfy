/**
 A directory entry: five 16-bit words into which offset, size, tag, phase and
 chain link are packed. In an unused entry the third word is the back link of
 the free list, so a tag and a back link are the same bits.

 Shifts and masks are written as divisions and remainders by powers of two.
 */
module DirEntry {
  import opened Common

  type Word = x: int | 0 <= x < 0x1_0000 witness 0

  const DIR_MAX_DATA_SIZE: nat := 16 * 1024 * 1024
  const OFFSET_LIMIT: nat := 0x100_0000_0000

  datatype Packed = Packed(w0: Word, w1: Word, w2: Word, w3: Word, w4: Word) {

    function Offset(): nat { w0 + w1 % 0x100 * 0x1_0000 + w4 * 0x100_0000 }

    function BigInternal(): nat { w1 / 0x100 % 4 }

    function SizeInternal(): nat { w1 / 0x400 }

    function Tag(): nat { w2 % 0x1000 }

    predicate Phase() { w2 / 0x1000 % 2 == 1 }

    predicate Head() { w2 / 0x2000 % 2 == 1 }

    function Prev(): Word { w2 }

    function Next(): Word { w3 }

    /** The size class, in bytes: an upper bound of the size it was set from. */
    function ApproxSize(): nat {
      (match BigInternal() case 0 => 512 case 1 => 4096 case 2 => 32768 case _ => 262144) * (SizeInternal() + 1)
    }

    function SetPrev(p: Word): Packed { this.(w2 := p) }

    function SetNext(n: Word): Packed { this.(w3 := n) }

    function SetOffset(offset: nat): Packed {
      this.(w0 := offset % 0x1_0000, w1 := offset / 0x1_0000 % 0x100 + w1 / 0x100 * 0x100, w4 := offset / 0x100_0000 % 0x1_0000)
    }

    /** Clears the two class bits and sets them; the eight offset bits stay. */
    function SetBigInternal(big: nat): Packed
      requires big < 4
    {
      this.(w1 := w1 % 0x100 + big * 0x100 + w1 / 0x400 * 0x400)
    }

    /** The mask keeps the top bit, so this is a field update only while the field is zero. */
    function SetSizeInternal(size: nat): Packed
      requires size < 64 && SizeInternal() == 0
    {
      this.(w1 := w1 % 0x400 + size * 0x400)
    }

    function SetTag(tag: nat): Packed { this.(w2 := w2 / 0x1000 * 0x1000 + tag % 0x1000) }

    function SetPhase(phase: bool): Packed {
      this.(w2 := w2 % 0x1000 + (if phase then 0x1000 else 0) + w2 / 0x2000 * 0x2000)
    }

    /** Only ever called with true on a fresh entry. */
    function SetHead(): Packed {
      this.(w2 := w2 % 0x2000 + 0x2000 + w2 / 0x4000 * 0x4000)
    }

    /** Pick the smallest size class whose unit reaches the size. */
    function SetApproxSize(size: nat): Packed
      requires 0 < size <= DIR_MAX_DATA_SIZE && w1 / 0x100 == 0
    {
      if size <= 512 then SetBigInternal(0).SetSizeInternal((size - 1) / 512)
      else if size <= 4096 then SetBigInternal(1).SetSizeInternal((size - 1) / 4096)
      else if size <= 32768 then SetBigInternal(2).SetSizeInternal((size - 1) / 32768)
      else SetBigInternal(3).SetSizeInternal((size - 1) / 262144)
    }
  }

  const BLANK: Packed := Packed(0, 0, 0, 0, 0)

  /** The entry that a publication stores: every field set on a fresh entry. */
  function Fresh(offset: nat, size: nat, tag: nat, phase: bool): Packed
    requires 0 < size <= DIR_MAX_DATA_SIZE
  {
    BLANK.SetOffset(offset).SetApproxSize(size).SetHead().SetTag(tag).SetPhase(phase)
  }

  /** The second word: eight offset bits, two class bits, six size bits. */
  lemma SecondWord(low: nat, big: nat, size: nat)
    requires low < 0x100 && big < 4 && size < 64
    ensures
      var w := low + big * 0x100 + size * 0x400;
      w < 0x1_0000 && w % 0x100 == low && w / 0x100 % 4 == big && w / 0x400 == size
  {
  }

  /** The third word of an entry in use: tag, phase, head. */
  lemma ThirdWord(tag: nat, phase: bool)
    requires tag < 0x1000
    ensures
      var w := tag + (if phase then 0x1000 else 0) + 0x2000;
      w < 0x1_0000 && w % 0x1000 == tag && (w / 0x1000 % 2 == 1) == phase && w / 0x2000 % 2 == 1
  {
  }

  lemma SplitOffset(offset: nat)
    ensures offset % 0x1_0000 + offset / 0x1_0000 % 0x100 * 0x1_0000 + offset / 0x100_0000 % 0x1_0000 * 0x100_0000 == offset % OFFSET_LIMIT
  {
    var low, a := offset % 0x1_0000, offset / 0x1_0000;
    var middle, b := a % 0x100, a / 0x100;
    var high, rest := b % 0x1_0000, b / 0x1_0000;
    assert offset / 0x100_0000 == b;
    assert offset == low + middle * 0x1_0000 + high * 0x100_0000 + rest * OFFSET_LIMIT;
    Remainder(low + middle * 0x1_0000 + high * 0x100_0000, rest);
  }

  lemma Remainder(v: nat, rest: nat)
    requires v < OFFSET_LIMIT
    ensures (v + rest * OFFSET_LIMIT) % OFFSET_LIMIT == v
  {
  }

  /** The class and the multiple that `SetApproxSize` chooses. */
  function SizeClass(size: nat): (nat, nat)
    requires 0 < size <= DIR_MAX_DATA_SIZE
  {
    if size <= 512 then (0, 0) else if size <= 4096 then (1, 0) else if size <= 32768 then (2, 0)
    else (3, (size - 1) / 262144)
  }

  lemma SizeWord(d: Packed, size: nat)
    requires 0 < size <= DIR_MAX_DATA_SIZE && d.w1 / 0x100 == 0
    ensures d.SetApproxSize(size) == d.(w1 := d.w1 + SizeClass(size).0 * 0x100 + SizeClass(size).1 * 0x400)
  {
    var (big, multiple) := SizeClass(size);
    SecondWord(d.w1, big, 0);
  }

  /** Setting the size keeps the offset bits it shares a word with, and never rounds down. */
  lemma SizeKeepsOffset(d: Packed, size: nat)
    requires 0 < size <= DIR_MAX_DATA_SIZE && d.w1 / 0x100 == 0
    ensures d.SetApproxSize(size) == d.(w1 := d.w1 + SizeClass(size).0 * 0x100 + SizeClass(size).1 * 0x400)
    ensures d.SetApproxSize(size).Offset() == d.Offset()
    ensures size <= d.SetApproxSize(size).ApproxSize() < size + 262144
    ensures size <= 512 ==> d.SetApproxSize(size).ApproxSize() == 512
  {
    var (big, multiple) := SizeClass(size);
    SizeWord(d, size);
    SecondWord(d.w1, big, multiple);
  }

  /** The size that an entry remembers: the next class, or a multiple of the largest. */
  function RoundedUp(size: nat): nat
    requires 0 < size
  {
    if size <= 512 then 512 else if size <= 4096 then 4096 else if size <= 32768 then 32768
    else ((size - 1) / 262144 + 1) * 262144
  }

  lemma SizeReadsBack(d: Packed, size: nat)
    requires 0 < size <= DIR_MAX_DATA_SIZE && d.w1 / 0x100 == 0
    ensures d.SetApproxSize(size).ApproxSize() == RoundedUp(size)
  {
    var (big, multiple) := SizeClass(size);
    SizeWord(d, size);
    SecondWord(d.w1, big, multiple);
    var e := d.SetApproxSize(size);
    assert e.BigInternal() == big && e.SizeInternal() == multiple;
  }

  /** Head, tag and phase set one after the other on an empty third word. */
  lemma ThirdWordSet(d: Packed, tag: nat, phase: bool)
    requires d.w2 == 0
    ensures d.SetHead().SetTag(tag).SetPhase(phase) == d.(w2 := tag % 0x1000 + (if phase then 0x1000 else 0) + 0x2000)
  {
    var d1 := d.SetHead();
    assert d1 == d.(w2 := 0x2000);
    assert d1.SetTag(tag) == d.(w2 := 0x2000 + tag % 0x1000);
  }

  lemma FreshWords(offset: nat, size: nat, tag: nat, phase: bool)
    requires 0 < size <= DIR_MAX_DATA_SIZE
    ensures
      var d0, d := BLANK.SetOffset(offset), Fresh(offset, size, tag, phase);
      && d0.w1 / 0x100 == 0
      && d == d0.SetApproxSize(size).(w2 := tag % 0x1000 + (if phase then 0x1000 else 0) + 0x2000)
  {
    var d0 := BLANK.SetOffset(offset);
    SizeWord(d0, size);
    ThirdWordSet(d0.SetApproxSize(size), tag, phase);
  }

  /** Tag, phase and link of a stored entry can be read back. */
  lemma FreshTag(offset: nat, size: nat, tag: nat, phase: bool)
    requires 0 < size <= DIR_MAX_DATA_SIZE
    ensures
      var d := Fresh(offset, size, tag, phase);
      d.Tag() == tag % 0x1000 && d.Phase() == phase && d.Head() && d.Next() == 0
  {
    FreshWords(offset, size, tag, phase);
    ThirdWord(tag % 0x1000, phase);
    SizeKeepsOffset(BLANK.SetOffset(offset), size);
  }

  /** So can its offset, exactly if it fits in 40 bits; the size is rounded up. */
  lemma FreshSize(offset: nat, size: nat, tag: nat, phase: bool)
    requires 0 < size <= DIR_MAX_DATA_SIZE
    ensures
      var d := Fresh(offset, size, tag, phase);
      && (d.Offset() == offset <==> offset < OFFSET_LIMIT)
      && d.ApproxSize() == RoundedUp(size) && size <= d.ApproxSize() < size + 262144
  {
    FreshWords(offset, size, tag, phase);
    OffsetReadsBack(offset);
    OffsetFits(offset);
    var d0 := BLANK.SetOffset(offset);
    SizeKeepsOffset(d0, size);
    SizeReadsBack(d0, size);
    SameSize(d0.SetApproxSize(size), Fresh(offset, size, tag, phase));
  }

  lemma OffsetFits(offset: nat)
    ensures offset % OFFSET_LIMIT == offset <==> offset < OFFSET_LIMIT
  {
  }

  lemma OffsetReadsBack(offset: nat)
    ensures BLANK.SetOffset(offset).Offset() == offset % OFFSET_LIMIT
  {
    SplitOffset(offset);
  }

  /** Offset and size are in the first, second and last word. */
  lemma SameSize(d: Packed, e: Packed)
    requires d.w0 == e.w0 && d.w1 == e.w1 && d.w4 == e.w4
    ensures d.Offset() == e.Offset() && d.ApproxSize() == e.ApproxSize()
  {
  }

  // ------------------------------------------------------------ as a record

  /** Forty bits, and eight bits. */
  type Offset = x: int | 0 <= x < OFFSET_LIMIT

  type SizeBits = x: int | 0 <= x < 0x100

  /**
   An entry as a record. `size` holds the class and its multiple; `link` is the
   third word, which is tag and flags in an entry in use and the back link of
   the free list in an unused one.
   */
  datatype Dir = Dir(offset: Offset, size: SizeBits, link: Word, next: Word) {

    /** Whether the entry is in use; a cleared one has offset zero. */
    predicate Used() { offset != 0 }

    function Tag(): nat { link % 0x1000 }

    predicate Phase() { link / 0x1000 % 2 == 1 }

    function SetPrev(p: Word): Dir { this.(link := p) }

    function SetNext(n: Word): Dir { this.(next := n) }
  }

  const EMPTY: Dir := Dir(0, 0, 0, 0)

  function Unpack(p: Packed): Dir {
    Dir(p.Offset(), p.w1 / 0x100, p.w2, p.w3)
  }

  function Pack(d: Dir): Packed {
    Packed(d.offset % 0x1_0000, d.offset / 0x1_0000 % 0x100 + d.size * 0x100, d.link, d.next, d.offset / 0x100_0000)
  }

  /** The packed form holds the same information as the record. */
  lemma PackUnpack(d: Dir)
    ensures Unpack(Pack(d)) == d
  {
    SplitOffset(d.offset);
    OffsetFits(d.offset);
    assert d.offset / 0x100_0000 % 0x1_0000 == d.offset / 0x100_0000;
    var low := d.offset / 0x1_0000 % 0x100;
    assert (low + d.size * 0x100) % 0x100 == low && (low + d.size * 0x100) / 0x100 == d.size;
  }

  /** On packed entries the link setters and the tag and phase getters are those of the record. */
  lemma UnpackAgrees(p: Packed, w: Word)
    ensures Unpack(p.SetNext(w)) == Unpack(p).SetNext(w)
    ensures Unpack(p.SetPrev(w)) == Unpack(p).SetPrev(w)
    ensures p.Tag() == Unpack(p).Tag() && p.Phase() == Unpack(p).Phase()
    ensures p.Prev() == Unpack(p).link && p.Next() == Unpack(p).next
    ensures Unpack(BLANK) == EMPTY
  {
  }

  /** What a publication stores, as a record: tag, phase and link, */
  lemma FreshUnpackedTag(offset: nat, size: nat, tag: nat, phase: bool)
    requires 0 < size <= DIR_MAX_DATA_SIZE && tag < 0x1000
    ensures
      var d := Unpack(Fresh(offset, size, tag, phase));
      d.next == 0 && d.Tag() == tag && d.Phase() == phase
  {
    FreshWords(offset, size, tag, phase);
    SizeKeepsOffset(BLANK.SetOffset(offset), size);
    TagFits(tag);
    ThirdWord(tag, phase);
  }

  lemma TagFits(tag: nat)
    requires tag < 0x1000
    ensures tag % 0x1000 == tag
  {
  }

  /** and offset: it is an entry in use. */
  lemma FreshUnpackedOffset(offset: nat, size: nat, tag: nat, phase: bool)
    requires 0 < offset < OFFSET_LIMIT && 0 < size <= DIR_MAX_DATA_SIZE
    ensures
      var d := Unpack(Fresh(offset, size, tag, phase));
      d.Used() && d.offset == offset
  {
    FreshSize(offset, size, tag, phase);
  }

  /**
   A back link written into an entry that is in use replaces its tag and phase
   and nothing else; they survive only if the link happens to spell them.
   */
  lemma BackLinkReplacesTag(d: Dir, p: Word)
    ensures d.SetPrev(p).Used() == d.Used() && d.SetPrev(p).next == d.next
    ensures d.SetPrev(p).Tag() == p % 0x1000 && d.SetPrev(p).Phase() == (p / 0x1000 % 2 == 1)
    ensures d.SetPrev(p) == d <==> p == d.link
  {
  }

  // ------------------------------------------------------------ storing words

  /** Little-endian, as the directory is stored. */
  function WordBytes(w: Word): seq<Octet> {
    [w % 0x100, w / 0x100]
  }

  function Bytes(d: Packed): (s: seq<Octet>)
    ensures |s| == 10
  {
    WordBytes(d.w0) + WordBytes(d.w1) + WordBytes(d.w2) + WordBytes(d.w3) + WordBytes(d.w4)
  }

  function WordAt(s: seq<Octet>, i: nat): Word
    requires i + 2 <= |s|
  {
    var high: int := s[i + 1];
    s[i] + high * 0x100
  }

  function FromBytes(s: seq<Octet>): Packed
    requires |s| == 10
  {
    Packed(WordAt(s, 0), WordAt(s, 2), WordAt(s, 4), WordAt(s, 6), WordAt(s, 8))
  }

  lemma BytesReadBack(d: Packed)
    ensures FromBytes(Bytes(d)) == d
  {
  }
}
