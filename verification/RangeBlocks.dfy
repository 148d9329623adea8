/**
 Byte ranges served from cached blocks: which bytes a range header selects, and
 the assembly of those bytes from blocks of a fixed size.
 */
module RangeBlocks {
  import opened Common

  datatype Bounds = Bounds(start: nat, end: nat)

  const MAX_INT64: nat := 0x7FFF_FFFF_FFFF_FFFF

  // ------------------------------------------------------------- the header

  /** A decimal number that fits 64 signed bits; signs and blanks are refused. */
  function Decimal(s: string): Option<nat> {
    if s != [] && AllDigits(s) && DecimalValue(s) <= MAX_INT64 then Some(DecimalValue(s)) else None
  }

  /** Where the first dash is, or the length. */
  function Dash(s: string): (i: nat)
    ensures i <= |s| && (i < |s| ==> s[i] == '-') && forall j | 0 <= j < i :: s[j] != '-'
  {
    if s == [] then 0 else if s[0] == '-' then 0 else 1 + Dash(s[1..])
  }

  const UNIT: string := "bytes="

  function Spec(header: string): string {
    if UNIT <= header then header[|UNIT|..] else header
  }

  function RangeBounds(header: string, total: nat): Option<Bounds> {
    var value := Spec(header);
    var i := Dash(value);
    if i == |value| then None
    else
      var left, right := value[..i], value[i + 1..];
      if left == [] then
        var suffix := Decimal(right);
        if suffix.None? || suffix.value == 0 || total == 0 then None
        else Some(Bounds(if total > suffix.value then total - suffix.value else 0, total - 1))
      else
        var start := Decimal(left);
        if start.None? || start.value >= total then None
        else if right == [] then Some(Bounds(start.value, total - 1))
        else
          var end := Decimal(right);
          if end.None? || end.value < start.value then None
          else Some(Bounds(start.value, if end.value < total - 1 then end.value else total - 1))
  }

  /** A full response selects everything. */
  function RequestedBlockBounds(header: string, total: nat, full: bool): Option<Bounds> {
    if full && total > 0 then Some(Bounds(0, total - 1)) else RangeBounds(header, total)
  }

  /** A full response encloses byte `i` exactly if there is one, whatever the header says; any other goes by the header. */
  lemma FullIsEverything(header: string, total: nat, i: int)
    ensures RequestedBlockBounds(header, total, true).Some? <==> total > 0
    ensures total > 0 ==> (RequestedBlockBounds(header, total, true).value.start <= i <= RequestedBlockBounds(header, total, true).value.end <==> 0 <= i < total)
    ensures RequestedBlockBounds(header, total, false) == RangeBounds(header, total)
  {
  }

  /** A byte range as section 14.1.2 of RFC 9110 defines it. */
  datatype ByteRange = FromTo(first: nat, last: nat) | From(first: nat) | Suffix(length: nat)

  function Text(r: ByteRange, digits: nat -> string): string {
    match r
    case FromTo(first, last) => digits(first) + "-" + digits(last)
    case From(first) => digits(first) + "-"
    case Suffix(length) => "-" + digits(length)
  }

  /** Whether a range selects byte `i` of a representation of `total` bytes. */
  predicate Selects(r: ByteRange, total: nat, i: int) {
    && 0 <= i < total
    && match r
       case FromTo(first, last) => first <= i <= last
       case From(first) => first <= i
       case Suffix(length) => i >= total - length
  }

  predicate Invalid(r: ByteRange) { r.FromTo? && r.last < r.first }

  /** Decimal digits whose value is the number, leading zeros or not. */
  predicate Writes(digits: nat -> string, n: nat) {
    digits(n) != [] && AllDigits(digits(n)) && DecimalValue(digits(n)) == n
  }

  predicate Written(digits: nat -> string, r: ByteRange) {
    match r
    case FromTo(first, last) => Writes(digits, first) && Writes(digits, last)
    case From(first) => Writes(digits, first)
    case Suffix(length) => Writes(digits, length)
  }

  /** Every number of the range fits 64 signed bits. */
  predicate Representable(r: ByteRange) {
    match r
    case FromTo(first, last) => first <= MAX_INT64 && last <= MAX_INT64
    case From(first) => first <= MAX_INT64
    case Suffix(length) => length <= MAX_INT64
  }

  lemma DashAfter(left: string, right: string)
    requires AllDigits(left)
    ensures Dash(left + "-" + right) == |left|
  {
    var s := left + "-" + right;
    assert s[|left|] == '-';
    assert forall j | 0 <= j < |left| :: s[j] == left[j];
  }

  /** Reading back the text of a range. */
  lemma TextParts(left: string, right: string)
    requires AllDigits(left)
    ensures
      var s := "bytes=" + left + "-" + right;
      Spec(s) == left + "-" + right && Dash(Spec(s)) == |left| && Spec(s)[..|left|] == left && Spec(s)[|left| + 1..] == right
  {
    var s := "bytes=" + left + "-" + right;
    assert s[..6] == "bytes=" && s[6..] == left + "-" + right;
    DashAfter(left, right);
  }

  /**
   There are bounds exactly if the range is valid, selects a byte and is
   representable, and they enclose exactly the selected bytes.
   */
  ghost predicate Exact(r: ByteRange, total: nat, b: Option<Bounds>) {
    && (b.Some? <==> !Invalid(r) && Representable(r) && exists i :: Selects(r, total, i))
    && (b.Some? ==> b.value.start <= b.value.end < total)
    && (b.Some? ==> forall i :: b.value.start <= i <= b.value.end <==> Selects(r, total, i))
  }

  lemma FromToIsSelected(first: nat, last: nat, digits: nat -> string, total: nat)
    requires Writes(digits, first) && Writes(digits, last)
    ensures Exact(FromTo(first, last), total, RangeBounds("bytes=" + digits(first) + "-" + digits(last), total))
  {
    TextParts(digits(first), digits(last));
    assert first < total && first <= last ==> Selects(FromTo(first, last), total, first);
  }

  lemma FromIsSelected(first: nat, digits: nat -> string, total: nat)
    requires Writes(digits, first)
    ensures Exact(From(first), total, RangeBounds("bytes=" + digits(first) + "-" + [], total))
  {
    TextParts(digits(first), []);
    assert first < total ==> Selects(From(first), total, first);
  }

  lemma SuffixIsSelected(length: nat, digits: nat -> string, total: nat)
    requires Writes(digits, length)
    ensures Exact(Suffix(length), total, RangeBounds("bytes=" + [] + "-" + digits(length), total))
  {
    TextParts([], digits(length));
    assert length > 0 && total > 0 ==> Selects(Suffix(length), total, total - 1);
  }

  /**
   The header of any range, in any decimal notation, is accepted exactly when
   the range is valid, selects a byte and writes no number above 64 signed bits,
   and the bounds enclose exactly the bytes that it selects.
   */
  lemma BoundsAreSelected(r: ByteRange, digits: nat -> string, total: nat)
    requires Written(digits, r)
    ensures Exact(r, total, RangeBounds("bytes=" + Text(r, digits), total))
  {
    match r
    case FromTo(first, last) =>
      assert "bytes=" + (digits(first) + "-" + digits(last)) == "bytes=" + digits(first) + "-" + digits(last);
      FromToIsSelected(first, last, digits, total);
    case From(first) =>
      assert "bytes=" + (digits(first) + "-") == "bytes=" + digits(first) + "-" + [];
      FromIsSelected(first, digits, total);
    case Suffix(length) =>
      assert "bytes=" + ("-" + digits(length)) == "bytes=" + [] + "-" + digits(length);
      SuffixIsSelected(length, digits, total);
  }

  lemma PrefixStep(s: string, k: nat)
    requires AllDigits(s) && k < |s|
    ensures DecimalValue(s[..k + 1]) == DecimalValue(s[..k]) * 10 + ((s[k] as int) - ('0' as int))
  {
    assert s[..k + 1][..k] == s[..k];
  }

  const BEYOND := "9223372036854775808"

  lemma BeyondDigits(s: string)
    requires s == BEYOND
    ensures |s| == 19 && AllDigits(s) && s[..0] == []
  {
  }

  lemma BeyondFirst(s: string)
    requires s == BEYOND
    ensures AllDigits(s) && DecimalValue(s[..7]) == 9223372
  {
    BeyondDigits(s);
    BeyondStart(s, s[..0]);
    PrefixStep(s, 3);
    PrefixStep(s, 4);
    PrefixStep(s, 5);
    PrefixStep(s, 6);
  }

  lemma BeyondStart(s: string, none: string)
    requires s == BEYOND && AllDigits(s) && none == s[..0] == []
    ensures DecimalValue(s[..3]) == 922
  {
    assert DecimalValue(none) == 0;
    PrefixStep(s, 0);
    PrefixStep(s, 1);
    PrefixStep(s, 2);
  }

  lemma BeyondSecond(s: string)
    requires s == BEYOND
    ensures AllDigits(s) && DecimalValue(s[..13]) == 9223372036854
  {
    BeyondFirst(s);
    PrefixStep(s, 7);
    PrefixStep(s, 8);
    PrefixStep(s, 9);
    PrefixStep(s, 10);
    PrefixStep(s, 11);
    PrefixStep(s, 12);
  }

  lemma BeyondValue(s: string)
    requires s == BEYOND
    ensures AllDigits(s) && DecimalValue(s[..19]) == 9223372036854775808
  {
    BeyondSecond(s);
    PrefixStep(s, 13);
    PrefixStep(s, 14);
    PrefixStep(s, 15);
    PrefixStep(s, 16);
    PrefixStep(s, 17);
    PrefixStep(s, 18);
  }

  lemma LargeEndIsRefused(left: string, right: string, header: string, total: nat)
    requires AllDigits(left) && left != [] && AllDigits(right) && right != [] && DecimalValue(right) > MAX_INT64
    requires header == "bytes=" + left + "-" + right
    ensures RangeBounds(header, total) == None
  {
    TextParts(left, right);
  }

  /**
   A valid range whose last byte lies beyond 64 signed bits selects every byte of
   an object and is refused all the same.
   */
  lemma LargeRangeIsRefused(header: string, total: nat)
    requires header == "bytes=0-9223372036854775808" && 0 < total <= MAX_INT64
    ensures
      var r := FromTo(0, MAX_INT64 + 1);
      !Invalid(r) && (forall i | 0 <= i < total :: Selects(r, total, i)) && RangeBounds(header, total) == None
  {
    var left, right := header[6..7], header[8..];
    assert left == "0" && right == BEYOND && right[..19] == right;
    BeyondValue(right);
    assert header == "bytes=" + left + "-" + right;
    LargeEndIsRefused(left, right, header, total);
  }

  /** Whatever the header is, accepted bounds lie inside the object. */
  lemma BoundsAreInside(header: string, total: nat, full: bool)
    ensures
      var b := RequestedBlockBounds(header, total, full);
      b.Some? ==> b.value.start <= b.value.end < total
  {
  }

  // ------------------------------------------------------------- the blocks

  /** Block `i` of an object; the last one may be short. */
  function Block(body: seq<Octet>, size: nat, i: nat): (b: seq<Octet>)
    requires i * size <= |body|
    ensures |b| == Min(size, |body| - i * size)
  {
    body[i * size..i * size + Min(size, |body| - i * size)]
  }

  lemma IndexBounds(at: nat, size: nat, i: nat)
    requires size > 0 && i == at / size
    ensures i * size <= at < (i + 1) * size && (i + 1) * size == i * size + size
  {
  }

  lemma Ordered(size: nat, i: nat, j: nat)
    requires i <= j
    ensures i * size <= j * size
  {
  }

  /** How far the response has got when all blocks before `i` have been sent. */
  function Sent(size: nat, start: nat, end: nat, i: nat): nat
    requires start <= end
  {
    SentAt(start, end, i * size)
  }

  function SentAt(start: nat, end: nat, p: nat): nat
    requires start <= end
  {
    if p <= start then start else Min(p, end + 1)
  }

  /** The same for a block that begins at byte `p`. */
  lemma PartAt(body: seq<Octet>, size: nat, start: nat, end: nat, p: nat)
    requires size > 0 && start <= end < |body| && p <= end && start < p + size
    ensures
      var data := body[p..p + Min(size, |body| - p)];
      var low, high := Max(start - p, 0), Min(end - p + 1, |data|);
      && 0 <= low < high <= |data|
      && body[start..SentAt(start, end, p)] + data[low..high] == body[start..SentAt(start, end, p + size)]
  {
    var stop := p + Min(size, |body| - p);
    var data := body[p..stop];
    var low, high := Max(start - p, 0), Min(end - p + 1, |data|);
    assert p + low == SentAt(start, end, p) && p + high == SentAt(start, end, p + size);
    SliceOfSlice(body, p, stop, low, high);
    JoinSlices(body, start, p + low, p + high);
  }

  lemma SliceOfSlice(s: seq<Octet>, a: nat, b: nat, low: nat, high: nat)
    requires a <= b <= |s| && low <= high <= b - a
    ensures s[a..b][low..high] == s[a + low..a + high]
  {
    assert forall i | 0 <= i < high - low :: s[a..b][low..high][i] == s[a + low..a + high][i];
  }

  /** The part of block `i` that belongs to the range continues the response without gap or overlap. */
  lemma NextPart(body: seq<Octet>, size: nat, start: nat, end: nat, i: nat)
    requires size > 0 && start <= end < |body| && start / size <= i <= end / size
    ensures i * size <= end
    ensures
      var data := Block(body, size, i);
      var low, high := Max(start - i * size, 0), Min(end - i * size + 1, |data|);
      && 0 <= low < high <= |data|
      && body[start..Sent(size, start, end, i)] + data[low..high] == body[start..Sent(size, start, end, i + 1)]
  {
    IndexBounds(start, size, start / size);
    IndexBounds(end, size, end / size);
    Ordered(size, i, end / size);
    Ordered(size, start / size + 1, i + 1);
    assert (i + 1) * size == i * size + size;
    PartAt(body, size, start, end, i * size);
  }

  /**
   Stream a range block by block.  `fetch` gives a block or fails, and a failure
   ends the response early: what has been sent is a prefix of the range.
   */
  method ServeBlocks(start: nat, end: nat, size: nat, fetch: nat -> Option<seq<Octet>>, ghost body: seq<Octet>)
    returns (out: seq<Octet>, complete: bool)
    requires size > 0 && start <= end < |body|
    requires forall i: nat | i * size <= |body| && fetch(i).Some? :: fetch(i).value == Block(body, size, i)
    ensures out <= body[start..end + 1]
    ensures complete ==> out == body[start..end + 1]
    ensures complete <==> forall i: nat | start / size <= i <= end / size :: fetch(i).Some?
  {
    var first, last := start / size, end / size;
    Begins(size, start, end);
    out := [];
    var i := first;
    while i <= last
      invariant first <= i <= last + 1
      invariant start <= Sent(size, start, end, i) <= end + 1 && out == body[start..Sent(size, start, end, i)]
      invariant forall j: nat | first <= j < i :: fetch(j).Some?
    {
      NextPart(body, size, start, end, i);
      var data := fetch(i);
      if data.None? {
        return out, false;
      }
      var low, high := Max(start - i * size, 0), Min(end - i * size + 1, |data.value|);
      out := out + data.value[low..high];
      i := i + 1;
    }
    complete := true;
  }

  /** Nothing is sent before the first block and everything after the last. */
  lemma Begins(size: nat, start: nat, end: nat)
    requires size > 0 && start <= end
    ensures start / size <= end / size
    ensures Sent(size, start, end, start / size) == start && Sent(size, start, end, end / size + 1) == end + 1
  {
    IndexBounds(start, size, start / size);
    IndexBounds(end, size, end / size);
    if start / size > end / size {
      Ordered(size, end / size + 1, start / size);
    }
  }

  // --------------------------------------------------------------- the space

  const METADATA: nat := 65536
  const RESERVE: nat := 1048576

  /** Space for one block with its metadata. */
  function Need(total: nat, size: nat, i: nat): nat
    requires i * size <= total
  {
    Min(size, total - i * size) + METADATA
  }

  /**
   The current block and the next one, which is fetched ahead, fit their
   stripes; on one stripe they fit together.
   */
  predicate FitsAhead(start: nat, end: nat, total: nat, size: nat, place: nat -> Option<nat>, area: nat -> nat)
    requires size > 0 && start <= end < total
  {
    var i := start / size;
    IndexBounds(start, size, i);
    var here := place(i);
    && here.Some? && Need(total, size, i) + RESERVE <= area(here.value)
    && (i < end / size ==>
      (IndexBounds(end, size, end / size);
       Ordered(size, i + 1, end / size);
       var there := place(i + 1);
       && there.Some?
       && Need(total, size, i + 1) + (if there == here then Need(total, size, i) else 0) + RESERVE <= area(there.value)))
  }

  /** Add up the space per stripe, block by block. */
  method RangeFits(start: nat, end: nat, total: nat, size: nat, place: nat -> Option<nat>, area: nat -> nat) returns (fits: bool)
    requires size > 0 && start <= end < total
    ensures fits <==> FitsAhead(start, end, total, size, place, area)
  {
    var first, last := start / size, end / size;
    IndexBounds(start, size, first);
    IndexBounds(end, size, last);
    Begins(size, start, end);
    var required: map<nat, nat> := map[];
    var i := first;
    while i <= Min(first + 1, last)
      invariant first <= i <= Min(first + 1, last) + 1
      invariant i == first ==> required == map[]
      invariant i == first + 1 ==> place(first).Some? && required == map[place(first).value := Need(total, size, first)]
      invariant i > first ==> place(first).Some? && Need(total, size, first) + RESERVE <= area(place(first).value)
      invariant i > first + 1 ==> FitsAhead(start, end, total, size, place, area)
    {
      Ordered(size, i, last);
      var stripe := place(i);
      if stripe.None? {
        return false;
      }
      var sum := (if stripe.value in required then required[stripe.value] else 0) + Need(total, size, i);
      required := required[stripe.value := sum];
      if sum + RESERVE > area(stripe.value) {
        return false;
      }
      i := i + 1;
    }
    fits := true;
  }
}
