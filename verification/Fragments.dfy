/**
 An object is cut into fragments of one mebibyte.  Fragment 0 carries the
 metadata and the total length; a later fragment carries the offset at which it
 ends.  All fragments of one write carry the same version.
 */
module Fragments {
  import opened Common
  import opened Doc

  type Key = seq<Octet>

  /** What the hash of a key and a fragment number stands for; number 0 is the key itself. */
  datatype FragmentKey = FragmentKey(first: Key, index: nat)

  datatype Fragment = Fragment(id: FragmentKey, version: nat, totalLen: nat, info: seq<Octet>, data: seq<Octet>)

  // --------------------------------------------------- fragments of an object

  /** An empty object still has fragment 0. */
  function Count(total: nat): (n: nat)
    ensures n >= 1 && (total > 0 ==> (n - 1) * TARGET_FRAGMENT_SIZE < total <= n * TARGET_FRAGMENT_SIZE)
  {
    if total == 0 then 1 else (total - 1) / TARGET_FRAGMENT_SIZE + 1
  }

  /** The bytes of fragment `i`. */
  function Piece(stream: seq<Octet>, i: nat): (s: seq<Octet>)
    requires i * TARGET_FRAGMENT_SIZE <= |stream|
    ensures |s| == Min(TARGET_FRAGMENT_SIZE, |stream| - i * TARGET_FRAGMENT_SIZE)
  {
    stream[i * TARGET_FRAGMENT_SIZE..Min((i + 1) * TARGET_FRAGMENT_SIZE, |stream|)]
  }

  function FragmentOf(key: Key, version: nat, info: seq<Octet>, stream: seq<Octet>, i: nat): Fragment
    requires i * TARGET_FRAGMENT_SIZE <= |stream|
  {
    var data := Piece(stream, i);
    if i == 0 then Fragment(FragmentKey(key, 0), version, |stream|, info, data)
    else Fragment(FragmentKey(key, i), version, i * TARGET_FRAGMENT_SIZE + |data|, [], data)
  }

  /** The first `n` pieces in order. */
  function Pieces(stream: seq<Octet>, n: nat): seq<Octet>
    requires n == 0 || (n - 1) * TARGET_FRAGMENT_SIZE <= |stream|
  {
    if n == 0 then [] else Pieces(stream, n - 1) + Piece(stream, n - 1)
  }

  lemma {:induction false} PiecesAre(stream: seq<Octet>, n: nat)
    requires n == 0 || (n - 1) * TARGET_FRAGMENT_SIZE <= |stream|
    ensures Pieces(stream, n) == stream[..Min(n * TARGET_FRAGMENT_SIZE, |stream|)]
  {
    if n > 0 {
      PiecesAre(stream, n - 1);
    }
  }

  /** The fragments of an object put together again are the object. */
  lemma PiecesAreAll(stream: seq<Octet>)
    ensures Pieces(stream, Count(|stream|)) == stream
  {
    var n := Count(|stream|);
    PiecesAre(stream, n);
    assert Min(n * TARGET_FRAGMENT_SIZE, |stream|) == |stream|;
    assert stream[..|stream|] == stream;
  }

  // ------------------------------------------------------- what a reader checks

  /** The checks a reader makes on fragment `i` of `key`, apart from the version and the object's total length. */
  predicate ShapeOk(f: Fragment, key: Key, i: nat, area: nat) {
    && f.id == FragmentKey(key, i) && f.totalLen <= area && |f.data| <= TARGET_FRAGMENT_SIZE
    && (if i == 0 then |f.data| == Min(f.totalLen, TARGET_FRAGMENT_SIZE)
        else |f.info| == 0 && |f.data| != 0 && f.totalLen == i * TARGET_FRAGMENT_SIZE + |f.data|)
  }

  /** A reader of a committed object also knows its total length from fragment 0. */
  predicate ChainOk(f: Fragment, key: Key, i: nat, total: nat, area: nat) {
    && ShapeOk(f, key, i, area)
    && (i > 0 ==> f.totalLen <= total && |f.data| == Min(TARGET_FRAGMENT_SIZE, total - i * TARGET_FRAGMENT_SIZE))
  }

  /** Every fragment of an object passes every check. */
  lemma FragmentsPass(key: Key, version: nat, info: seq<Octet>, stream: seq<Octet>, i: nat, area: nat)
    requires i < Count(|stream|) && |stream| <= area
    ensures i * TARGET_FRAGMENT_SIZE <= |stream|
    ensures ChainOk(FragmentOf(key, version, info, stream, i), key, i, |stream|, area)
  {
  }

  /** The fragment is number `i` of an object with these bytes, in some version and with some metadata. */
  predicate IsFragment(f: Fragment, key: Key, i: nat, stream: seq<Octet>) {
    i * TARGET_FRAGMENT_SIZE <= |stream| && f == FragmentOf(key, f.version, f.info, stream, i)
  }

  /** Some object of `total` bytes that has `data` from byte `at` on. */
  function Around(data: seq<Octet>, at: nat, total: nat): (stream: seq<Octet>)
    requires at + |data| <= total
    ensures |stream| == total && stream[at..at + |data|] == data
  {
    seq(total, j requires 0 <= j < total => if at <= j < at + |data| then data[j - at] else 0)
  }

  /**
   Whatever is on the disk: the checks on fragment `i` of an object of `total`
   bytes accept exactly the fragments that some object of that length has at
   that place, as far as the data area reaches.
   */
  lemma ChecksAcceptExactly(f: Fragment, key: Key, i: nat, total: nat, area: nat)
    requires i < Count(total) && (i == 0 ==> f.totalLen == total)
    ensures ChainOk(f, key, i, total, area) <==>
      f.totalLen <= area && exists stream: seq<Octet> | |stream| == total :: IsFragment(f, key, i, stream)
  {
    if ChainOk(f, key, i, total, area) {
      var stream := Around(f.data, i * TARGET_FRAGMENT_SIZE, total);
      assert Piece(stream, i) == f.data;
      assert IsFragment(f, key, i, stream);
    }
  }

  /**
   A fragment that belongs to a write of `stream`.  The write may still have been
   going on when a later fragment was stored, or have stopped short of its end.
   */
  predicate BelongsTo(f: Fragment, stream: seq<Octet>) {
    && |f.data| <= f.totalLen <= |stream|
    && (if f.id.index == 0 then f.totalLen == |stream| && f.data <= stream
        else f.totalLen == f.id.index * TARGET_FRAGMENT_SIZE + |f.data| && f.data == stream[f.totalLen - |f.data|..f.totalLen])
  }

  /** What a writer stores belongs to everything it will have written in the end. */
  lemma StoredBelongs(key: Key, version: nat, info: seq<Octet>, stream: seq<Octet>, more: seq<Octet>, i: nat)
    requires i * TARGET_FRAGMENT_SIZE <= |stream| && (i == 0 ==> more == [])
    ensures BelongsTo(FragmentOf(key, version, info, stream, i), stream + more)
  {
    if i == 0 {
      assert stream + more == stream;
    }
  }

  /** A fragment of the right write that passes the checks holds exactly its piece. */
  lemma PassingIsPiece(f: Fragment, key: Key, i: nat, stream: seq<Octet>, area: nat)
    requires ChainOk(f, key, i, |stream|, area) && BelongsTo(f, stream)
    ensures i * TARGET_FRAGMENT_SIZE <= |stream| && f.data == Piece(stream, i)
    ensures i == 0 ==> f.totalLen == |stream|
  {
  }

  // -------------------------------------------------------------- on the disk

  /** The header that goes in front of a fragment. */
  function HeaderOf(f: Fragment, docKey: FragmentKey -> seq<Octet>): Header {
    Header(DOC_MAGIC, HEADER_SIZE + |f.info| + |f.data|, f.totalLen, docKey(FragmentKey(f.id.first, 0)), docKey(f.id),
           |f.info|, 0, IDENTITY_VERSION, 0, 0, f.version / WORD, f.version % WORD, 0, 0)
  }

  function BytesOf(f: Fragment, docKey: FragmentKey -> seq<Octet>, crc: Crc): seq<Octet> {
    Encode(Seal(crc, HeaderOf(f, docKey), f.info + f.data)) + (f.info + f.data)
  }

  /** The stored bytes of a fragment are accepted and give back every part of it. */
  lemma FragmentReadsBack(f: Fragment, docKey: FragmentKey -> seq<Octet>, crc: Crc, slack: seq<Octet>)
    requires HEADER_SIZE + |f.info| + |f.data| <= AGG_BUFFER_SIZE && |f.data| <= TARGET_FRAGMENT_SIZE
    requires f.totalLen < WORD * WORD && f.version < WORD * WORD
    requires |docKey(f.id)| == |docKey(FragmentKey(f.id.first, 0))| == 16
    requires Checksum(crc, HeaderOf(f, docKey), f.info + f.data) < WORD
    ensures
      var buf := BytesOf(f, docKey, crc) + slack;
      && |buf| >= HEADER_SIZE && var h := Decode(buf);
      && Accepts(crc, h, buf)
      && h.key == docKey(f.id) && h.firstKey == docKey(FragmentKey(f.id.first, 0)) && h.totalLen == f.totalLen
      && h.syncSerial * WORD + h.writeSerial == f.version
      && h.hlen == |f.info| && h.len <= |buf| && HEADER_SIZE + h.hlen <= h.len
      && buf[HEADER_SIZE..HEADER_SIZE + h.hlen] == f.info && buf[HEADER_SIZE + h.hlen..h.len] == f.data
  {
    var h, payload := HeaderOf(f, docKey), f.info + f.data;
    var sealed := Seal(crc, h, payload);
    VersionParts(f.version);
    var buf := BytesOf(f, docKey, crc) + slack;
    SealedIsAccepted(crc, h, payload, slack);
    assert buf == Encode(sealed) + payload + slack;
    PayloadParts(buf, f.info, f.data, h.len);
  }

  lemma VersionParts(version: nat)
    requires version < WORD * WORD
    ensures version / WORD < WORD && version % WORD < WORD && version / WORD * WORD + version % WORD == version
  {
  }

  lemma PayloadParts(buf: seq<Octet>, info: seq<Octet>, data: seq<Octet>, end: nat)
    requires HEADER_SIZE <= end <= |buf| && buf[HEADER_SIZE..end] == info + data
    ensures HEADER_SIZE + |info| + |data| == end
    ensures buf[HEADER_SIZE..HEADER_SIZE + |info|] == info && buf[HEADER_SIZE + |info|..end] == data
  {
    var p := buf[HEADER_SIZE..end];
    assert p[..|info|] == info && p[|info|..] == data;
    assert buf[HEADER_SIZE..HEADER_SIZE + |info|] == p[..|info|];
    assert buf[HEADER_SIZE + |info|..end] == p[|info|..];
  }
}
