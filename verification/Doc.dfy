/**
 The document header in front of every stored fragment: 72 bytes, big-endian,
 with a checksum over the header itself, the metadata and the body.
 */
module Doc {
  import opened Common

  const HEADER_SIZE: nat := 72
  const DOC_MAGIC: nat := 0x5F129B13
  const IDENTITY_VERSION: nat := 3
  const AGG_BUFFER_SIZE: nat := 4194304
  const TARGET_FRAGMENT_SIZE: nat := 1048576
  const WORD: nat := 0x1_0000_0000

  // ------------------------------------------------------ big-endian numbers

  function Power(n: nat): (p: nat)
    ensures p > 0
  {
    if n == 0 then 1 else 256 * Power(n - 1)
  }

  function BigEndian(n: nat, x: nat): (s: seq<Octet>)
    ensures |s| == n
  {
    if n == 0 then [] else BigEndian(n - 1, x / 256) + [x % 256]
  }

  function Number(s: seq<Octet>): nat {
    if s == [] then 0 else Number(s[..|s| - 1]) * 256 + s[|s| - 1]
  }

  lemma {:induction false} NumberReadsBack(n: nat, x: nat)
    requires x < Power(n)
    ensures Number(BigEndian(n, x)) == x
  {
    if n > 0 {
      NumberReadsBack(n - 1, x / 256);
      assert BigEndian(n, x)[..n - 1] == BigEndian(n - 1, x / 256);
    }
  }

  lemma Widths()
    ensures Power(1) == 0x100 && Power(4) == WORD && Power(8) == WORD * WORD
  {
    assert Power(2) == 256 * Power(1) && Power(3) == 256 * Power(2) && Power(5) == 256 * Power(4);
    assert Power(6) == 256 * Power(5) && Power(7) == 256 * Power(6);
  }

  // ------------------------------------------------------------- the header

  datatype Header = Header(
    magic: nat,
    len: nat,
    totalLen: nat,
    firstKey: seq<Octet>,
    key: seq<Octet>,
    hlen: nat,
    docType: nat,
    vMajor: nat,
    vMinor: nat,
    unused: nat,
    syncSerial: nat,
    writeSerial: nat,
    pinned: nat,
    checksum: nat)

  /** Every field fits its width. */
  predicate HeaderOk(h: Header) {
    && h.magic < WORD && h.len < WORD && h.totalLen < WORD * WORD && |h.firstKey| == |h.key| == 16
    && h.hlen < WORD && h.docType < 0x100 && h.vMajor < 0x100 && h.vMinor < 0x100 && h.unused < 0x100
    && h.syncSerial < WORD && h.writeSerial < WORD && h.pinned < WORD && h.checksum < WORD
  }

  /** Lengths and keys: the first 48 bytes. */
  function Front(h: Header): (s: seq<Octet>)
    ensures |s| == 16 + |h.firstKey| + |h.key|
  {
    BigEndian(4, h.magic) + BigEndian(4, h.len) + BigEndian(8, h.totalLen) + h.firstKey + h.key
  }

  /** Metadata length and versions. */
  function Middle(h: Header): (s: seq<Octet>)
    ensures |s| == 8
  {
    BigEndian(4, h.hlen) + BigEndian(1, h.docType) + BigEndian(1, h.vMajor) + BigEndian(1, h.vMinor) + BigEndian(1, h.unused)
  }

  /** Serials and checksum. */
  function Last(h: Header): (s: seq<Octet>)
    ensures |s| == 16
  {
    BigEndian(4, h.syncSerial) + BigEndian(4, h.writeSerial) + BigEndian(4, h.pinned) + BigEndian(4, h.checksum)
  }

  function Encode(h: Header): seq<Octet> { Front(h) + Middle(h) + Last(h) }

  function Field(s: seq<Octet>, at: nat, size: nat): nat
    requires at + size <= |s|
  {
    Number(s[at..at + size])
  }

  function Decode(s: seq<Octet>): Header
    requires |s| >= HEADER_SIZE
  {
    Header(Field(s, 0, 4), Field(s, 4, 4), Field(s, 8, 8), s[16..32], s[32..48], Field(s, 48, 4),
           Field(s, 52, 1), Field(s, 53, 1), Field(s, 54, 1), Field(s, 55, 1),
           Field(s, 56, 4), Field(s, 60, 4), Field(s, 64, 4), Field(s, 68, 4))
  }

  lemma FrontReadsBack(h: Header, rest: seq<Octet>)
    requires HeaderOk(h) && |rest| >= 24
    ensures
      var d := Decode(Front(h) + rest);
      d.magic == h.magic && d.len == h.len && d.totalLen == h.totalLen && d.firstKey == h.firstKey && d.key == h.key
  {
    Widths();
    var s := Front(h) + rest;
    NumberReadsBack(4, h.magic);
    NumberReadsBack(4, h.len);
    NumberReadsBack(8, h.totalLen);
    assert s[0..4] == BigEndian(4, h.magic);
    assert s[4..8] == BigEndian(4, h.len);
    assert s[8..16] == BigEndian(8, h.totalLen);
    assert s[16..32] == h.firstKey;
    assert s[32..48] == h.key;
  }

  lemma MiddleReadsBack(h: Header, front: seq<Octet>, rest: seq<Octet>)
    requires HeaderOk(h) && |front| == 48 && |rest| >= 16
    ensures
      var d := Decode(front + Middle(h) + rest);
      d.hlen == h.hlen && d.docType == h.docType && d.vMajor == h.vMajor && d.vMinor == h.vMinor && d.unused == h.unused
  {
    Widths();
    var s, b := front + Middle(h) + rest, Middle(h);
    NumberReadsBack(4, h.hlen);
    NumberReadsBack(1, h.docType);
    NumberReadsBack(1, h.vMajor);
    NumberReadsBack(1, h.vMinor);
    NumberReadsBack(1, h.unused);
    assert s[48..52] == b[0..4] == BigEndian(4, h.hlen);
    assert s[52..53] == b[4..5] == BigEndian(1, h.docType);
    assert s[53..54] == b[5..6] == BigEndian(1, h.vMajor);
    assert s[54..55] == b[6..7] == BigEndian(1, h.vMinor);
    assert s[55..56] == b[7..8] == BigEndian(1, h.unused);
  }

  lemma LastReadsBack(h: Header, front: seq<Octet>, rest: seq<Octet>)
    requires HeaderOk(h) && |front| == 56
    ensures
      var d := Decode(front + Last(h) + rest);
      d.syncSerial == h.syncSerial && d.writeSerial == h.writeSerial && d.pinned == h.pinned && d.checksum == h.checksum
  {
    Widths();
    var s, b := front + Last(h) + rest, Last(h);
    NumberReadsBack(4, h.syncSerial);
    NumberReadsBack(4, h.writeSerial);
    NumberReadsBack(4, h.pinned);
    NumberReadsBack(4, h.checksum);
    assert s[56..60] == b[0..4] == BigEndian(4, h.syncSerial);
    assert s[60..64] == b[4..8] == BigEndian(4, h.writeSerial);
    assert s[64..68] == b[8..12] == BigEndian(4, h.pinned);
    assert s[68..72] == b[12..16] == BigEndian(4, h.checksum);
  }

  /** Decoding undoes encoding, whatever follows the header. */
  lemma HeaderReadsBack(h: Header, rest: seq<Octet>)
    requires HeaderOk(h)
    ensures Decode(Encode(h) + rest) == h
  {
    var s := Encode(h) + rest;
    assert s == Front(h) + (Middle(h) + Last(h) + rest);
    FrontReadsBack(h, Middle(h) + Last(h) + rest);
    assert s == Front(h) + Middle(h) + (Last(h) + rest);
    MiddleReadsBack(h, Front(h), Last(h) + rest);
    LastReadsBack(h, Front(h) + Middle(h), rest);
  }

  lemma {:induction false} NumberWritesBack(s: seq<Octet>)
    ensures BigEndian(|s|, Number(s)) == s
  {
    if s != [] {
      var front, last := s[..|s| - 1], s[|s| - 1];
      NumberWritesBack(front);
      assert Number(s) / 256 == Number(front) && Number(s) % 256 == last;
      assert s == front + [last];
    }
  }

  lemma FieldWritesBack(s: seq<Octet>, at: nat, size: nat)
    requires at + size <= |s|
    ensures BigEndian(size, Field(s, at, size)) == s[at..at + size]
  {
    NumberWritesBack(s[at..at + size]);
  }

  lemma FrontWritesBack(s: seq<Octet>)
    requires |s| >= HEADER_SIZE
    ensures Front(Decode(s)) == s[..48]
  {
    FieldWritesBack(s, 0, 4);
    FieldWritesBack(s, 4, 4);
    FieldWritesBack(s, 8, 8);
    JoinSlices(s, 0, 4, 8);
    JoinSlices(s, 0, 8, 16);
    JoinSlices(s, 0, 16, 32);
    JoinSlices(s, 0, 32, 48);
  }

  lemma MiddleWritesBack(s: seq<Octet>)
    requires |s| >= HEADER_SIZE
    ensures Middle(Decode(s)) == s[48..56]
  {
    FieldWritesBack(s, 48, 4);
    FieldWritesBack(s, 52, 1);
    FieldWritesBack(s, 53, 1);
    FieldWritesBack(s, 54, 1);
    FieldWritesBack(s, 55, 1);
    JoinSlices(s, 48, 52, 53);
    JoinSlices(s, 48, 53, 54);
    JoinSlices(s, 48, 54, 55);
    JoinSlices(s, 48, 55, 56);
  }

  lemma LastWritesBack(s: seq<Octet>)
    requires |s| >= HEADER_SIZE
    ensures Last(Decode(s)) == s[56..72]
  {
    FieldWritesBack(s, 56, 4);
    FieldWritesBack(s, 60, 4);
    FieldWritesBack(s, 64, 4);
    FieldWritesBack(s, 68, 4);
    JoinSlices(s, 56, 60, 64);
    JoinSlices(s, 56, 64, 68);
    JoinSlices(s, 56, 68, 72);
  }

  /** Encoding undoes decoding: no byte of the header is lost. */
  lemma HeaderWritesBack(s: seq<Octet>)
    requires |s| >= HEADER_SIZE
    ensures Encode(Decode(s)) == s[..HEADER_SIZE]
  {
    FrontWritesBack(s);
    MiddleWritesBack(s);
    LastWritesBack(s);
    JoinSlices(s, 0, 48, 56);
    JoinSlices(s, 0, 56, 72);
  }

  // ----------------------------------------------------------- the checksum

  type Crc = seq<Octet> -> nat

  /** The checksum covers the header without its checksum, the metadata and the body. */
  function Checksum(crc: Crc, h: Header, payload: seq<Octet>): nat {
    if h.len < HEADER_SIZE || h.len - HEADER_SIZE > |payload| then 0
    else crc(Encode(h.(checksum := 0)) + payload[..h.len - HEADER_SIZE])
  }

  predicate Accepts(crc: Crc, h: Header, buf: seq<Octet>) {
    && |buf| >= HEADER_SIZE
    && h.magic == DOC_MAGIC && h.vMajor == IDENTITY_VERSION && h.vMinor == 0 && h.unused == 0
    && HEADER_SIZE <= h.len <= AGG_BUFFER_SIZE && h.len <= |buf| && h.hlen <= h.len - HEADER_SIZE
    && h.len - HEADER_SIZE - h.hlen <= TARGET_FRAGMENT_SIZE
    && h.checksum == Checksum(crc, h, buf[HEADER_SIZE..])
  }

  function Seal(crc: Crc, h: Header, payload: seq<Octet>): Header {
    h.(checksum := Checksum(crc, h, payload))
  }

  /** A sealed document is read back and accepted, also when the read covers some bytes after it. */
  lemma SealedIsAccepted(crc: Crc, h: Header, payload: seq<Octet>, slack: seq<Octet>)
    requires HeaderOk(Seal(crc, h, payload))
    requires h.magic == DOC_MAGIC && h.vMajor == IDENTITY_VERSION && h.vMinor == 0 && h.unused == 0
    requires h.len == HEADER_SIZE + |payload| <= AGG_BUFFER_SIZE
    requires h.hlen <= |payload| <= h.hlen + TARGET_FRAGMENT_SIZE
    ensures
      var buf := Encode(Seal(crc, h, payload)) + payload + slack;
      Decode(buf) == Seal(crc, h, payload) && Accepts(crc, Decode(buf), buf) && buf[HEADER_SIZE..h.len] == payload
  {
    var sealed := Seal(crc, h, payload);
    var buf := Encode(sealed) + payload + slack;
    assert buf == Encode(sealed) + (payload + slack);
    HeaderReadsBack(sealed, payload + slack);
    assert |Encode(sealed)| == HEADER_SIZE;
    assert buf[HEADER_SIZE..] == payload + slack;
    assert (payload + slack)[..|payload|] == payload == payload[..|payload|];
    assert sealed.(checksum := 0) == h.(checksum := 0);
  }

  lemma {:induction false} NumberFits(s: seq<Octet>)
    ensures Number(s) < Power(|s|)
  {
    if s != [] {
      NumberFits(s[..|s| - 1]);
    }
  }

  lemma DecodedFits(s: seq<Octet>)
    requires |s| >= HEADER_SIZE
    ensures HeaderOk(Decode(s))
  {
    Widths();
    NumberFits(s[0..4]); NumberFits(s[4..8]); NumberFits(s[8..16]); NumberFits(s[48..52]);
    NumberFits(s[52..53]); NumberFits(s[53..54]); NumberFits(s[54..55]); NumberFits(s[55..56]);
    NumberFits(s[56..60]); NumberFits(s[60..64]); NumberFits(s[64..68]); NumberFits(s[68..72]);
  }

  /** A header as a writer fills it in for this metadata and body, in version 3 and within the limits on both. */
  predicate Written(h: Header, payload: seq<Octet>) {
    && h.magic == 0x5F129B13 && h.vMajor == 3 && h.vMinor == 0 && h.unused == 0
    && h.len == 72 + |payload| <= 4194304 && h.hlen <= |payload| <= h.hlen + 1048576
  }

  predicate IsDocument(crc: Crc, buf: seq<Octet>, h: Header, payload: seq<Octet>, slack: seq<Octet>) {
    Written(h, payload) && HeaderOk(Seal(crc, h, payload)) && buf == Encode(Seal(crc, h, payload)) + payload + slack
  }

  /** A buffer is accepted exactly if it begins with a document that a writer could have sealed. */
  lemma AcceptsExactly(crc: Crc, buf: seq<Octet>)
    requires |buf| >= HEADER_SIZE
    ensures Accepts(crc, Decode(buf), buf) <==> exists h, payload, slack :: IsDocument(crc, buf, h, payload, slack)
  {
    if Accepts(crc, Decode(buf), buf) {
      AcceptedIsDocument(crc, buf);
    }
    if h, payload, slack :| IsDocument(crc, buf, h, payload, slack) {
      SealedIsAccepted(crc, h, payload, slack);
    }
  }

  lemma AcceptedIsDocument(crc: Crc, buf: seq<Octet>)
    requires |buf| >= HEADER_SIZE && Accepts(crc, Decode(buf), buf)
    ensures var h := Decode(buf); IsDocument(crc, buf, h, buf[HEADER_SIZE..h.len], buf[h.len..])
  {
    var h := Decode(buf);
    var payload, slack := buf[HEADER_SIZE..h.len], buf[h.len..];
    DecodedFits(buf);
    HeaderWritesBack(buf);
    assert buf[HEADER_SIZE..][..h.len - HEADER_SIZE] == payload == payload[..|payload|];
    assert Seal(crc, h, payload) == h;
    assert buf == buf[..HEADER_SIZE] + payload + slack;
  }

  /** The bytes that the checksum covers. */
  function Covered(h: Header, body: seq<Octet>): seq<Octet> {
    Encode(h.(checksum := 0)) + body
  }

  /** The covered bytes tell documents apart that have the same checksum field. */
  lemma CoveredTellsApart(h1: Header, body1: seq<Octet>, h2: Header, body2: seq<Octet>)
    requires HeaderOk(h1) && HeaderOk(h2) && h1.checksum == h2.checksum
    ensures Covered(h1, body1) == Covered(h2, body2) <==> h1 == h2 && body1 == body2
  {
    var a, b := Covered(h1, body1), Covered(h2, body2);
    if a == b {
      HeaderReadsBack(h1.(checksum := 0), body1);
      HeaderReadsBack(h2.(checksum := 0), body2);
      assert h1 == h1.(checksum := 0).(checksum := h2.checksum);
      assert body1 == a[HEADER_SIZE..] && body2 == b[HEADER_SIZE..];
    }
  }

  /**
   A buffer that carries the checksum of a sealed document but another header or
   other bytes is accepted only if the checksum has a collision: two different
   byte strings, the covered bytes of both, with one value.
   */
  lemma ChangesAreDetected(crc: Crc, h: Header, payload: seq<Octet>, buf: seq<Octet>)
    requires HeaderOk(Seal(crc, h, payload)) && h.len == HEADER_SIZE + |payload| && |buf| >= HEADER_SIZE
    requires
      var d, sealed := Decode(buf), Seal(crc, h, payload);
      && Accepts(crc, d, buf) && d.checksum == sealed.checksum
      && (d != sealed || buf[HEADER_SIZE..d.len] != payload)
    ensures
      var a, b := Covered(Decode(buf), buf[HEADER_SIZE..Decode(buf).len]), Covered(h, payload);
      a != b && crc(a) == crc(b)
  {
    var d, sealed := Decode(buf), Seal(crc, h, payload);
    DecodedFits(buf);
    CoveredTellsApart(d, buf[HEADER_SIZE..d.len], sealed, payload);
    assert sealed.(checksum := 0) == h.(checksum := 0);
    assert buf[HEADER_SIZE..][..d.len - HEADER_SIZE] == buf[HEADER_SIZE..d.len];
    assert payload[..|payload|] == payload;
  }
}
