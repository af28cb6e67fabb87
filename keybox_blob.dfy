/**
  Field extraction from keybox blob images (kbx/keybox-search.c, the static
  helpers before the search API).

  A blob image is the byte string returned by _keybox_get_blob_image; its
  length is |image|.  The C helpers read fixed-layout big-endian fields and
  guard every read with a test of the form `x + n > length`.  Here every read
  of the image is recorded, as a Span, in the helper's Traced result, so
  "every byte read lies inside the image" is the statement
  AllInside(r.trace, |image|).

  Record layout of an X.509 blob (all integers big-endian):
    4                        blob type (1 byte)
    8, 12                    certificate offset and length (4 bytes each)
    16, 18                   nkeys, keyinfolen (2 bytes each)
    20 + keyinfolen*nkeys    nserial (2 bytes), then nserial serial bytes
    then                     nuids, uidinfolen (2 bytes each), then nuids
                             entries of uidinfolen bytes, each starting with
                             a 4-byte name offset and a 4-byte stored length
                             (name length + 1; 0 means "not stored")
*/
module KeyboxBlob {
  import opened Wrappers
  import opened Bytes

  /** BLOBTYPE_X509 of kbx/keybox-defs.h. */
  const BlobTypeX509: int := 3
  /** Images shorter than the fixed header are never interpreted. */
  const MinBlobLength: nat := 40
  const MinKeyInfoLen: nat := 28
  const MinUidInfoLen: nat := 12
  /** size_t and ulong are 32 bits wide on the modelled target. */
  const Word: nat := 0x1_0000_0000

  /** Unsigned 32-bit wrap-around of a size_t sum or product. */
  function Wrap(x: nat): (r: nat)
    ensures r < Word
    ensures x < Word ==> r == x
    ensures Word <= x < 2 * Word ==> r == x - Word
  {
    x % Word
  }

  /** get16: the shift-and-or of two octets, which occupy disjoint bit lanes. */
  function Get16(b: seq<byte>, off: nat): (r: nat)
    requires off + 2 <= |b|
    ensures r < 0x1_0000
  {
    b[off] as int * 256 + b[off + 1]
  }

  /** get32: the shift-and-or of four octets, most significant first. */
  function Get32(b: seq<byte>, off: nat): (r: nat)
    requires off + 4 <= |b|
    ensures r < Word
  {
    ((b[off] as int * 256 + b[off + 1]) * 256 + b[off + 2]) * 256 + b[off + 3]
  }

  /** get16 decodes the two octets at off as a big-endian integer. */
  lemma Get16IsBigEndian(b: seq<byte>, off: nat)
    requires off + 2 <= |b|
    ensures Get16(b, off) == BeValue(b[off..off + 2])
  {
    var s := b[off..off + 2];
    assert s[..1][..0] == [] && s[..1] == [b[off]] && s[1] == b[off + 1];
    assert BeValue(s[..1]) == b[off];
  }

  /** get32 decodes the four octets at off as a big-endian integer. */
  lemma Get32IsBigEndian(b: seq<byte>, off: nat)
    requires off + 4 <= |b|
    ensures Get32(b, off) == BeValue(b[off..off + 4])
  {
    var s := b[off..off + 4];
    assert s[..3] == b[off..off + 3] && s[..3][..2] == b[off..off + 2];
    Get16IsBigEndian(b, off);
  }

  /**
    Reads made by the C helpers: a span of bytes at an offset from the start of
    the image.  A helper's trace lists its reads in the order the C code makes
    them; a read is safe when its span lies inside the image.
  */
  datatype Span = Span(pos: nat, len: nat)

  datatype Traced<+T> = Traced(v: T, trace: seq<Span>)

  predicate Inside(s: Span, length: nat)
  {
    s.pos + s.len <= length
  }

  predicate AllInside(trace: seq<Span>, length: nat)
  {
    forall i :: 0 <= i < |trace| ==> Inside(trace[i], length)
  }

  /**
    The byte at position i.  The contents of memory past the image are not
    modelled; a read there yields 0, and only its position matters.
  */
  function ByteAt(image: seq<byte>, i: nat): byte
  {
    if i < |image| then image[i] else 0
  }

  /** get16 (buffer + pos), wherever pos lies. */
  function Peek16(image: seq<byte>, pos: nat): (r: nat)
    ensures pos + 2 <= |image| ==> r == Get16(image, pos)
  {
    ByteAt(image, pos) as int * 256 + ByteAt(image, pos + 1)
  }

  /** get32 (buffer + pos), wherever pos lies. */
  function Peek32(image: seq<byte>, pos: nat): (r: nat)
    ensures pos + 4 <= |image| ==> r == Get32(image, pos)
  {
    Peek16(image, pos) * 0x1_0000 + Peek16(image, pos + 2)
  }

  /** The n bytes at buffer + pos, wherever pos lies. */
  function PeekBytes(image: seq<byte>, pos: nat, n: nat): (r: seq<byte>)
    ensures pos + n <= |image| ==> r == image[pos..pos + n]
  {
    if pos + n <= |image| then image[pos..pos + n]
    else seq<byte>(n, i requires 0 <= i < n => ByteAt(image, pos + i))
  }

  // ---------------------------------------------------------------------
  // Reference decoding of the record layout, written with direct indexing.

  /** The user-ID table: where its entries start, how many, and their stride. */
  datatype UidTable = UidTable(pos: nat, nuids: nat, uidinfolen: nat)

  /** Position of the serial-number length, when the header and key table fit. */
  function SerialLengthPos(image: seq<byte>): Option<nat>
  {
    if |image| < MinBlobLength then None
    else
      var nkeys := Get16(image, 16);
      var keyinfolen := Get16(image, 18);
      if keyinfolen < MinKeyInfoLen || 20 + keyinfolen * nkeys + 2 > |image| then None
      else Some(20 + keyinfolen * nkeys)
  }

  /** The stored serial number, when it lies inside the image. */
  function StoredSerial(image: seq<byte>): Option<seq<byte>>
  {
    match SerialLengthPos(image)
    case None => None
    case Some(pos) =>
      var nserial := Get16(image, pos);
      if pos + 2 + nserial > |image| then None
      else Some(image[pos + 2..pos + 2 + nserial])
  }

  /**
    The user-ID table header that follows the serial number whose length
    sits at pos, when it fits and its stride is at least the minimum.
  */
  function UidTableHeader(image: seq<byte>, pos: nat): Option<UidTable>
    requires pos + 2 <= |image|
  {
    var p := pos + 2 + Get16(image, pos);
    if p + 4 > |image| then None
    else
      var uidinfolen := Get16(image, p + 2);
      if uidinfolen < MinUidInfoLen then None
      else Some(UidTable(p + 4, Get16(image, p), uidinfolen))
  }

  /** A user-ID table all of whose nuids entries lie inside an image of the given length. */
  predicate TableFits(t: UidTable, length: nat)
  {
    t.uidinfolen >= MinUidInfoLen && t.pos + t.uidinfolen * t.nuids <= length
  }

  /** The user-ID table, when the serial, the table header and all nuids entries fit. */
  function StoredUidTable(image: seq<byte>): (r: Option<UidTable>)
    ensures r.Some? ==> TableFits(r.value, |image|)
  {
    match SerialLengthPos(image)
    case None => None
    case Some(pos) =>
      match UidTableHeader(image, pos)
      case None => None
      case Some(t) => if TableFits(t, |image|) then Some(t) else None
  }

  /** Entry idx < nuids of a table that fits lies inside the image, with room for its 8 bytes. */
  lemma EntryFits(t: UidTable, idx: nat, length: nat)
    requires TableFits(t, length) && idx < t.nuids
    ensures t.pos + idx * t.uidinfolen + 8 <= length
  {
    assert (idx + 1) * t.uidinfolen <= t.nuids * t.uidinfolen by {
      var k := t.nuids - (idx + 1);
      assert t.nuids * t.uidinfolen == (idx + 1) * t.uidinfolen + k * t.uidinfolen;
    }
  }

  /** The name stored in entry idx of a table that fits (see StoredUserId). */
  function UserIdAt(image: seq<byte>, t: UidTable, idx: nat): Option<seq<byte>>
    requires TableFits(t, |image|)
  {
    if idx >= t.nuids then None
    else
      EntryFits(t, idx, |image|);
      var entry := t.pos + idx * t.uidinfolen;
      var off := Get32(image, entry);
      var len := Get32(image, entry + 4);
      if off + len > |image| || len < 2 then None
      else Some(image[off..off + len - 1])
  }

  /**
    The stored name of user ID idx (index 0 is the issuer): None when there is
    no such entry, when its (offset, length) pair leaves the image, or when the
    stored length is 0 (not stored) or 1 (empty name).
  */
  function StoredUserId(image: seq<byte>, idx: nat): Option<seq<byte>>
  {
    match StoredUidTable(image)
    case None => None
    case Some(t) => UserIdAt(image, t, idx)
  }

  // ---------------------------------------------------------------------
  // The C helpers, read by read.

  /** blob_get_type: -1 for an image shorter than the header, else the type byte. */
  function BlobGetType(image: seq<byte>): (t: int)
    ensures t == -1 <==> |image| < MinBlobLength
    ensures |image| >= MinBlobLength ==> t == image[4]
  {
    if |image| < MinBlobLength then -1 else image[4]
  }

  /** A query serial: a 4-byte big-endian length followed by at least that many bytes. */
  predicate IsSerialQuery(sn: seq<byte>)
  {
    |sn| >= 4 && 4 + Get32(sn, 0) <= |sn|
  }

  /** The serial number a query announces. */
  function QuerySerial(sn: seq<byte>): seq<byte>
    requires IsSerialQuery(sn)
  {
    sn[4..4 + Get32(sn, 0)]
  }

  /** A trace made of two traces stays inside the image when both do. */
  lemma AllInsideConcat(a: seq<Span>, b: seq<Span>, length: nat)
    requires AllInside(a, length) && AllInside(b, length)
    ensures AllInside(a + b, length)
  {
    forall i | 0 <= i < |a + b|
      ensures Inside((a + b)[i], length)
    {
      if i >= |a| {
        assert (a + b)[i] == b[i - |a|];
      }
    }
  }

  /**
    The checks blob_cmp_sn and blob_cmp_name both start with: the header is
    present, keyinfolen is at least 28 and the key table leaves room for the
    serial length.  The result is where the serial length sits.
  */
  function KeyTableStage(image: seq<byte>): (r: Traced<Option<nat>>)
    ensures AllInside(r.trace, |image|)
    ensures r.v == SerialLengthPos(image)
  {
    if |image| < MinBlobLength then Traced(None, [])
    else
      var nkeys := Peek16(image, 16);
      var keyinfolen := Peek16(image, 18);
      var trace := [Span(16, 2), Span(18, 2)];
      if keyinfolen < MinKeyInfoLen then Traced(None, trace)
      else
        var pos := 20 + keyinfolen * nkeys;
        if pos + 2 > |image| then Traced(None, trace)
        else Traced(Some(pos), trace)
  }

  /**
    blob_cmp_sn: every read stays inside the image, and the answer is true
    exactly when the blob stores a serial number equal, in length and in
    bytes, to the one the query announces.
  */
  function BlobCmpSn(image: seq<byte>, sn: seq<byte>): (r: Traced<bool>)
    requires IsSerialQuery(sn)
    ensures AllInside(r.trace, |image|)
    ensures r.v <==> StoredSerial(image) == Some(QuerySerial(sn))
  {
    var snlen := Get32(sn, 0);
    var k := KeyTableStage(image);
    match k.v
    case None => Traced(false, k.trace)
    case Some(pos) =>
      var nserial := Peek16(image, pos);
      var off := pos + 2;
      var trace := k.trace + [Span(pos, 2)];
      AllInsideConcat(k.trace, [Span(pos, 2)], |image|);
      if off + nserial > |image| then Traced(false, trace)
      else if nserial != snlen then
        assert |QuerySerial(sn)| == snlen;
        Traced(false, trace)
      else
        AllInsideConcat(trace, [Span(off, nserial)], |image|);
        Traced(PeekBytes(image, off, nserial) == sn[4..4 + snlen], trace + [Span(off, nserial)])
  }

  /**
    blob_cmp_name after the serial: reads nuids and uidinfolen and checks the
    stride.  The result is the user-ID table header.
  */
  function UidHeaderStage(image: seq<byte>, pos: nat): (r: Traced<Option<UidTable>>)
    requires pos + 2 <= |image|
    ensures AllInside(r.trace, |image|)
    ensures r.v == UidTableHeader(image, pos)
  {
    var nserial := Peek16(image, pos);
    var p := pos + 2 + nserial;
    if p + 4 > |image| then Traced(None, [Span(pos, 2)])
    else
      var nuids := Peek16(image, p);
      var uidinfolen := Peek16(image, p + 2);
      var trace := [Span(pos, 2), Span(p, 2), Span(p + 2, 2)];
      if uidinfolen < MinUidInfoLen then Traced(None, trace)
      else Traced(Some(UidTable(p + 4, nuids, uidinfolen)), trace)
  }

  /**
    blob_cmp_name on a table that fits, with the index guard tightened to
    idx >= nuids: reads the (offset, length) pair of entry idx and compares
    the stored name.
  */
  function UidEntryStage(image: seq<byte>, t: UidTable, idx: nat, name: seq<byte>): (r: Traced<bool>)
    requires TableFits(t, |image|)
    ensures AllInside(r.trace, |image|)
    ensures r.v <==> UserIdAt(image, t, idx) == Some(name)
  {
    if idx >= t.nuids then Traced(false, [])
    else
      EntryFits(t, idx, |image|);
      var entry := t.pos + idx * t.uidinfolen;
      var off := Peek32(image, entry);
      var len := Peek32(image, entry + 4);
      var trace := [Span(entry, 4), Span(entry + 4, 4)];
      if off + len > |image| then Traced(false, trace)
      else if len < 2 then Traced(false, trace)
      else if len - 1 != |name| then Traced(false, trace)
      else Traced(PeekBytes(image, off, len - 1) == name, trace + [Span(off, len - 1)])
  }

  /**
    blob_cmp_name with the user-ID index guard tightened to idx >= nuids:
    every read stays inside the image, and the answer is true exactly when
    user ID idx is stored with exactly the bytes of name.
  */
  function BlobCmpName(image: seq<byte>, idx: nat, name: seq<byte>): (r: Traced<bool>)
    ensures AllInside(r.trace, |image|)
    ensures r.v <==> StoredUserId(image, idx) == Some(name)
  {
    var k := KeyTableStage(image);
    match k.v
    case None => Traced(false, k.trace)
    case Some(pos) =>
      var u := UidHeaderStage(image, pos);
      AllInsideConcat(k.trace, u.trace, |image|);
      match u.v
      case None => Traced(false, k.trace + u.trace)
      case Some(t) =>
        if !TableFits(t, |image|) then Traced(false, k.trace + u.trace)
        else
          var e := UidEntryStage(image, t, idx, name);
          AllInsideConcat(k.trace + u.trace, e.trace, |image|);
          Traced(e.v, k.trace + u.trace + e.trace)
  }

  /**
    The end of blob_cmp_name as written: the table-end test and the name-range
    test are size_t sums that wrap at 32 bits, and the index guard is
    `idx > nuids`, which lets idx == nuids through.
  */
  function UidEntryStageAsWritten(image: seq<byte>, t: UidTable, idx: nat, name: seq<byte>): Traced<bool>
  {
    if Wrap(t.pos + t.uidinfolen * t.nuids) > |image| then Traced(false, [])
    else if idx > t.nuids then Traced(false, [])
    else
      var entry := Wrap(t.pos + idx * t.uidinfolen);
      var off := Peek32(image, entry);
      var len := Peek32(image, entry + 4);
      var trace := [Span(entry, 4), Span(entry + 4, 4)];
      if Wrap(off + len) > |image| then Traced(false, trace)
      else if len < 2 then Traced(false, trace)
      else if len - 1 != |name| then Traced(false, trace)
      else Traced(PeekBytes(image, off, len - 1) == name, trace + [Span(off, len - 1)])
  }

  /** blob_cmp_name as written (kbx/keybox-search.c:99-148). */
  function BlobCmpNameAsWritten(image: seq<byte>, idx: nat, name: seq<byte>): Traced<bool>
  {
    var k := KeyTableStage(image);
    match k.v
    case None => Traced(false, k.trace)
    case Some(pos) =>
      var u := UidHeaderStage(image, pos);
      match u.v
      case None => Traced(false, k.trace + u.trace)
      case Some(t) =>
        var e := UidEntryStageAsWritten(image, t, idx, name);
        Traced(e.v, k.trace + u.trace + e.trace)
  }

  // ---------------------------------------------------------------------
  // The has_foo helpers used by the search.

  /** has_fingerprint: a stub that never matches. */
  function HasFingerprint(image: seq<byte>, fpr: seq<byte>): (r: bool)
    ensures !r
  {
    false
  }

  /** has_issuer: an X.509 blob whose issuer (user ID 0) is exactly name; a NULL name never matches. */
  function HasIssuer(image: seq<byte>, name: Option<seq<byte>>): (r: bool)
    ensures r <==> name.Some? && BlobGetType(image) == BlobTypeX509
                   && StoredUserId(image, 0) == Some(name.value)
  {
    if name.None? then false
    else if BlobGetType(image) != BlobTypeX509 then false
    else BlobCmpName(image, 0, name.value).v
  }

  /**
    has_issuer_sn: an X.509 blob whose serial number is the one the query
    announces and whose issuer is exactly name; a NULL argument never matches.
  */
  function HasIssuerSn(image: seq<byte>, name: Option<seq<byte>>, sn: Option<seq<byte>>): (r: bool)
    requires sn.Some? ==> IsSerialQuery(sn.value)
    ensures r <==> name.Some? && sn.Some? && BlobGetType(image) == BlobTypeX509
                   && StoredSerial(image) == Some(QuerySerial(sn.value))
                   && StoredUserId(image, 0) == Some(name.value)
  {
    if name.None? || sn.None? then false
    else if BlobGetType(image) != BlobTypeX509 then false
    else BlobCmpSn(image, sn.value).v && BlobCmpName(image, 0, name.value).v
  }

  // ---------------------------------------------------------------------
  // How blob_cmp_name as written differs from the corrected one.

  /** The (offset, length) pair of entry idx adds up to less than 2^32. */
  predicate NameRangeBelowWord(image: seq<byte>, t: UidTable, idx: nat)
    requires TableFits(t, |image|) && idx < t.nuids
  {
    EntryFits(t, idx, |image|);
    var entry := t.pos + idx * t.uidinfolen;
    Get32(image, entry) + Get32(image, entry + 4) < Word
  }

  /** The entry stage as written agrees with the corrected one below nuids when nothing wraps. */
  lemma EntryStageAsWrittenAgrees(image: seq<byte>, t: UidTable, idx: nat, name: seq<byte>)
    requires |image| < Word && TableFits(t, |image|) && idx < t.nuids
    requires NameRangeBelowWord(image, t, idx)
    ensures UidEntryStageAsWritten(image, t, idx, name) == UidEntryStage(image, t, idx, name)
  {
    EntryFits(t, idx, |image|);
  }

  /**
    Where the table fits without wrapping and idx < nuids, blob_cmp_name as
    written and the corrected one agree unless the name range wraps at 32 bits.
  */
  lemma CmpNameAsWrittenAgrees(image: seq<byte>, idx: nat, name: seq<byte>)
    requires |image| < Word
    requires StoredUidTable(image).Some? && idx < StoredUidTable(image).value.nuids
    requires NameRangeBelowWord(image, StoredUidTable(image).value, idx)
    ensures BlobCmpNameAsWritten(image, idx, name) == BlobCmpName(image, idx, name)
  {
    var t := StoredUidTable(image).value;
    EntryStageAsWrittenAgrees(image, t, idx, name);
  }

  /** When the table header is read, blob_cmp_name as written reads whatever its entry stage reads. */
  lemma AsWrittenReadsEntry(image: seq<byte>, idx: nat, name: seq<byte>)
    requires SerialLengthPos(image).Some?
    requires UidTableHeader(image, SerialLengthPos(image).value).Some?
    ensures var t := UidTableHeader(image, SerialLengthPos(image).value).value;
            var e := UidEntryStageAsWritten(image, t, idx, name);
            forall i :: 0 <= i < |e.trace| ==> e.trace[i] in BlobCmpNameAsWritten(image, idx, name).trace
  {
    var pos := SerialLengthPos(image).value;
    var t := UidTableHeader(image, pos).value;
    var k := KeyTableStage(image);
    var u := UidHeaderStage(image, pos);
    var e := UidEntryStageAsWritten(image, t, idx, name);
    assert BlobCmpNameAsWritten(image, idx, name).trace == k.trace + u.trace + e.trace;
    forall i | 0 <= i < |e.trace|
      ensures e.trace[i] in k.trace + u.trace + e.trace
    {
      assert (k.trace + u.trace + e.trace)[|k.trace| + |u.trace| + i] == e.trace[i];
    }
  }

  /**
    has_issuer on a 40-byte X.509 blob with no user IDs (nkeys 0,
    keyinfolen 28, a 10-byte serial, nuids 0, uidinfolen 12, so the empty
    table ends at the end of the image): the guard `idx > nuids` lets index
    0 through and the length word of the missing entry is read from bytes
    40..43, past the end; the corrected version finds no issuer.
  */
  lemma IssuerLookupOverReads(image: seq<byte>, name: seq<byte>)
    requires |image| == 40 && image[4] == 3
    requires image[16] == 0 && image[17] == 0 && image[18] == 0 && image[19] == 28
    requires image[20] == 0 && image[21] == 10
    requires image[32] == 0 && image[33] == 0 && image[34] == 0 && image[35] == 12
    ensures BlobGetType(image) == BlobTypeX509
    ensures StoredUidTable(image) == Some(UidTable(36, 0, 12))
    ensures Span(40, 4) in BlobCmpNameAsWritten(image, 0, name).trace
    ensures StoredUserId(image, 0) == None
  {
    assert SerialLengthPos(image) == Some(20);
    assert UidTableHeader(image, 20) == Some(UidTable(36, 0, 12));
    AsWrittenReadsEntry(image, 0, name);
    assert UidEntryStageAsWritten(image, UidTable(36, 0, 12), 0, name).trace[1] == Span(40, 4);
  }

  /**
    has_issuer on a 48-byte X.509 blob whose single user ID claims offset
    0xFFFFFFFF and length 5, asked for a 4-byte name: the 32-bit sum is 4,
    so blob_cmp_name as written compares 4 bytes at offset 0xFFFFFFFF; the
    corrected range test rejects the entry without reading it.
  */
  lemma IssuerLookupWrapsNameRange(image: seq<byte>, name: seq<byte>)
    requires |image| == 48 && image[4] == 3 && |name| == 4
    requires image[16] == 0 && image[17] == 0 && image[18] == 0 && image[19] == 28
    requires image[20] == 0 && image[21] == 0
    requires image[22] == 0 && image[23] == 1 && image[24] == 0 && image[25] == 12
    requires image[26..30] == [0xFF, 0xFF, 0xFF, 0xFF] && image[30..34] == [0, 0, 0, 5]
    ensures BlobGetType(image) == BlobTypeX509
    ensures StoredUidTable(image) == Some(UidTable(26, 1, 12))
    ensures Span(0xFFFF_FFFF, 4) in BlobCmpNameAsWritten(image, 0, name).trace
    ensures StoredUserId(image, 0) == None
  {
    assert SerialLengthPos(image) == Some(20);
    assert UidTableHeader(image, 20) == Some(UidTable(26, 1, 12));
    assert Get32(image, 26) == 0xFFFF_FFFF by {
      assert image[26] == 0xFF && image[27] == 0xFF && image[28] == 0xFF && image[29] == 0xFF;
    }
    assert Get32(image, 30) == 5 by {
      assert image[30] == 0 && image[31] == 0 && image[32] == 0 && image[33] == 5;
    }
    AsWrittenReadsEntry(image, 0, name);
    assert Wrap(0xFFFF_FFFF + 5) == 4;
    assert UidEntryStageAsWritten(image, UidTable(26, 1, 12), 0, name).trace[2] == Span(0xFFFF_FFFF, 4);
  }
}
