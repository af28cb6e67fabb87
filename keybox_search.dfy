/**
  The keybox search API (kbx/keybox-search.c:210-441): a search handle
  that walks the blobs of a keybox file and keeps a sticky error, a sticky
  end-of-file flag and the last blob found.

  The keybox file is a BlobStore: the blob images _keybox_read_blob would
  return in file order, whether fopen succeeds, and an optional position at
  which the reader fails.  The open file is the handle's `open` flag and the
  number of blobs already read from it, `cursor`.
*/
module KeyboxSearch {
  import opened Wrappers
  import opened Bytes
  import opened KeyboxBlob

  /** The KEYBOX_* error codes this part of the library returns or passes on. */
  datatype KeyboxError =
    | GeneralError
    | InvalidValue
    | ReadError
    | BlobTooShort
    | BlobTooLarge
    | FileOpenError
    | NothingFound
    | WrongBlobType

  /** An int result of the search API: 0, -1 (no more blobs) or an error code. */
  datatype Rc = Ok | Eof | Error(code: KeyboxError)

  /** KEYDB_SEARCH_MODE_*; Unknown stands for any other value of the mode field. */
  datatype SearchMode =
    | ModeNone | Exact | Substr | Mail | MailSub | MailEnd | Words
    | ShortKid | LongKid | Fpr
    | Issuer | IssuerSn
    | First | Next
    | Unknown(code: int)

  /** A KEYBOX_SEARCH_DESC: the mode and the fields the implemented modes use. */
  datatype SearchDesc = SearchDesc(mode: SearchMode, name: Option<seq<byte>>, sn: Option<seq<byte>>, fpr: seq<byte>)

  /** Modes whose branch in keybox_search is marked never_reached. */
  predicate NeverReached(m: SearchMode)
  {
    m.ModeNone? || m.Exact? || m.Substr? || m.Mail? || m.MailSub? || m.MailEnd? || m.Words?
  }

  /** What callers pass: no never-reached mode, and serial queries that hold the bytes they announce. */
  predicate ValidDescriptors(desc: seq<SearchDesc>)
  {
    forall i :: 0 <= i < |desc| ==>
      !NeverReached(desc[i].mode) && (desc[i].sn.Some? ==> IsSerialQuery(desc[i].sn.value))
  }

  /** The outcome of testing one blob against a descriptor. */
  datatype Verdict = NoMatch | Match | Invalid

  /** One arm of the switch in the matching loop of keybox_search. */
  function DescVerdict(image: seq<byte>, d: SearchDesc): Verdict
    requires d.sn.Some? ==> IsSerialQuery(d.sn.value)
  {
    match d.mode
    case Issuer => if HasIssuer(image, d.name) then Match else NoMatch
    case IssuerSn => if HasIssuerSn(image, d.name, d.sn) then Match else NoMatch
    case Fpr => if HasFingerprint(image, d.fpr) then Match else NoMatch
    case First => Match
    case Next => Match
    case Unknown(_) => Invalid
    case _ => NoMatch
  }

  /** The matching loop over the descriptors: the first arm that does not fall through decides. */
  function BlobVerdict(image: seq<byte>, desc: seq<SearchDesc>): Verdict
    requires ValidDescriptors(desc)
  {
    if |desc| == 0 then NoMatch
    else
      var v := DescVerdict(image, desc[0]);
      if v != NoMatch then v else BlobVerdict(image, desc[1..])
  }

  /** The keybox file as the search sees it. */
  datatype BlobStore = BlobStore(openable: bool, blobs: seq<seq<byte>>, failAt: Option<nat>, failure: KeyboxError)

  /** What _keybox_read_blob yields at a position of the file. */
  datatype ReadOutcome = Blob(image: seq<byte>) | AtEof | ReadFailed(code: KeyboxError)

  function ReadBlob(store: BlobStore, pos: nat): (r: ReadOutcome)
    ensures r.Blob? ==> pos < |store.blobs| && r.image == store.blobs[pos]
  {
    if store.failAt == Some(pos) then ReadFailed(store.failure)
    else if pos < |store.blobs| then Blob(store.blobs[pos])
    else AtEof
  }

  /** How a scan starting at some position ends. */
  datatype ScanEnd = FoundAt(pos: nat) | ExhaustedAt(pos: nat) | FailedAt(pos: nat, code: KeyboxError)

  /** The read loop of keybox_search as a function of the file and the start position. */
  function Scan(store: BlobStore, pos: nat, desc: seq<SearchDesc>): (r: ScanEnd)
    requires ValidDescriptors(desc)
    ensures r.FoundAt? ==> pos <= r.pos < |store.blobs|
    decreases |store.blobs| - pos
  {
    match ReadBlob(store, pos)
    case AtEof => ExhaustedAt(pos)
    case ReadFailed(e) => FailedAt(pos, e)
    case Blob(image) =>
      match BlobVerdict(image, desc)
      case Match => FoundAt(pos)
      case Invalid => FailedAt(pos + 1, InvalidValue)
      case NoMatch => Scan(store, pos + 1, desc)
  }

  /** The fields of a keybox handle that the search API updates. */
  datatype HandleState = HandleState(found: Option<seq<byte>>, open: bool, cursor: nat, error: Option<KeyboxError>, eof: bool)

  /** A handle after keybox_search_reset. */
  const ResetState: HandleState := HandleState(None, false, 0, None, false)

  predicate HasFirst(desc: seq<SearchDesc>)
  {
    exists i :: 0 <= i < |desc| && desc[i].mode.First?
  }

  /** keybox_search on a non-null handle: its return value and the handle's new state. */
  function SearchSpec(store: BlobStore, s: HandleState, desc: seq<SearchDesc>): (Rc, HandleState)
    requires ValidDescriptors(desc)
  {
    var released := s.(found := None);
    if released.error.Some? then (Error(released.error.value), released)
    else if released.eof then (Eof, released)
    else
      SearchFrom(store, if HasFirst(desc) then ResetState else released, desc)
  }

  /** keybox_search once its descriptors have been looked at: open the file if need be, then read. */
  function SearchFrom(store: BlobStore, s: HandleState, desc: seq<SearchDesc>): (Rc, HandleState)
    requires ValidDescriptors(desc)
  {
    if !s.open && !store.openable then (Error(FileOpenError), s.(error := Some(FileOpenError)))
    else
      var start := if s.open then s.cursor else 0;
      match Scan(store, start, desc)
      case FoundAt(k) =>
        (Ok, s.(open := true, cursor := k + 1, found := Some(store.blobs[k])))
      case ExhaustedAt(k) => (Eof, s.(open := true, cursor := k, eof := true))
      case FailedAt(k, e) => (Error(e), s.(open := true, cursor := k, error := Some(e)))
  }

  /** A keybox handle (KEYBOX_HANDLE); `store` is the file its keybox names. */
  class KeyboxHandle {
    const store: BlobStore
    var found: Option<seq<byte>>
    var open: bool
    var cursor: nat
    var error: Option<KeyboxError>
    var eof: bool

    function State(): HandleState
      reads this
    {
      HandleState(found, open, cursor, error, eof)
    }

    constructor (store: BlobStore)
      ensures this.store == store && State() == ResetState
    {
      this.store := store;
      found, open, cursor, error, eof := None, false, 0, None, false;
    }
  }

  /**
    keybox_search_reset: a null handle gives Invalid_Value; otherwise the found
    blob is released, the file closed, error and eof cleared, and 0 returned.
  */
  method SearchReset(hd: KeyboxHandle?) returns (rc: Rc)
    modifies hd
    ensures hd == null ==> rc == Error(InvalidValue)
    ensures hd != null ==> rc == Ok && hd.State() == ResetState
  {
    if hd == null {
      return Error(InvalidValue);
    }
    if hd.found.Some? {
      hd.found := None;
    }
    if hd.open {
      hd.open, hd.cursor := false, 0;
    }
    hd.cursor := 0;
    hd.error := None;
    hd.eof := false;
    return Ok;
  }

  /** The matching loop of keybox_search over the descriptors, for one blob. */
  method MatchBlob(image: seq<byte>, desc: seq<SearchDesc>) returns (verdict: Verdict)
    requires ValidDescriptors(desc)
    ensures verdict == BlobVerdict(image, desc)
  {
    verdict := NoMatch;
    var n := 0;
    while n < |desc| && verdict == NoMatch
      invariant 0 <= n <= |desc|
      invariant BlobVerdict(image, desc) ==
                if verdict == NoMatch then BlobVerdict(image, desc[n..]) else verdict
    {
      assert desc[n..][1..] == desc[n + 1..];
      verdict := DescVerdict(image, desc[n]);
      n := n + 1;
    }
  }

  /**
    The read loop of keybox_search on an open file: reads blobs from the
    cursor on until one matches, the file ends or an error occurs.
  */
  method ReadUntilMatch(hd: KeyboxHandle, desc: seq<SearchDesc>) returns (rc: Rc, blob: Option<seq<byte>>)
    requires ValidDescriptors(desc)
    modifies hd`cursor
    ensures match Scan(hd.store, old(hd.cursor), desc)
            case FoundAt(k) => rc == Ok && hd.cursor == k + 1 && blob == Some(hd.store.blobs[k])
            case ExhaustedAt(k) => rc == Eof && hd.cursor == k
            case FailedAt(k, e) => rc == Error(e) && hd.cursor == k
  {
    ghost var start := hd.cursor;
    blob := None;
    while true
      invariant Scan(hd.store, hd.cursor, desc) == Scan(hd.store, start, desc)
      decreases |hd.store.blobs| - hd.cursor
    {
      blob := None;
      var r := ReadBlob(hd.store, hd.cursor);
      if r.AtEof? {
        return Eof, blob;
      } else if r.ReadFailed? {
        return Error(r.code), blob;
      }
      blob := Some(r.image);
      hd.cursor := hd.cursor + 1;
      var verdict := MatchBlob(r.image, desc);
      if verdict == Match {
        return Ok, blob;
      } else if verdict == Invalid {
        return Error(InvalidValue), blob;
      }
    }
  }

  /**
    keybox_search: returns and leaves the handle as SearchSpec says; the
    lemmas after it state what that means.
  */
  method Search(hd: KeyboxHandle?, desc: seq<SearchDesc>) returns (rc: Rc)
    requires ValidDescriptors(desc)
    modifies hd
    ensures hd == null ==> rc == Error(InvalidValue)
    ensures hd != null ==> (rc, hd.State()) == SearchSpec(hd.store, old(hd.State()), desc)
  {
    if hd == null {
      return Error(InvalidValue);
    }
    ghost var released := hd.State().(found := None);
    // clear last found result
    hd.found := None;
    if hd.error.Some? {
      return Error(hd.error.value);
    }
    if hd.eof {
      return Eof;
    }

    // figure out what information we need
    var n := 0;
    while n < |desc|
      invariant 0 <= n <= |desc|
      invariant hd.State() == if HasFirst(desc[..n]) then ResetState else released
    {
      if desc[n].mode.First? {
        var _ := SearchReset(hd);
      }
      assert desc[..n + 1] == desc[..n] + [desc[n]];
      n := n + 1;
    }
    assert desc[..n] == desc;
    rc := OpenAndRead(hd, desc);
  }

  /** The part of keybox_search after the descriptors are looked at. */
  method OpenAndRead(hd: KeyboxHandle, desc: seq<SearchDesc>) returns (rc: Rc)
    requires ValidDescriptors(desc)
    requires hd.found.None? && hd.error.None? && !hd.eof
    modifies hd
    ensures (rc, hd.State()) == SearchFrom(hd.store, old(hd.State()), desc)
    ensures rc == Ok <==> hd.found.Some?
    ensures rc == Eof <==> hd.eof
    ensures rc.Error? <==> hd.error.Some?
    ensures rc.Error? ==> hd.error == Some(rc.code)
  {
    if !hd.open {
      if !hd.store.openable {
        hd.error := Some(FileOpenError);
        return Error(FileOpenError);
      }
      hd.open, hd.cursor := true, 0;
    }

    var blob;
    rc, blob := ReadUntilMatch(hd, desc);
    if rc == Ok {
      hd.found := blob;
    } else if rc == Eof {
      hd.eof := true;
    } else {
      hd.error := Some(rc.code);
    }
  }

  // ---------------------------------------------------------------------
  // What a scan and a search mean.

  /** No read failure is scheduled at a position from `from` to `to`. */
  predicate ReadsCleanly(store: BlobStore, from: nat, to: nat)
  {
    store.failAt.None? || store.failAt.value < from || to < store.failAt.value
  }

  /** Every blob from `from` up to the end of the file is rejected by the descriptors. */
  predicate NoMatchFrom(store: BlobStore, from: nat, desc: seq<SearchDesc>)
    requires ValidDescriptors(desc)
  {
    forall j :: from <= j < |store.blobs| ==> BlobVerdict(store.blobs[j], desc) == NoMatch
  }

  /** Blob k is the first blob from `from` on that the descriptors do not reject, and it matches. */
  predicate FirstMatch(store: BlobStore, from: nat, k: nat, desc: seq<SearchDesc>)
    requires ValidDescriptors(desc)
  {
    from <= k < |store.blobs| && BlobVerdict(store.blobs[k], desc) == Match
    && (forall j :: from <= j < k ==> BlobVerdict(store.blobs[j], desc) == NoMatch)
  }

  /** A scan that finds a blob has found the first match, with no read failing on the way. */
  lemma {:induction false} ScanFoundIsFirstMatch(store: BlobStore, pos: nat, desc: seq<SearchDesc>)
    requires ValidDescriptors(desc) && Scan(store, pos, desc).FoundAt?
    ensures FirstMatch(store, pos, Scan(store, pos, desc).pos, desc)
    ensures ReadsCleanly(store, pos, Scan(store, pos, desc).pos)
    decreases |store.blobs| - pos
  {
    var r := ReadBlob(store, pos);
    if r.Blob? && BlobVerdict(r.image, desc) == NoMatch {
      assert Scan(store, pos, desc) == Scan(store, pos + 1, desc);
      ScanFoundIsFirstMatch(store, pos + 1, desc);
      var k := Scan(store, pos, desc).pos;
      forall j | pos <= j < k
        ensures BlobVerdict(store.blobs[j], desc) == NoMatch
      {
        if j == pos {
          assert store.blobs[j] == r.image;
        }
      }
    } else {
      assert r.Blob? && BlobVerdict(r.image, desc) == Match;
      assert Scan(store, pos, desc) == FoundAt(pos);
    }
  }

  /** The first match is found when no read fails before it. */
  lemma {:induction false} FirstMatchIsFound(store: BlobStore, pos: nat, k: nat, desc: seq<SearchDesc>)
    requires ValidDescriptors(desc) && FirstMatch(store, pos, k, desc) && ReadsCleanly(store, pos, k)
    ensures Scan(store, pos, desc) == FoundAt(k)
    decreases k - pos
  {
    if pos < k {
      ScanPassesOver(store, pos, desc);
      FirstMatchIsFound(store, pos + 1, k, desc);
    } else {
      ScanStopsAt(store, pos, desc);
    }
  }

  /** A scan reads past a rejected blob when its read does not fail. */
  lemma ScanPassesOver(store: BlobStore, pos: nat, desc: seq<SearchDesc>)
    requires ValidDescriptors(desc) && pos < |store.blobs| && store.failAt != Some(pos)
    requires BlobVerdict(store.blobs[pos], desc) == NoMatch
    ensures Scan(store, pos, desc) == Scan(store, pos + 1, desc)
  {
  }

  /** A scan stops at a matching blob when its read does not fail. */
  lemma ScanStopsAt(store: BlobStore, pos: nat, desc: seq<SearchDesc>)
    requires ValidDescriptors(desc) && pos < |store.blobs| && store.failAt != Some(pos)
    requires BlobVerdict(store.blobs[pos], desc) == Match
    ensures Scan(store, pos, desc) == FoundAt(pos)
  {
  }

  /**
    A scan from inside the file runs off its end exactly when every blob
    from there on is rejected and no read fails, including the one at the end.
  */
  lemma {:induction false} ScanExhaustsFile(store: BlobStore, pos: nat, desc: seq<SearchDesc>)
    requires ValidDescriptors(desc) && pos <= |store.blobs|
    ensures Scan(store, pos, desc).ExhaustedAt? <==>
            NoMatchFrom(store, pos, desc) && ReadsCleanly(store, pos, |store.blobs|)
    ensures Scan(store, pos, desc).ExhaustedAt? ==> Scan(store, pos, desc).pos == |store.blobs|
    decreases |store.blobs| - pos
  {
    if store.failAt == Some(pos) || pos == |store.blobs| {
    } else if BlobVerdict(store.blobs[pos], desc) == NoMatch {
      ScanPassesOver(store, pos, desc);
      ScanExhaustsFile(store, pos + 1, desc);
      assert NoMatchFrom(store, pos, desc) <==> NoMatchFrom(store, pos + 1, desc);
    } else {
      assert !NoMatchFrom(store, pos, desc);
    }
  }

  /** Once a search has failed, every later search returns that error until a reset, whatever it asks for. */
  lemma StickyError(store: BlobStore, s: HandleState, desc: seq<SearchDesc>)
    requires ValidDescriptors(desc) && s.error.Some?
    ensures SearchSpec(store, s, desc) == (Error(s.error.value), s.(found := None))
  {
  }

  /** Once a search has hit the end of the file, every later search returns -1 until a reset. */
  lemma StickyEof(store: BlobStore, s: HandleState, desc: seq<SearchDesc>)
    requires ValidDescriptors(desc) && s.error.None? && s.eof
    ensures SearchSpec(store, s, desc) == (Eof, s.(found := None))
  {
  }

  /**
    After a search the handle agrees with the return value: a blob is held
    exactly when 0 is returned, -1 leaves the eof flag set, and an error is
    recorded as the sticky error.
  */
  lemma SearchOutcomeRecorded(store: BlobStore, s: HandleState, desc: seq<SearchDesc>)
    requires ValidDescriptors(desc)
    ensures var (rc, t) := SearchSpec(store, s, desc);
            (rc == Ok <==> t.found.Some?)
            && (rc == Ok ==> t.error.None? && !t.eof)
            && (rc == Eof ==> t.eof && t.error.None?)
            && (rc.Error? ==> t.error == Some(rc.code))
    ensures var (rc, t) := SearchSpec(store, s, desc);
            !(s.error.Some? && s.eof) ==> (rc.Error? ==> !t.eof)
  {
  }

  /**
    A search whose descriptors include FIRST starts over at the first blob,
    even on a handle that had reached the end of the file: it returns the
    first blob the descriptors match, provided no read fails before it.
  */
  lemma FirstSearchFindsFirstMatch(store: BlobStore, s: HandleState, desc: seq<SearchDesc>, k: nat)
    requires ValidDescriptors(desc) && HasFirst(desc) && s.error.None? && !s.eof
    requires store.openable
    ensures SearchSpec(store, s, desc).0 == Ok && SearchSpec(store, s, desc).1.found == Some(store.blobs[k])
            && SearchSpec(store, s, desc).1.cursor == k + 1
            <== FirstMatch(store, 0, k, desc) && ReadsCleanly(store, 0, k)
    ensures SearchSpec(store, s, desc).0 == Ok ==>
            var k' := SearchSpec(store, s, desc).1.cursor - 1;
            FirstMatch(store, 0, k', desc) && ReadsCleanly(store, 0, k')
  {
    FirstSearchScansFromStart(store, s, desc);
    if FirstMatch(store, 0, k, desc) && ReadsCleanly(store, 0, k) {
      FirstMatchIsFound(store, 0, k, desc);
    }
    if Scan(store, 0, desc).FoundAt? {
      ScanFoundIsFirstMatch(store, 0, desc);
    }
  }

  /** A FIRST search on a handle with no sticky state returns what a scan from the first blob finds. */
  lemma FirstSearchScansFromStart(store: BlobStore, s: HandleState, desc: seq<SearchDesc>)
    requires ValidDescriptors(desc) && HasFirst(desc) && s.error.None? && !s.eof
    requires store.openable
    ensures SearchSpec(store, s, desc).0 == Ok <==> Scan(store, 0, desc).FoundAt?
    ensures Scan(store, 0, desc).FoundAt? ==>
              var k := Scan(store, 0, desc).pos;
              k < |store.blobs| && SearchSpec(store, s, desc).1.cursor == k + 1
              && SearchSpec(store, s, desc).1.found == Some(store.blobs[k])
  {
  }

  /** A FIRST search that returns -1 has seen every blob of the file rejected. */
  lemma FirstSearchEofMeansNoMatch(store: BlobStore, s: HandleState, desc: seq<SearchDesc>)
    requires ValidDescriptors(desc) && HasFirst(desc) && s.error.None? && !s.eof
    ensures SearchSpec(store, s, desc).0 == Eof <==>
            store.openable && NoMatchFrom(store, 0, desc) && ReadsCleanly(store, 0, |store.blobs|)
  {
    ScanExhaustsFile(store, 0, desc);
  }

  /**
    A NEXT search continues where the previous one stopped: it returns the
    blob after the one last found and moves past it.
  */
  lemma NextSearchReturnsFollowingBlob(store: BlobStore, s: HandleState, d: SearchDesc)
    requires d.mode.Next? && d.sn.None?
    requires s.open && s.error.None? && !s.eof && s.cursor < |store.blobs| && store.failAt != Some(s.cursor)
    ensures SearchSpec(store, s, [d]) ==
            (Ok, s.(found := Some(store.blobs[s.cursor]), cursor := s.cursor + 1))
  {
    assert !HasFirst([d]);
  }

  /**
    A descriptor with a mode the search does not know fails the first blob
    read with Invalid_Value, and the failure is sticky.
  */
  lemma UnknownModeFails(store: BlobStore, code: int)
    requires store.openable
    requires 0 < |store.blobs| && ReadsCleanly(store, 0, 0)
    ensures var d := SearchDesc(Unknown(code), None, None, []);
            var (rc, t) := SearchSpec(store, ResetState, [d]);
            rc == Error(InvalidValue) && SearchSpec(store, t, [d]).0 == Error(InvalidValue)
  {
    var d := SearchDesc(Unknown(code), None, None, []);
    assert !HasFirst([d]);
    assert BlobVerdict(store.blobs[0], [d]) == Invalid;
  }

  // ---------------------------------------------------------------------
  // keybox_get_cert

  /** A parsed certificate, built from the DER bytes it was read from. */
  datatype Cert = Cert(der: seq<byte>)

  /**
    The certificate bytes a blob stores: bytes 8..11 hold their offset and
    bytes 12..15 their length; None when the header is missing or the range
    leaves the image.
  */
  function StoredCert(image: seq<byte>): Option<seq<byte>>
  {
    if |image| < MinBlobLength then None
    else
      var off := Get32(image, 8);
      var len := Get32(image, 12);
      if off + len > |image| then None else Some(image[off..off + len])
  }

  /**
    keybox_get_cert with the range test done without wrap-around.
    setMemOk is whether ksba_reader_set_mem succeeds and derParses whether
    ksba_cert_read_der accepts the bytes it is given.  A blob that is not
    X.509 (a short one included) gives Wrong_Blob_Type, a certificate range
    outside the image Blob_Too_Short, a failing reader or parser
    General_Error, and otherwise the certificate holds exactly the stored
    bytes.
  */
  method GetCert(hd: KeyboxHandle?, setMemOk: bool, derParses: seq<byte> -> bool)
    returns (r: Result<Cert, KeyboxError>)
    ensures hd == null ==> r == Failure(InvalidValue)
    ensures hd != null && hd.found.None? ==> r == Failure(NothingFound)
    ensures hd != null && hd.found.Some? ==>
              var image := hd.found.value;
              (r == Failure(WrongBlobType) <==> BlobGetType(image) != BlobTypeX509)
              && (r == Failure(BlobTooShort) <==> BlobGetType(image) == BlobTypeX509 && StoredCert(image).None?)
              && (r.Success? <==> BlobGetType(image) == BlobTypeX509 && StoredCert(image).Some?
                                  && setMemOk && derParses(StoredCert(image).value))
              && (r.Success? ==> r.value == Cert(StoredCert(image).value))
              && (r.Failure? ==> r.error in {WrongBlobType, BlobTooShort, GeneralError})
  {
    if hd == null {
      return Failure(InvalidValue);
    }
    if hd.found.None? {
      return Failure(NothingFound);
    }
    var image := hd.found.value;
    if BlobGetType(image) != BlobTypeX509 {
      return Failure(WrongBlobType);
    }
    // the length test that follows in the C code cannot fail here
    assert |image| >= MinBlobLength;
    var certOff := Get32(image, 8);
    var certLen := Get32(image, 12);
    if certOff + certLen > |image| {
      return Failure(BlobTooShort);
    }
    if !setMemOk {
      return Failure(GeneralError);
    }
    var der := image[certOff..certOff + certLen];
    if !derParses(der) {
      return Failure(GeneralError);
    }
    return Success(Cert(der));
  }

  /**
    The range test of keybox_get_cert as written: cert_off + cert_len is a
    size_t sum, which wraps at 32 bits.  The result is the range handed to
    ksba_reader_set_mem when the test passes.
  */
  function CertRangeAsWritten(image: seq<byte>): Option<Span>
    requires |image| >= MinBlobLength
  {
    var off := Get32(image, 8);
    var len := Get32(image, 12);
    if Wrap(off + len) > |image| then None else Some(Span(off, len))
  }

  /** The range the corrected GetCert reads is the one the test as written lets through, when the sum does not wrap. */
  lemma CertRangeAsWrittenAgrees(image: seq<byte>)
    requires |image| >= MinBlobLength && Get32(image, 8) + Get32(image, 12) < Word
    ensures CertRangeAsWritten(image).Some? <==> StoredCert(image).Some?
    ensures CertRangeAsWritten(image).Some? ==>
              var sp := CertRangeAsWritten(image).value;
              Inside(sp, |image|) && StoredCert(image).value == image[sp.pos..sp.pos + sp.len]
  {
  }

  /**
    A 40-byte X.509 blob claiming a certificate at offset 0xFFFFFFFF of
    length 1: the 32-bit sum is 0, the test as written passes and the reader
    is pointed outside the image; the corrected test reports Blob_Too_Short.
  */
  lemma CertRangeWraps(image: seq<byte>)
    requires |image| == 40 && image[4] == 3
    requires image[8..12] == [0xFF, 0xFF, 0xFF, 0xFF] && image[12..16] == [0, 0, 0, 1]
    ensures BlobGetType(image) == BlobTypeX509
    ensures CertRangeAsWritten(image) == Some(Span(0xFFFF_FFFF, 1))
    ensures !Inside(Span(0xFFFF_FFFF, 1), |image|)
    ensures StoredCert(image).None?
  {
    assert Get32(image, 8) == 0xFFFF_FFFF by {
      assert image[8] == 0xFF && image[9] == 0xFF && image[10] == 0xFF && image[11] == 0xFF;
    }
    assert Get32(image, 12) == 1 by {
      assert image[12] == 0 && image[13] == 0 && image[14] == 0 && image[15] == 1;
    }
  }
}
