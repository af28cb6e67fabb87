# Keybox search, certificate signature encoding and message catalogs of GnuPG

This project models three parts of an early GnuPG tree in Dafny and proves properties of the model.

- **Keybox search** (`kbx/keybox-search.c`).
  - The field extractors read a keybox blob image (`get16`, `get32`, `blob_get_type`, `blob_cmp_sn`, `blob_cmp_name`, `has_issuer`, `has_issuer_sn`, `has_fingerprint`). `blob_cmp_sn` and `blob_cmp_name` with its index guard tightened record the byte spans they read, and are proved to read only inside the image; `blob_cmp_name` as written is proved to read outside it.
  - The search handle is a class with the fields `keybox_search_reset` and `keybox_search` update: the found blob, whether the file is open, the read position, the sticky error and the sticky end-of-file flag. Its methods are proved against a specification function. Lemmas state what that function means: the first match in file order, sticky states, and the outcome recorded in the handle.
  - `keybox_get_cert` is modelled by its range test and the order of its errors.
- **Certificate signature check** (`sm/certcheck.c`).
  - `do_encode_md` fills an array in place. It is proved to produce the EMSA-PKCS1-v1_5 block `00 01 FF.. 00 DigestInfo H` (block type 01 of section 8.1 of RFC 2313; section 9.2 of RFC 8017) and to read back as an integer of the right size.
  - The fixed MD5 DigestInfo prefix is proved to be the DER encoding it claims to be.
  - `gpgsm_check_cert_sig` is modelled by the order in which the failures of its library calls are reported.
- **Message catalogs** (`jnlib/w32-gettext.c`).
  - `do_swap_u32`/`SWAPIT` and the header checks of `load_domain` once the file is in memory. Includes a write-then-read round trip in both byte orders.
  - The `hash_string` (hashpjw) loop, and the double-hashing probe and binary search of `gettext`.
  - The conversion cache of `get_string` (`mapped[]`, `data_native`, the overflow list). The loaded catalog is a class with those fields.
  - `ngettext`, `gettext_select_utf8`, and `set_gettext_file`: the catalog path it builds, the three language passes, the `_` retry, and the replacement of the active catalog. The static variables of the file are a class.

Files:

| file | module | contents |
|---|---|---|
| wrappers.dfy | Wrappers | Option and Result |
| bytes.dfy | Bytes | octets, big-endian values |
| keybox_blob.dfy | KeyboxBlob | blob field extraction, traced reads, `blob_cmp_name` as written |
| keybox_search.dfy | KeyboxSearch | search handle, search and reset, `keybox_get_cert` |
| certcheck.dfy | CertCheck | `do_encode_md`, MD5 DigestInfo, `gpgsm_check_cert_sig` |
| mo_catalog.dfy | MoCatalog | byte swapping, .mo header, hashpjw, probe arithmetic, C strings and strcmp |
| gettext_domain.dfy | GettextDomain | loaded catalog and `get_string` |
| catalog_path.dfy | CatalogPath | catalog file names, language passes, first loadable catalog |
| gettext_lookup.dfy | GettextLookup | `gettext`, `ngettext`, `gettext_select_utf8`, `set_gettext_file` |

Target assumptions:
- `size_t` and `ulong` are 32 bits wide. Sums that can wrap are written modulo 2^32.
- `char` is signed, so octets of 0x80 and above are sign-extended in `hash_string`.
- The host is little-endian.
- `BLOBTYPE_X509` is 3.

A FIRST search does not clear a sticky error or end-of-file: the checks at kbx/keybox-search.c:256-259 come before the reset at 270-272 (`KeyboxSearch.StickyError`, `KeyboxSearch.StickyEof`).

## Model

| member | source | states |
|---|---|---|
| KeyboxBlob.Get16IsBigEndian | kbx/keybox-search.c:39-46 | get16 of two octets is their big-endian value |
| KeyboxBlob.Get32IsBigEndian | kbx/keybox-search.c:28-37 | get32 of four octets is their big-endian value, most significant first |
| KeyboxBlob.Wrap | kbx/keybox-search.c:133-141 | a size_t sum lies below 2^32; it equals the true sum when that fits and loses 2^32 when it overflows once |
| KeyboxBlob.BlobGetType | kbx/keybox-search.c:50-61 | -1 exactly when the image is shorter than 40 octets, otherwise octet 4 |
| KeyboxBlob.KeyTableStage | kbx/keybox-search.c:74-86 | the shared header and key-table checks read only inside the image and yield the serial-length position exactly when the reference layout has one |
| KeyboxBlob.BlobCmpSn | kbx/keybox-search.c:64-97 | every read lies inside the image; true exactly when the blob stores, inside the image, a serial equal in length and octets to the one the query's 4-octet length prefix announces |
| KeyboxBlob.StoredUidTable | kbx/keybox-search.c:118-134 | a user-ID table that passes the checks has a stride of at least 12 and all nuids entries inside the image |
| KeyboxBlob.EntryFits | kbx/keybox-search.c:133-140 | entry idx < nuids of such a table has its 8 octets inside the image |
| KeyboxBlob.UidHeaderStage | kbx/keybox-search.c:118-132 | reading nserial, nuids and uidinfolen stays inside the image and yields the reference table header |
| KeyboxBlob.UidEntryStage | kbx/keybox-search.c:136-147 | with the index guard tightened to idx >= nuids, every read is inside the image, and the result is true exactly when user ID idx is stored with exactly the octets of name |
| KeyboxBlob.BlobCmpName | kbx/keybox-search.c:99-148 | with the tightened index guard, every read lies inside the image; true exactly when user ID idx exists, its range lies inside the image, its stored length is at least 2, and the name is exactly the stored octets |
| KeyboxBlob.HasFingerprint | kbx/keybox-search.c:170-174 | never matches |
| KeyboxBlob.HasIssuer | kbx/keybox-search.c:177-189 | true exactly when name is not NULL, the blob is X.509 (so at least 40 octets), and its issuer (user ID 0) is exactly name |
| KeyboxBlob.HasIssuerSn | kbx/keybox-search.c:191-206 | true exactly when neither argument is NULL, the blob is X.509, its serial is the one the query announces, and its issuer is exactly name |
| KeyboxBlob.EntryStageAsWrittenAgrees | kbx/keybox-search.c:133-147 | for idx < nuids and sums below 2^32, the entry stage as written equals the tightened one |
| KeyboxBlob.CmpNameAsWrittenAgrees | kbx/keybox-search.c:99-148 | blob_cmp_name as written and the tightened one agree whenever idx < nuids and the name range does not wrap |
| KeyboxBlob.AsWrittenReadsEntry | kbx/keybox-search.c:124-141 | once the table header is read, blob_cmp_name as written makes every read its entry stage makes |
| KeyboxBlob.IssuerLookupOverReads | kbx/keybox-search.c:133-140 | on a 40-octet X.509 blob with no user IDs, the guard as written reads octets 40..43 past the end; the tightened lookup finds no issuer |
| KeyboxBlob.IssuerLookupWrapsNameRange | kbx/keybox-search.c:138-147 | an entry at offset 0xFFFFFFFF of length 5 passes the wrapped range test as written and is compared outside the image; the corrected test rejects it |
| KeyboxSearch.SearchReset | kbx/keybox-search.c:216-236 | a NULL handle gives Invalid_Value; otherwise 0, and the handle is in the reset state (nothing found, file closed, no error, no end-of-file), so a second reset changes nothing |
| KeyboxSearch.MatchBlob | kbx/keybox-search.c:296-341 | the descriptor loop returns the verdict of the first descriptor that does not fall through, or no match |
| KeyboxSearch.ReadUntilMatch | kbx/keybox-search.c:289-352 | the read loop ends as a scan from the cursor does: at a match with the cursor past it and the blob held, at the end of the file, or at a read failure or unknown mode with its code |
| KeyboxSearch.Search | kbx/keybox-search.c:239-370 | a NULL handle gives Invalid_Value; otherwise the return value and the new handle state are SearchSpec of the old state: release, sticky checks, reset for FIRST, open, read, record |
| KeyboxSearch.OpenAndRead | kbx/keybox-search.c:281-369 | called with nothing held and no sticky state: an unopenable file records File_Open_Error; otherwise the file is read from the cursor (0 when just opened); afterwards exactly one of found, eof and error is set, matching 0, -1 or the error code returned |
| KeyboxSearch.ScanFoundIsFirstMatch | kbx/keybox-search.c:289-352 | a blob the scan finds is the first one from its start that the descriptors do not reject, it matches, and no read failed before it |
| KeyboxSearch.FirstMatchIsFound | kbx/keybox-search.c:289-352 | conversely, the first match is found when no read fails before it |
| KeyboxSearch.ScanExhaustsFile | kbx/keybox-search.c:289-294 | a scan reaches the end of the file exactly when every blob from its start is rejected and no read fails, and it then stops at the end |
| KeyboxSearch.StickyError | kbx/keybox-search.c:249-257 | after an error every search returns that error and holds no blob, whatever its descriptors, FIRST included |
| KeyboxSearch.StickyEof | kbx/keybox-search.c:258-259 | after end-of-file every search returns -1 and holds no blob until a reset, FIRST included |
| KeyboxSearch.SearchOutcomeRecorded | kbx/keybox-search.c:354-369 | a blob is held exactly when 0 is returned, and then neither error nor eof is set; -1 sets eof and no error; an error code is recorded as the sticky error and, unless the handle already held both sticky states, leaves eof clear |
| KeyboxSearch.FirstSearchScansFromStart | kbx/keybox-search.c:263-273 | a FIRST search on a handle with no sticky state returns 0 exactly when a scan from the first blob finds one, and then holds that blob with the cursor after it |
| KeyboxSearch.FirstSearchFindsFirstMatch | kbx/keybox-search.c:263-352 | a FIRST search returns the first matching blob of the file when no read fails before it, and whatever it returns is such a first match |
| KeyboxSearch.FirstSearchEofMeansNoMatch | kbx/keybox-search.c:263-361 | a FIRST search returns -1 exactly when the file opens, every blob is rejected and no read fails |
| KeyboxSearch.NextSearchReturnsFollowingBlob | kbx/keybox-search.c:334-336 | a NEXT search on an open handle returns the blob after the cursor and moves past it |
| KeyboxSearch.UnknownModeFails | kbx/keybox-search.c:337-339 | an unknown mode fails the first blob with Invalid_Value, and the next search returns it again |
| KeyboxSearch.GetCert | kbx/keybox-search.c:383-439 | NULL handle, nothing found, not X.509 (short blobs included), range outside the image, reader or parser failure: each gives its error in that order; on success the certificate holds exactly the stored range |
| KeyboxSearch.CertRangeAsWrittenAgrees | kbx/keybox-search.c:404-407 | when cert_off + cert_len does not wrap, the range test as written accepts exactly the blobs whose stored range lies inside the image |
| KeyboxSearch.CertRangeWraps | kbx/keybox-search.c:404-413 | offset 0xFFFFFFFF and length 1 sum to 0 in 32 bits, so the test as written passes and the reader is pointed outside the image; the corrected test rejects the blob |
| CertCheck.EmsaFrame | sm/certcheck.c:52-69 | the block is pad + asnlen + len + 3 octets long |
| CertCheck.EmsaFrameIndex | sm/certcheck.c:61-69 | octet by octet: 00, 01, pad octets FF, 00, the prefix, then the digest |
| CertCheck.FrameValueRange | sm/certcheck.c:62-63 | read as an unsigned big-endian integer, a block of k octets starting 00 01 lies in [256^(k-2), 2 * 256^(k-2)) |
| CertCheck.DoEncodeMd | sm/certcheck.c:37-74 | nframe = (nbits+7)/8; Internal_Error exactly when fewer than 8 padding octets would remain; otherwise the value of the block filled in place, which has exactly nframe octets |
| CertCheck.GuardAdmitsAbort | sm/certcheck.c:45-65 | the size test as written reaches assert (i > 1) with i == 1 exactly when len + asnlen + 4 == nframe, e.g. 16, 304 bits, 18 |
| CertCheck.GuardAdmitsShortPadding | sm/certcheck.c:45-66 | the test as written gives at least 2 padding octets, but lets 2 to 7 through, e.g. 3 for 16, 320 bits, 18; it meets the minimum of 8 exactly when DoEncodeMd's test passes |
| CertCheck.Md5OidTailArcs | sm/certcheck.c:85-87 | the octets 86 f7 0d 02 05 decode to the arcs 113549, 2, 5 |
| CertCheck.Md5OidArcs | sm/certcheck.c:84-88 | octets 6..13 of the prefix encode the object identifier 1.2.840.113549.2.5 |
| CertCheck.Md5DigestInfoWellFormed | sm/certcheck.c:84-88 | the 18-octet prefix plus a 16-octet digest is DER: the outer length 0x20 = (18-2)+16, the algorithm is the md5 OID with NULL parameters, and the OCTET STRING of length 0x10 = 16 is the digest |
| CertCheck.FixedCallEncodes | sm/certcheck.c:128 | the fixed call (16, 2048, 18) gets a 256-octet frame with 219 padding octets under either size test |
| CertCheck.CheckCertSig | sm/certcheck.c:81-155 | the first failing call decides the error (md_open, cert hash, signature scan, key scan) and no later call matters; otherwise the verdict of pk_verify on the encoded MD5 hash |
| CertCheck.HashValueRange | sm/certcheck.c:128-135 | the value handed to pk_verify is a 2048-bit number whose top octets are 00 01 |
| MoCatalog.SwapIsInvolution | jnlib/w32-gettext.c:119-125 | do_swap_u32 undoes itself, SWAPIT with either flag does too, and SWAPIT(0, x) is x |
| MoCatalog.SwapMagic | jnlib/w32-gettext.c:54-55 | swapping MAGIC gives MAGIC_SWAPPED and back |
| MoCatalog.SwapReadsOtherOrder | jnlib/w32-gettext.c:119-125 | a swapped little-endian read is the big-endian read of the same four octets |
| MoCatalog.LoadHeader | jnlib/w32-gettext.c:1235-1306 | a header that is accepted lies in the file; must_swap is set exactly when the magic is MAGIC_SWAPPED; every field is a u32 |
| MoCatalog.LoadHeaderRejects | jnlib/w32-gettext.c:1235-1306 | the file is refused exactly when it is shorter than 28 octets, its magic is neither byte order's, or its revision read through SWAPIT is not 0 |
| MoCatalog.LoadEncodedHeader | jnlib/w32-gettext.c:1284-1300 | a header written in either byte order is read back with the fields written, and must_swap records the order |
| MoCatalog.ShiftLeftFour | jnlib/w32-gettext.c:1207 | hval <<= 4 on a 32-bit word is multiplication by 16 modulo 2^32 |
| MoCatalog.HashFold | jnlib/w32-gettext.c:1209-1214 | folding the top nibble leaves a value below 2^28 |
| MoCatalog.HashPjw | jnlib/w32-gettext.c:1198-1217 | hashpjw of any string is below 2^28 |
| MoCatalog.MixOctet | jnlib/w32-gettext.c:1207-1214 | one loop iteration computes one hashpjw step |
| MoCatalog.HashString | jnlib/w32-gettext.c:1198-1217 | the loop computes hashpjw of the string, which is below 2^28 |
| MoCatalog.ProbeStart | jnlib/w32-gettext.c:1609 | the first slot is inside the table |
| MoCatalog.ProbeIncr | jnlib/w32-gettext.c:1610 | the increment lies in [1, hash_size - 2] |
| MoCatalog.ProbeNext | jnlib/w32-gettext.c:1625-1628 | the step keeps the index inside the table |
| MoCatalog.ProbeNextIsModular | jnlib/w32-gettext.c:1625-1628 | the step is (idx + incr) mod hash_size |
| MoCatalog.ProbeSlot | jnlib/w32-gettext.c:1609-1628 | every probed slot is inside the table |
| MoCatalog.ProbeSlotModular | jnlib/w32-gettext.c:1609-1628 | probe m is at (start + m * incr) mod hash_size |
| MoCatalog.NulIndex | jnlib/w32-gettext.c:1618-1620 | the index found holds the first NUL at or after the offset |
| MoCatalog.CStr | jnlib/w32-gettext.c:1618-1620 | the C string at an offset holds no NUL and is followed by one inside the file |
| MoCatalog.CmpZeroIffEqual | jnlib/w32-gettext.c:1618-1620 | strcmp is 0 exactly when the strings are equal |
| MoCatalog.CmpAntisymmetric | jnlib/w32-gettext.c:1654-1660 | swapping the arguments of strcmp negates it |
| MoCatalog.CmpTransitive | jnlib/w32-gettext.c:1654-1660 | a < b <= c or a <= b < c implies a < c under strcmp |
| GettextDomain.Domain.constructor | jnlib/w32-gettext.c:1278-1316 | a new domain holds the file and header, with a fresh all-zero mapped[] of nstrings entries and no converted strings |
| GettextDomain.Domain.PristineIsConsistent | jnlib/w32-gettext.c:1308-1316 | a freshly loaded domain whose strings lie in the file has a consistent cache |
| GettextDomain.Domain.GetString | jnlib/w32-gettext.c:1517-1589 | returns the translation, converted unless UTF-8 was selected, and keeps the cache consistent. With UTF-8 or an entry already set, nothing changes. Otherwise entry 0 becomes 1 with the string stored at its offset in data_native when it fits, or 2 with a node pushed on the overflow list. No other entry changes, and a set entry never changes |
| GettextDomain.OverflowLookupPush | jnlib/w32-gettext.c:1557-1582 | after a push, the lookup of that index finds the new node and every other index finds what it found before |
| GettextDomain.LoadDomain | jnlib/w32-gettext.c:1220-1318 | null exactly when the header is refused; otherwise a fresh domain for those octets with that header and nothing converted |
| GettextLookup.HashOf | jnlib/w32-gettext.c:1608 | the hash gettext probes with is hashpjw of the message id |
| GettextLookup.TestSlot | jnlib/w32-gettext.c:1611-1621 | reads the hash entry; the probe stops exactly when the slot is empty or holds a pair whose stored length and string equal msgid |
| GettextLookup.HashLookup | jnlib/w32-gettext.c:1604-1643 | a pair returned has msgid as its original; the answer is what the slot of the first probe that stops names |
| GettextLookup.AfterPrefix | jnlib/w32-gettext.c:1659-1660 | in a sorted catalog, when msgid is after original act, it is after every original before act |
| GettextLookup.BeforeSuffix | jnlib/w32-gettext.c:1657-1658 | in a sorted catalog, when msgid is before original act, it is before every original from act on |
| GettextLookup.BinarySearch | jnlib/w32-gettext.c:1645-1666 | a pair returned has msgid as its original; in a sorted catalog, none is returned only when no original equals msgid |
| GettextLookup.FindPair | jnlib/w32-gettext.c:1604-1666 | the hash probe when hash_size > 2, otherwise the binary search, with their guarantees |
| GettextLookup.LoadDomainAt | jnlib/w32-gettext.c:1220-1318 | null exactly when the file is missing or its header is refused; otherwise a fresh, untouched domain for that file's octets |
| GettextLookup.TryPass | jnlib/w32-gettext.c:1431-1476 | one pass loads the first loadable file among the identifier cut at '.' and, when that fails and it has a '_', cut at '_'; it returns the identifier that named the file |
| GettextLookup.FindCatalog | jnlib/w32-gettext.c:1336-1492 | an absolute name is loaded as it is; otherwise the three passes run in order. Null exactly when no candidate loads; otherwise the catalog is the first candidate that loads |
| GettextLookup.GettextState.constructor | jnlib/w32-gettext.c:114-116 | no domain, no langid, UTF-8 not selected |
| GettextLookup.GettextState.Gettext | jnlib/w32-gettext.c:1593-1667 | with no domain msgid itself; otherwise the translation of the pair the search finds, or msgid when none; the cache stays consistent |
| GettextLookup.GettextState.NGettext | jnlib/w32-gettext.c:1670-1675 | answers msgid1 exactly when n == 1, msgid2 otherwise |
| GettextLookup.GettextState.SelectUtf8 | jnlib/w32-gettext.c:1693-1697 | sets want_utf8 and nothing else |
| GettextLookup.GettextState.SetGettextFile | jnlib/w32-gettext.c:1331-1514 | NULL or empty name: 0 and no domain. Nothing loads: -1 and nothing changes. Otherwise 0 with the first loadable candidate installed, and its langid saved if none was saved before |
| CatalogPath.CutAt | jnlib/w32-gettext.c:1395-1397 | the prefix before the first c; the whole string when c does not occur |
| CatalogPath.LastIndexOf | jnlib/w32-gettext.c:1365 | the position of the last occurrence of the separator |
| CatalogPath.Slashes | jnlib/w32-gettext.c:1464-1468 | every '/' replaced by '\', every other character kept |
| CatalogPath.CatalogFileShape | jnlib/w32-gettext.c:1446-1468 | the path is dir "\" filename ".nls\" langid ".mo", each part with its slashes turned, and holds no '/' |
| CatalogPath.FirstLoadable | jnlib/w32-gettext.c:1376-1486 | the candidate chosen loads and no candidate before it in the list does; none exactly when no candidate loads |
| CatalogPath.FirstLoadableConcat | jnlib/w32-gettext.c:1376 | the first loadable of one pass's candidates then the later passes' is the pass's own if it has one, otherwise the later passes' |
| CatalogPath.PassRetriesOnce | jnlib/w32-gettext.c:1437-1476 | a pass tries at most two files; its identifiers hold no '.', and the retry's holds no '_' |
| CatalogPath.LanguageFirstEntry | jnlib/w32-gettext.c:1386-1400 | the identifier from LANGUAGE is a prefix of it that holds no ':' |
| CatalogPath.RelativeAttemptsUseBackslashes | jnlib/w32-gettext.c:1461-1468 | every file tried for a relative name is a catalog path without '/' |

## Left out

- `include/util.h`: it declares helpers and macros only; nothing there has a body to model.
- File I/O:
  - The keybox file is a sequence of blob images with an optional read-failure position. `fopen` is a flag, and `_keybox_read_blob` is not part of this model.
  - The catalog file is a map from paths to contents. `fopen`, `fstat`, `fread` and the `2*size` overflow test of `load_domain` are not modelled; an unreadable file is an absent path.
- `CertCheck.CheckCertSig`: the strings returned by `ksba_cert_get_sig_val` (sm/certcheck.c:113) and `ksba_cert_get_public_key` (line 139) are taken to be non-NULL; the code passes them to `strlen` unchecked (lines 117 and 143), and a NULL would crash it.
- ksba and libgcrypt are outcomes supplied by the caller: `ksba_reader_set_mem`, `ksba_cert_read_der`, `gcry_md_open`, `ksba_cert_hash`, `gcry_md_read`, `gcry_sexp_sscan` and `gcry_pk_verify`. RSA and MD5 are not modelled.
- The platform lookups are fields of an environment value: `GetModuleFileName` (its MAX_PATH truncation is not modelled), `getenv`, the registry reads and `_nl_locale_name`. `HAVE_DRIVE_LETTERS` is taken as defined.
- `utf8_to_native` is a function parameter.
- `gettext_localename` is not part of this model.
- Allocation failures are not modelled: `Out_Of_Core`, the `"ERROR in GETTEXT MALLOC"` string, and failed `jnlib_malloc`. Neither are memory release and the `md` handle left open on early returns.
- `never_reached` modes are excluded by the precondition `ValidDescriptors`. The `skipfnc` loop and `need_words` have no effect in the code and are not modelled.
- `KeyboxBlob.Get32`: `*buffer << 24` is modelled with a 32-bit `ulong`. With a 64-bit `ulong`, an octet of 0x80 or more would be sign-extended.
- `KeyboxBlob.BlobCmpName`: it uses the index guard `idx >= nuids` and wrap-free range tests. The code as written is `BlobCmpNameAsWritten`; see Findings.
- `KeyboxSearch.GetCert`: the range test is written without wrap-around. The test as written is `CertRangeAsWritten`; see Findings.
- `CertCheck.DoEncodeMd`: the size test requires the 8 padding octets of section 8.1 of RFC 2313. The code's weaker test is `DoEncodeMdAsWritten`; see Findings.
- `CertCheck.CheckCertSig`: `map_ksba_err` and `map_gcry_err` are kept as the library codes, and `map_gcry_err(0)` is taken to be 0. The encode-error return cannot happen for the fixed sizes (`FixedCallEncodes`). `gcry_sexp_build` failing, which calls `BUG`, is not modelled.
- `GettextLookup.GettextState.Gettext`, `GettextLookup.GettextState.NGettext`, `GettextLookup.FindPair`, `GettextLookup.HashLookup` and `GettextLookup.BinarySearch` require the message ids to hold no NUL, as a C string cannot.
- `GettextLookup.GettextState.Gettext`, `GettextLookup.HashLookup` and `GettextLookup.BinarySearch` require `CatalogInside`:
  - the tables lie inside the file;
  - every string is NUL-terminated inside the file;
  - hash entries name existing pairs.
  `load_domain` never checks any of this, and the C reads out of bounds when it fails.
- `GettextLookup.HashLookup` requires `ProbeEnds`: some probe reaches an empty slot or a hit. Without it the C loop never ends.
- `GettextLookup.TestSlot`: the stored length is compared with the full length of msgid. The C truncates `strlen` to a u32, which differs only for ids of 4 GiB or more.
- `GettextLookup.HasHashTable`: the `hash_tab` NULL test is dropped, since `hash_tab` points into the file and is never NULL.
- `GettextDomain.Domain.GetString`:
  - `data_native` is a map from string offsets to converted strings, not an octet area. Overlap between converted strings written into that area is not modelled.
  - The `"ERROR in GETTEXT"` paths cannot be reached from a consistent cache.
- `GettextLookup.GettextState.SetGettextFile`: `the_langid` is set after the search rather than inside the finding pass. That pass is always the last one, so the result is the same.
- `MoCatalog.LoadEncodedHeader`: the round trip is stated over the u32 words written, not over integers.

## Findings

| source | as written | input that shows it | evidently intended | confidence | as-written member | corrected member |
|---|---|---|---|---|---|---|
| kbx/keybox-search.c:136 | `if (idx > nuids)` lets `idx == nuids` through, and entry nuids lies past the checked table | 40-octet X.509 blob: nkeys 0, keyinfolen 28, 10-octet serial, nuids 0, uidinfolen 12; `has_issuer` reads the length word at octets 40..43 | `idx >= nuids` | not executed; high | KeyboxBlob.IssuerLookupOverReads | KeyboxBlob.BlobCmpName |
| kbx/keybox-search.c:141 | `off+len > length` is a 32-bit size_t sum that can wrap | one user ID with offset 0xFFFFFFFF and stored length 5, name of 4 octets: the sum is 4 and 4 octets at 0xFFFFFFFF are compared | a range test that cannot wrap | not executed; medium | KeyboxBlob.IssuerLookupWrapsNameRange | KeyboxBlob.BlobCmpName |
| kbx/keybox-search.c:406 | `cert_off+cert_len > length` is a 32-bit size_t sum that can wrap | 40-octet X.509 blob with cert_off 0xFFFFFFFF and cert_len 1: the sum is 0 and the reader is pointed outside the image | Blob_Too_Short for any range outside the image | not executed; medium | KeyboxSearch.CertRangeWraps | KeyboxSearch.GetCert |
| sm/certcheck.c:45 | the size test rejects only `len + asnlen + 4 > nframe`, but `assert (i > 1)` at line 65 needs `len + asnlen + 5 <= nframe` | len 16, nbits 304, asnlen 18: nframe 38, i 1, the assert aborts | Internal_Error instead of an abort | not executed; high | CertCheck.GuardAdmitsAbort | CertCheck.DoEncodeMd |
| sm/certcheck.c:45 | the size test admits padding of 2 to 7 octets | len 16, nbits 320, asnlen 18: nframe 40, 3 padding octets | at least 8 padding octets (section 8.1 of RFC 2313) | not executed; medium | CertCheck.GuardAdmitsShortPadding | CertCheck.DoEncodeMd |
