/**
  Certificate signature check of gpgsm (sm/certcheck.c): the
  EMSA-PKCS1-v1_5 encoding of a digest (block type 01 of section 8.1 of
  RFC 2313, section 9.2 of RFC 8017) and the order in which
  gpgsm_check_cert_sig reports the failures of the library calls it makes.
  Hashing, S-expressions and RSA are outcomes supplied by the caller.
*/
module CertCheck {
  import opened Wrappers
  import opened Bytes

  /** The gpgsm error codes this file returns; KsbaError and GcryError are map_ksba_err and map_gcry_err of a library code. */
  datatype CertSigError = GeneralError | InternalError | KsbaError(code: nat) | GcryError(code: nat)

  /** Section 8.1 of RFC 2313: the padding string is at least eight octets long. */
  const MinPadding: nat := 8

  /** The encoded block: 00 01, pad octets FF, 00, the DigestInfo prefix, the digest. */
  function EmsaFrame(pad: nat, asn: seq<byte>, h: seq<byte>): (f: seq<byte>)
    ensures |f| == pad + |asn| + |h| + 3
  {
    [0, 1] + seq(pad, _ => 0xFF) + [0] + asn + h
  }

  /** The octet at position j of an encoded block, region by region. */
  lemma EmsaFrameIndex(pad: nat, asn: seq<byte>, h: seq<byte>, j: nat)
    requires j < pad + |asn| + |h| + 3
    ensures var f := EmsaFrame(pad, asn, h);
            (j == 0 ==> f[j] == 0) && (j == 1 ==> f[j] == 1)
            && (2 <= j < pad + 2 ==> f[j] == 0xFF)
            && (j == pad + 2 ==> f[j] == 0)
            && (pad + 3 <= j < pad + 3 + |asn| ==> f[j] == asn[j - pad - 3])
            && (pad + 3 + |asn| <= j ==> f[j] == h[j - pad - 3 - |asn|])
  {
    var a := [0, 1] + seq(pad, _ => 0xFF) + [0];
    assert EmsaFrame(pad, asn, h) == a + asn + h;
    if j < pad + 2 {
      assert a[j] == ([0, 1] + seq(pad, _ => 0xFF))[j];
    }
  }

  /**
    Read as an unsigned big-endian integer (GCRYMPI_FMT_USG), a block that
    starts 00 01 lies in [256^(k-2), 2 * 256^(k-2)) for its length k.
  */
  lemma {:induction false} FrameValueRange(pad: nat, asn: seq<byte>, h: seq<byte>)
    ensures var f := EmsaFrame(pad, asn, h);
            Pow256(|f| - 2) <= BeValue(f) < 2 * Pow256(|f| - 2)
  {
    var rest := seq(pad, _ => 0xFF) + [0] + asn + h;
    var f := EmsaFrame(pad, asn, h);
    assert f == [0, 1] + rest;
    BeValueAppend([0, 1], rest);
    BeValueBound(rest);
    assert [0, 1][..1] == [0];
    assert BeValue([0, 1]) == 1;
  }

  /**
    do_encode_md with the size test of the evidently intended strength:
    the frame is (nbits+7)/8 octets, sizes that leave fewer than eight
    padding octets give Internal_Error, and otherwise the value is the
    encoded block of the first len digest octets.  The frame is filled in
    place with a running index, as the C code does.
  */
  method DoEncodeMd(digest: seq<byte>, len: nat, nbits: nat, asn: seq<byte>)
    returns (r: Result<nat, CertSigError>)
    requires len <= |digest|
    ensures var nframe := (nbits + 7) / 8;
            (r.Failure? <==> len + |asn| + 3 + MinPadding > nframe)
            && (r.Failure? ==> r.error == InternalError)
            && (r.Success? ==> r.value == BeValue(EmsaFrame(nframe - len - |asn| - 3, asn, digest[..len])))
  {
    var nframe := (nbits + 7) / 8;
    if len + |asn| + 3 + MinPadding > nframe {
      return Failure(InternalError);
    }
    var frame := new byte[nframe];
    var i := nframe - len - |asn| - 3;
    ghost var want := EmsaFrame(i, asn, digest[..len]);
    var n := 0;
    EmsaFrameIndex(i, asn, digest[..len], 0);
    EmsaFrameIndex(i, asn, digest[..len], 1);
    frame[n] := 0;
    n := n + 1;
    frame[n] := 1; // block type
    n := n + 1;
    assert i > 1;

    var k := 0;
    while k < i
      invariant 0 <= k <= i && n == 2 + k
      invariant forall j :: 0 <= j < n ==> frame[j] == want[j]
    {
      EmsaFrameIndex(i, asn, digest[..len], n);
      frame[n] := 0xFF;
      n, k := n + 1, k + 1;
    }
    EmsaFrameIndex(i, asn, digest[..len], n);
    frame[n] := 0;
    n := n + 1;

    k := 0;
    while k < |asn|
      invariant 0 <= k <= |asn| && n == i + 3 + k
      invariant forall j :: 0 <= j < n ==> frame[j] == want[j]
    {
      EmsaFrameIndex(i, asn, digest[..len], n);
      frame[n] := asn[k];
      n, k := n + 1, k + 1;
    }

    k := 0;
    while k < len
      invariant 0 <= k <= len && n == i + 3 + |asn| + k
      invariant forall j :: 0 <= j < n ==> frame[j] == want[j]
    {
      EmsaFrameIndex(i, asn, digest[..len], n);
      frame[n] := digest[k];
      n, k := n + 1, k + 1;
    }
    assert n == nframe;
    assert frame[..] == want;
    return Success(BeValue(frame[..]));
  }

  /** What do_encode_md as written does with given sizes. */
  datatype AsWrittenEncoding = GuardRejects | AssertAborts | Encoded(pad: nat)

  /**
    do_encode_md as written (sm/certcheck.c:41-70): the size test only
    rejects len + asnlen + 4 > nframe, and assert (i > 1) aborts the
    program when the padding length i is 1.
  */
  function DoEncodeMdAsWritten(len: nat, nbits: nat, asnlen: nat): AsWrittenEncoding
  {
    var nframe := (nbits + 7) / 8;
    if len + asnlen + 4 > nframe then GuardRejects
    else
      var i := nframe - len - asnlen - 3;
      if i <= 1 then AssertAborts else Encoded(i)
  }

  /**
    The size test as written lets exactly one padding length below the
    assert's bound through: len + asnlen + 4 == nframe gives i == 1.  A
    16-octet digest with the 18-octet MD5 prefix in a 304-bit key is such a case.
  */
  lemma GuardAdmitsAbort(len: nat, nbits: nat, asnlen: nat)
    ensures DoEncodeMdAsWritten(len, nbits, asnlen) == AssertAborts <==> len + asnlen + 4 == (nbits + 7) / 8
    ensures DoEncodeMdAsWritten(16, 304, 18) == AssertAborts
  {
  }

  /**
    The size test as written accepts padding of two to seven octets, below
    the minimum of section 8.1 of RFC 2313, which DoEncodeMd rejects: a
    16-octet digest with the 18-octet prefix in a 320-bit key gets three.
  */
  lemma GuardAdmitsShortPadding(len: nat, nbits: nat, asn: seq<byte>)
    ensures DoEncodeMdAsWritten(16, 320, 18) == Encoded(3)
    ensures DoEncodeMdAsWritten(len, nbits, |asn|).Encoded? ==> DoEncodeMdAsWritten(len, nbits, |asn|).pad >= 2
    ensures DoEncodeMdAsWritten(len, nbits, |asn|).Encoded? && DoEncodeMdAsWritten(len, nbits, |asn|).pad >= MinPadding
            <==> len + |asn| + 3 + MinPadding <= (nbits + 7) / 8
  {
  }

  /** The DigestInfo prefix for MD5 of PKCS #1: SEQUENCE { SEQUENCE { OID md5, NULL }, OCTET STRING of 16 octets }. */
  const Md5DigestInfo: seq<byte> :=
    [0x30, 0x20, 0x30, 0x0c, 0x06, 0x08, 0x2a, 0x86, 0x48,
     0x86, 0xf7, 0x0d, 0x02, 0x05, 0x05, 0x00, 0x04, 0x10]

  /** Length of an MD5 digest, the len gpgsm_check_cert_sig passes. */
  const Md5Length: nat := 16

  /** The key size gpgsm_check_cert_sig passes to do_encode_md. */
  const FixedKeyBits: nat := 2048

  /** A DER element with the given tag and a short-form length at pos, whose contents fit in s. */
  predicate TlvAt(s: seq<byte>, pos: nat, tag: byte, len: nat)
  {
    pos + 2 <= |s| && s[pos] == tag && s[pos + 1] == len && pos + 2 + len <= |s|
  }

  /** The arcs of a DER-encoded object identifier: the first octet holds 40*a1 + a2, the rest base-128 numbers. */
  function OidArcs(s: seq<byte>): Option<seq<nat>>
  {
    if |s| == 0 then None
    else
      match Base128Arcs(s[1..], 0)
      case None => None
      case Some(rest) => Some([s[0] / 40, s[0] % 40] + rest)
  }

  /** Base-128 numbers, high bit set on all but the last octet of each; acc is the number read so far. */
  function Base128Arcs(s: seq<byte>, acc: nat): Option<seq<nat>>
  {
    if |s| == 0 then (if acc == 0 then Some([]) else None)
    else
      var v := acc * 128 + s[0] % 128;
      if s[0] >= 128 then Base128Arcs(s[1..], v)
      else
        match Base128Arcs(s[1..], 0)
        case None => None
        case Some(rest) => Some([v] + rest)
  }

  /** The last three arcs of the md5 identifier: 86 f7 0d is 113549, then 2 and 5. */
  lemma Md5OidTailArcs()
    ensures Base128Arcs([0x86, 0xf7, 0x0d, 0x02, 0x05], 0).Some?
    ensures Base128Arcs([0x86, 0xf7, 0x0d, 0x02, 0x05], 0).value == [113549, 2, 5]
  {
    var s6: seq<byte> := [0x05];
    var s5: seq<byte> := [0x02] + s6;
    var s4: seq<byte> := [0x0d] + s5;
    var s3: seq<byte> := [0xf7] + s4;
    var s2: seq<byte> := [0x86] + s3;
    assert s6[1..] == [] && s5[1..] == s6 && s4[1..] == s5 && s3[1..] == s4 && s2[1..] == s3;
    assert Base128Arcs([], 0) == Some([]);
    assert Base128Arcs(s6, 0).Some? && Base128Arcs(s6, 0).value == [5];
    assert Base128Arcs(s5, 0).Some? && Base128Arcs(s5, 0).value == [2, 5];
    assert Base128Arcs(s4, 887).Some? && Base128Arcs(s4, 887).value == [113549, 2, 5];
    assert Base128Arcs(s3, 6) == Base128Arcs(s4, 887);
    assert s2 == [0x86, 0xf7, 0x0d, 0x02, 0x05];
  }

  /** Octets 6..13 of the MD5 prefix encode the object identifier 1.2.840.113549.2.5 (md5). */
  lemma Md5OidArcs()
    ensures OidArcs(Md5DigestInfo[6..14]).Some?
    ensures OidArcs(Md5DigestInfo[6..14]).value == [1, 2, 840, 113549, 2, 5]
  {
    var s2: seq<byte> := [0x86, 0xf7, 0x0d, 0x02, 0x05];
    var s1: seq<byte> := [0x48] + s2;
    var s0: seq<byte> := [0x86] + s1;
    Md5OidTailArcs();
    assert s1[1..] == s2 && s0[1..] == s1;
    assert Base128Arcs(s1, 6).Some? && Base128Arcs(s1, 6).value == [840, 113549, 2, 5];
    assert Base128Arcs(s0, 0) == Base128Arcs(s1, 6);
    assert Md5DigestInfo[6..14] == [0x2a] + s0;
    assert Md5DigestInfo[6..14][1..] == s0;
  }

  /**
    The MD5 prefix followed by any 16-octet digest is the DER DigestInfo it
    claims to be: the outer SEQUENCE length 0x20 covers the rest of the
    encoding, the algorithm is OID 1.2.840.113549.2.5 with NULL parameters,
    and the OCTET STRING length 0x10 is the digest length passed to do_encode_md.
  */
  lemma Md5DigestInfoWellFormed(h: seq<byte>)
    requires |h| == Md5Length
    ensures var d := Md5DigestInfo + h;
            |Md5DigestInfo| == 18
            && TlvAt(d, 0, 0x30, |d| - 2) && Md5DigestInfo[1] == (18 - 2) + Md5Length
            && TlvAt(d, 2, 0x30, 12) && TlvAt(d, 4, 0x06, 8) && TlvAt(d, 14, 0x05, 0)
            && TlvAt(d, 16, 0x04, Md5Length) && d[18..] == h
            && OidArcs(d[6..14]).Some? && OidArcs(d[6..14]).value == [1, 2, 840, 113549, 2, 5]
  {
    var d := Md5DigestInfo + h;
    Md5OidArcs();
    assert d[6..14] == Md5DigestInfo[6..14];
  }

  /**
    The call gpgsm_check_cert_sig makes (16 octets, 2048 bits, the MD5
    prefix) gets a 256-octet frame with 219 padding octets, so it never
    fails, under the size test as written or the corrected one.
  */
  lemma FixedCallEncodes()
    ensures (FixedKeyBits + 7) / 8 == 256
    ensures 256 - Md5Length - |Md5DigestInfo| - 3 == 219
    ensures DoEncodeMdAsWritten(Md5Length, FixedKeyBits, |Md5DigestInfo|) == Encoded(219)
    ensures Md5Length + |Md5DigestInfo| + 3 + MinPadding <= (FixedKeyBits + 7) / 8
  {
  }

  /**
    The outcomes of the library calls gpgsm_check_cert_sig makes, in call
    order: whether gcry_md_open gives a handle, the code of ksba_cert_hash,
    the digest gcry_md_read returns, the codes of the two gcry_sexp_sscan
    calls (signature value, then issuer key), and gcry_pk_verify as a
    function of the encoded hash value.
  */
  datatype Libraries = Libraries(
    mdOpens: bool,
    hashRc: nat,
    digest: seq<byte>,
    sigScanRc: nat,
    pkeyScanRc: nat,
    verify: nat -> nat)

  /** The value gpgsm_check_cert_sig hands to gcry_pk_verify. */
  function HashValue(digest: seq<byte>): nat
    requires |digest| >= Md5Length
  {
    BeValue(EmsaFrame(219, Md5DigestInfo, digest[..Md5Length]))
  }

  /**
    gpgsm_check_cert_sig: the first failing call decides the error and no
    later call is made; when all succeed the result is gcry_pk_verify's
    verdict on the encoded MD5 hash.  map_gcry_err is taken to map 0 to 0.
  */
  method CheckCertSig(lib: Libraries) returns (r: Result<(), CertSigError>)
    requires |lib.digest| >= Md5Length
    ensures !lib.mdOpens ==> r == Failure(GeneralError)
    ensures lib.mdOpens && lib.hashRc != 0 ==> r == Failure(KsbaError(lib.hashRc))
    ensures lib.mdOpens && lib.hashRc == 0 && lib.sigScanRc != 0 ==> r == Failure(GcryError(lib.sigScanRc))
    ensures lib.mdOpens && lib.hashRc == 0 && lib.sigScanRc == 0 && lib.pkeyScanRc != 0
            ==> r == Failure(GcryError(lib.pkeyScanRc))
    ensures lib.mdOpens && lib.hashRc == 0 && lib.sigScanRc == 0 && lib.pkeyScanRc == 0
            ==> var rc := lib.verify(HashValue(lib.digest));
                if rc == 0 then r == Success(()) else r == Failure(GcryError(rc))
  {
    if !lib.mdOpens {
      return Failure(GeneralError);
    }
    if lib.hashRc != 0 {
      return Failure(KsbaError(lib.hashRc));
    }
    if lib.sigScanRc != 0 {
      return Failure(GcryError(lib.sigScanRc));
    }
    FixedCallEncodes();
    var frame := DoEncodeMd(lib.digest, Md5Length, FixedKeyBits, Md5DigestInfo);
    if frame.Failure? {
      assert false;
    }
    if lib.pkeyScanRc != 0 {
      return Failure(GcryError(lib.pkeyScanRc));
    }
    var rc := lib.verify(frame.value);
    if rc == 0 {
      return Success(());
    }
    return Failure(GcryError(rc));
  }

  /** The value handed to gcry_pk_verify is a 2048-bit number whose top octets are 00 01. */
  lemma HashValueRange(digest: seq<byte>)
    requires |digest| >= Md5Length
    ensures Pow256(254) <= HashValue(digest) < 2 * Pow256(254)
  {
    FrameValueRange(219, Md5DigestInfo, digest[..Md5Length]);
  }
}
