// The pure parts of the GNU .mo message catalog as jnlib/w32-gettext.c reads
// it: byte-order swapping, header validation, the hashpjw string hash, the
// double-hashing probe arithmetic and strcmp on NUL-terminated strings.

module MoCatalog {
  import opened Wrappers

  /** The magic number of a catalog written in the host's byte order. */
  const Magic: bv32 := 0x9504_12de
  /** The same magic number read from a catalog written in the other byte order. */
  const MagicSwapped: bv32 := 0xde12_0495
  /** Seven 32-bit header words. */
  const HeaderSize := 28
  /** The only catalog revision understood. */
  const MoRevision: bv32 := 0
  /** 2^32: every u32 lies below it. */
  const WordLimit := 0x1_0000_0000
  /** 2^28: every hashpjw value lies below it. */
  const HashBound: bv32 := 0x1000_0000

  // ---------------------------------------------------------------------
  // Byte order

  /** do_swap_u32: reverses the four octets of a word. */
  function SwapU32(i: bv32): bv32
  {
    (i << 24) | ((i & 0xff00) << 8) | ((i >> 8) & 0xff00) | (i >> 24)
  }

  /** SWAPIT: swaps only when the catalog was written in the other byte order. */
  function SwapIt(flag: bool, data: bv32): bv32
  {
    if flag then SwapU32(data) else data
  }

  lemma SwapIsInvolution(flag: bool, i: bv32)
    ensures SwapU32(SwapU32(i)) == i
    ensures SwapIt(flag, SwapIt(flag, i)) == i
    ensures SwapIt(false, i) == i
  {
  }

  lemma SwapMagic()
    ensures SwapU32(Magic) == MagicSwapped
    ensures SwapU32(MagicSwapped) == Magic
  {
  }

  /** A word as a little-endian host loads it from memory. */
  function HostWord(data: seq<bv8>, off: nat): bv32
    requires off + 4 <= |data|
  {
    ((data[off + 3] as bv32) << 24) | ((data[off + 2] as bv32) << 16)
    | ((data[off + 1] as bv32) << 8) | (data[off] as bv32)
  }

  /** A word read most significant octet first. */
  function BigEndianWord(data: seq<bv8>, off: nat): bv32
    requires off + 4 <= |data|
  {
    ((data[off] as bv32) << 24) | ((data[off + 1] as bv32) << 16)
    | ((data[off + 2] as bv32) << 8) | (data[off + 3] as bv32)
  }

  /** A swapped host read is exactly a read in the other byte order. */
  lemma SwapReadsOtherOrder(data: seq<bv8>, off: nat)
    requires off + 4 <= |data|
    ensures SwapU32(HostWord(data, off)) == BigEndianWord(data, off)
  {
  }

  /** The four octets a little-endian host stores for a word. */
  function Octets(w: bv32): (s: seq<bv8>)
    ensures |s| == 4
    ensures HostWord(s, 0) == w
  {
    [(w & 0xff) as bv8, ((w >> 8) & 0xff) as bv8, ((w >> 16) & 0xff) as bv8, (w >> 24) as bv8]
  }

  // ---------------------------------------------------------------------
  // Header

  /** The header fields load_domain keeps, already passed through SWAPIT. */
  datatype Header = Header(
    mustSwap: bool,
    nstrings: nat,
    origTab: nat,
    transTab: nat,
    hashSize: nat,
    hashTab: nat)

  /** A u32 as an integer. */
  function U32(w: bv32): (n: nat)
    ensures n < WordLimit
  {
    w as int
  }

  /** Every field fits the u32 it is read from. */
  predicate WordSized(h: Header)
  {
    h.nstrings < WordLimit && h.origTab < WordLimit && h.transTab < WordLimit
    && h.hashSize < WordLimit && h.hashTab < WordLimit
  }

  /** Header word k (0 = magic, 1 = revision, ...) as the host reads it. */
  function RawWord(data: seq<bv8>, k: nat): bv32
    requires k < 7 && HeaderSize <= |data|
  {
    HostWord(data, 4 * k)
  }

  /** The header checks of load_domain once the file is in memory. */
  function LoadHeader(data: seq<bv8>): (r: Option<Header>)
    ensures r.Some? ==> HeaderSize <= |data|
    ensures r.Some? ==> r.value.mustSwap == (RawWord(data, 0) == MagicSwapped)
    ensures r.Some? ==> WordSized(r.value)
  {
    if |data| < HeaderSize then None
    else
      var magic := RawWord(data, 0);
      if magic != Magic && magic != MagicSwapped then None
      else
        var swap := magic != Magic;
        if SwapIt(swap, RawWord(data, 1)) != MoRevision then None
        else
          Some(Header(swap,
                      U32(SwapIt(swap, RawWord(data, 2))),
                      U32(SwapIt(swap, RawWord(data, 3))),
                      U32(SwapIt(swap, RawWord(data, 4))),
                      U32(SwapIt(swap, RawWord(data, 5))),
                      U32(SwapIt(swap, RawWord(data, 6)))))
  }

  /** A catalog is refused exactly when it is shorter than the header, its
      magic number is neither byte order's, or its revision is not 0. */
  lemma LoadHeaderRejects(data: seq<bv8>)
    ensures LoadHeader(data).None? <==>
      |data| < HeaderSize
      || (RawWord(data, 0) != Magic && RawWord(data, 0) != MagicSwapped)
      || SwapIt(RawWord(data, 0) == MagicSwapped, RawWord(data, 1)) != 0
  {
    if HeaderSize <= |data| && RawWord(data, 0) == MagicSwapped {
      SwapMagic();
    }
  }

  /** The words of a catalog written by a host whose byte order is the
      host's own when `foreign` is false and the other one when it is true. */
  function FileWord(foreign: bool, w: bv32): (s: seq<bv8>)
    ensures |s| == 4
  {
    Octets(SwapIt(foreign, w))
  }

  /** Words written one after another. */
  function EncodeWords(foreign: bool, ws: seq<bv32>): (s: seq<bv8>)
    ensures |s| == 4 * |ws|
  {
    if |ws| == 0 then [] else FileWord(foreign, ws[0]) + EncodeWords(foreign, ws[1..])
  }

  /** The seven header words of a catalog whose five remaining header
      fields are `fields`, magic first. */
  function HeaderWords(fields: seq<bv32>): (ws: seq<bv32>)
    requires |fields| == 5
    ensures |ws| == 7
  {
    [Magic, MoRevision] + fields
  }

  /** The header a catalog writer emits, in the byte order `foreign` names. */
  function EncodeHeader(foreign: bool, fields: seq<bv32>): (s: seq<bv8>)
    requires |fields| == 5
    ensures |s| == HeaderSize
  {
    EncodeWords(foreign, HeaderWords(fields))
  }

  lemma {:induction false} EncodedWordAt(foreign: bool, ws: seq<bv32>, rest: seq<bv8>, k: nat)
    requires k < |ws|
    ensures (EncodeWords(foreign, ws) + rest)[4 * k..4 * k + 4] == FileWord(foreign, ws[k])
  {
    var head := FileWord(foreign, ws[0]);
    var tail := EncodeWords(foreign, ws[1..]) + rest;
    assert EncodeWords(foreign, ws) + rest == head + tail;
    if k > 0 {
      EncodedWordAt(foreign, ws[1..], rest, k - 1);
      SliceAfterPrefix(head, tail, 4 * k, 4 * k + 4);
    }
  }

  lemma SliceAfterPrefix(a: seq<bv8>, b: seq<bv8>, i: nat, j: nat)
    requires |a| <= i <= j <= |a| + |b|
    ensures (a + b)[i..j] == b[i - |a|..j - |a|]
  {
  }

  lemma ReadFileWord(data: seq<bv8>, k: nat, foreign: bool, w: bv32)
    requires k < 7 && HeaderSize <= |data|
    requires data[4 * k..4 * k + 4] == FileWord(foreign, w)
    ensures SwapIt(foreign, RawWord(data, k)) == w
  {
    HostWordOfSlice(data, 4 * k, FileWord(foreign, w));
    SwapIsInvolution(foreign, w);
  }

  lemma HostWordOfSlice(data: seq<bv8>, off: nat, s: seq<bv8>)
    requires off + 4 <= |data| && data[off..off + 4] == s
    ensures HostWord(data, off) == HostWord(s, 0)
  {
    assert data[off] == s[0] && data[off + 1] == s[1];
    assert data[off + 2] == s[2] && data[off + 3] == s[3];
  }

  lemma EncodedHeaderWords(foreign: bool, fields: seq<bv32>, rest: seq<bv8>)
    requires |fields| == 5
    ensures forall k :: 0 <= k < 7 ==>
      SwapIt(foreign, RawWord(EncodeHeader(foreign, fields) + rest, k)) == HeaderWords(fields)[k]
  {
    var data := EncodeHeader(foreign, fields) + rest;
    forall k | 0 <= k < 7
      ensures SwapIt(foreign, RawWord(data, k)) == HeaderWords(fields)[k]
    {
      EncodedWordAt(foreign, HeaderWords(fields), rest, k);
      ReadFileWord(data, k, foreign, HeaderWords(fields)[k]);
    }
  }

  /** Round trip: a header written in either byte order is read back with
      the fields that were written, and must_swap records the order. */
  lemma LoadEncodedHeader(foreign: bool, fields: seq<bv32>, rest: seq<bv8>)
    requires |fields| == 5
    ensures LoadHeader(EncodeHeader(foreign, fields) + rest)
         == Some(Header(foreign, U32(fields[0]), U32(fields[1]), U32(fields[2]),
                        U32(fields[3]), U32(fields[4])))
  {
    var f := foreign;
    var data := EncodeHeader(f, fields) + rest;
    var ws := HeaderWords(fields);
    EncodedHeaderWords(f, fields, rest);
    assert SwapIt(f, RawWord(data, 0)) == Magic;
    SwapMagic();
    SwapIsInvolution(f, RawWord(data, 0));
    assert RawWord(data, 0) == SwapIt(f, Magic);
    assert (RawWord(data, 0) != Magic) == f;
    assert SwapIt(f, RawWord(data, 1)) == MoRevision;
    assert ws[2] == fields[0] && ws[3] == fields[1] && ws[4] == fields[2];
    assert ws[5] == fields[3] && ws[6] == fields[4];
  }

  // ---------------------------------------------------------------------
  // hashpjw

  /** `(unsigned long) *str` with a signed char: octets of 0x80 and above
      are sign-extended to 32 bits. */
  function HashChar(c: bv8): bv32
  {
    if c >= 0x80 then (c as bv32) | 0xffff_ff00 else c as bv32
  }

  /** `hval <<= 4` on a 32-bit word is multiplication by 16 modulo 2^32. */
  lemma ShiftLeftFour(h: bv32)
    ensures h << 4 == h * 16
  {
  }

  /** The second half of a hash_string step: the top nibble g, when set, is
      folded into bits 4..7 and then cleared. */
  function HashFold(h: bv32): (r: bv32)
    ensures r < HashBound
  {
    var g := h & 0xf000_0000;
    if g != 0 then (h ^ (g >> 24)) ^ g else h
  }

  /** One iteration of hash_string with 32-bit words. */
  function HashStep(hval: bv32, c: bv8): (r: bv32)
    ensures r < HashBound
  {
    HashFold(hval * 16 + HashChar(c))
  }

  /** hashpjw of a NUL-free string, one step per octet from the left. */
  function HashPjw(s: seq<bv8>): (h: bv32)
    ensures h < HashBound
  {
    if |s| == 0 then 0 else HashStep(HashPjw(s[..|s| - 1]), s[|s| - 1])
  }

  lemma FoldTopNibble(shifted: bv32, g: bv32, mid: bv32, after: bv32)
    requires g == shifted & 0xf000_0000 && g != 0
    requires mid == shifted ^ (g >> 24) && after == mid ^ g
    ensures after == HashFold(shifted)
  {
    assert after == (shifted ^ (g >> 24)) ^ g;
  }

  lemma StepOfShifted(before: bv32, c: bv8, shifted: bv32)
    requires shifted == before * 16 + HashChar(c)
    ensures HashStep(before, c) == HashFold(shifted)
  {
  }

  /** The body of hash_string's loop for one octet. */
  method MixOctet(hval0: bv32, c: bv8) returns (hval: bv32)
    ensures hval == HashStep(hval0, c)
  {
    hval := hval0 * 16 + HashChar(c);
    ghost var shifted := hval;
    StepOfShifted(hval0, c, shifted);
    var g := hval & 0xf000_0000;
    if g != 0 {
      hval := hval ^ (g >> 24);
      ghost var mid := hval;
      hval := hval ^ g;
      FoldTopNibble(shifted, g, mid, hval);
    }
  }

  /** hash_string. */
  method HashString(s: seq<bv8>) returns (hval: bv32)
    ensures hval == HashPjw(s)
    ensures hval < HashBound
  {
    hval := 0;
    var i := 0;
    while i < |s|
      invariant i <= |s|
      invariant hval == HashPjw(s[..i])
    {
      assert s[..i + 1][..i] == s[..i];
      hval := MixOctet(hval, s[i]);
      i := i + 1;
    }
    assert s[..i] == s;
  }

  // ---------------------------------------------------------------------
  // Double hashing

  /** The first slot probed. */
  function ProbeStart(hash: nat, size: nat): (idx: nat)
    requires size > 2
    ensures idx < size
  {
    hash % size
  }

  /** The probe increment `1 + hash % (size - 2)`. */
  function ProbeIncr(hash: nat, size: nat): (incr: nat)
    requires size > 2
    ensures 1 <= incr <= size - 2
  {
    1 + hash % (size - 2)
  }

  /** The step of gettext's probe loop, written so that no u32 overflows. */
  function ProbeNext(idx: nat, incr: nat, size: nat): (next: nat)
    requires idx < size && 1 <= incr <= size - 2
    ensures next < size
  {
    if idx >= size - incr then idx - (size - incr) else idx + incr
  }

  /** The step is addition modulo the table size, so it stays in the table. */
  lemma ProbeNextIsModular(idx: nat, incr: nat, size: nat)
    requires idx < size && 1 <= incr <= size - 2
    ensures ProbeNext(idx, incr, size) == (idx + incr) % size
  {
    if idx >= size - incr {
      ModOfOneWrap(idx + incr, size);
    } else {
      ModBelow(idx + incr, size);
    }
  }

  lemma ModBelow(x: nat, n: nat)
    requires x < n
    ensures x % n == x
  {
  }

  lemma ModOfOneWrap(x: nat, n: nat)
    requires n <= x < 2 * n
    ensures x % n == x - n
  {
  }

  /** The slot of probe number m: the first slot, then m steps. */
  function ProbeSlot(hash: nat, size: nat, m: nat): (slot: nat)
    requires size > 2
    ensures slot < size
  {
    if m == 0 then ProbeStart(hash, size)
    else
      ProbeNext(ProbeSlot(hash, size, m - 1), ProbeIncr(hash, size), size)
  }

  /** Probe m lands on the start plus m increments, modulo the table size:
      the closed form of double hashing. */
  lemma {:induction false} ProbeSlotModular(hash: nat, size: nat, m: nat)
    requires size > 2
    ensures ProbeSlot(hash, size, m) == (ProbeStart(hash, size) + m * ProbeIncr(hash, size)) % size
  {
    var start := ProbeStart(hash, size);
    var incr := ProbeIncr(hash, size);
    if m == 0 {
      ModBelow(start, size);
    } else {
      ProbeSlotModular(hash, size, m - 1);
      var a := start + (m - 1) * incr;
      ProbeNextIsModular(a % size, incr, size);
      ModAddAbsorbs(a, incr, size);
      assert a + incr == start + m * incr;
    }
  }

  lemma ModAddAbsorbs(a: nat, b: nat, n: nat)
    requires n > 0
    ensures (a % n + b) % n == (a + b) % n
  {
    var q := a / n;
    var r := (a % n + b) % n;
    var q2 := (a % n + b) / n;
    assert a % n + b == q2 * n + r;
    assert a + b == (q + q2) * n + r;
    ModUnique(a + b, q + q2, r, n);
  }

  lemma {:induction false} MulAtLeast(k: nat, n: nat)
    requires k >= 1
    ensures k * n >= n
  {
    if k > 1 {
      MulAtLeast(k - 1, n);
      assert k * n == (k - 1) * n + n;
    }
  }

  lemma ModUnique(x: int, q: int, r: int, n: int)
    requires n > 0 && 0 <= r < n && x == q * n + r
    ensures x % n == r
  {
    var d := x / n;
    var m := x % n;
    assert x == d * n + m;
    assert (d - q) * n == r - m by {
      assert d * n - q * n == (d - q) * n;
    }
    if d > q {
      MulAtLeast(d - q, n);
    } else if d < q {
      MulAtLeast(q - d, n);
    }
  }

  // ---------------------------------------------------------------------
  // NUL-terminated strings

  predicate NulFree(s: seq<bv8>)
  {
    forall i :: 0 <= i < |s| ==> s[i] != 0
  }

  /** Some NUL ends the string that starts at off. */
  predicate Terminated(data: seq<bv8>, off: nat)
  {
    exists j :: off <= j < |data| && data[j] == 0
  }

  /** The index of the NUL that ends the string at data + off. */
  function NulIndex(data: seq<bv8>, off: nat): (e: nat)
    requires Terminated(data, off)
    ensures off <= e < |data| && data[e] == 0
    ensures forall j :: off <= j < e ==> data[j] != 0
    decreases |data| - off
  {
    if data[off] == 0 then off
    else
      assert Terminated(data, off + 1);
      NulIndex(data, off + 1)
  }

  /** The C string at data + off: the octets up to the terminating NUL. */
  function CStr(data: seq<bv8>, off: nat): (s: seq<bv8>)
    requires Terminated(data, off)
    ensures NulFree(s)
    ensures off + |s| < |data| && data[off + |s|] == 0
  {
    data[off..NulIndex(data, off)]
  }

  /** The sign of strcmp, octets compared as unsigned char. */
  function Cmp(a: seq<bv8>, b: seq<bv8>): int
  {
    if |a| == 0 && |b| == 0 then 0
    else if |a| == 0 then -1
    else if |b| == 0 then 1
    else if a[0] < b[0] then -1
    else if a[0] > b[0] then 1
    else Cmp(a[1..], b[1..])
  }

  lemma {:induction false} CmpZeroIffEqual(a: seq<bv8>, b: seq<bv8>)
    ensures Cmp(a, b) == 0 <==> a == b
  {
    if |a| > 0 && |b| > 0 && a[0] == b[0] {
      CmpZeroIffEqual(a[1..], b[1..]);
      if a[1..] == b[1..] {
        assert a == [a[0]] + a[1..] && b == [b[0]] + b[1..];
      }
    }
  }

  lemma {:induction false} CmpAntisymmetric(a: seq<bv8>, b: seq<bv8>)
    ensures Cmp(a, b) == -Cmp(b, a)
  {
    if |a| > 0 && |b| > 0 && a[0] == b[0] {
      CmpAntisymmetric(a[1..], b[1..]);
    }
  }

  lemma {:induction false} CmpTransitive(a: seq<bv8>, b: seq<bv8>, c: seq<bv8>)
    requires (Cmp(a, b) < 0 && Cmp(b, c) <= 0) || (Cmp(a, b) <= 0 && Cmp(b, c) < 0)
    ensures Cmp(a, c) < 0
  {
    if |a| > 0 && |b| > 0 && |c| > 0 && a[0] == b[0] && b[0] == c[0] {
      CmpTransitive(a[1..], b[1..], c[1..]);
    }
  }
}
