// A loaded message catalog (struct loaded_domain of jnlib/w32-gettext.c):
// the file image, its header, and the per-string cache that get_string
// fills when translations are converted to the native code page.

module GettextDomain {
  import opened Wrappers
  import opened MoCatalog

  /** One entry of mapped[]: 0, 1 or 2 in the C code. */
  datatype Mapping = Unmapped | InPlace | InOverflow

  /** A node of overflow_space: a converted string too long for its slot. */
  datatype OverflowNode = OverflowNode(idx: nat, d: seq<bv8>)

  /** The string of the first node for idx, scanning from the head of the list. */
  function OverflowLookup(os: seq<OverflowNode>, idx: nat): Option<seq<bv8>>
  {
    if |os| == 0 then None
    else if os[0].idx == idx then Some(os[0].d)
    else OverflowLookup(os[1..], idx)
  }

  /** A header word of the catalog, read through SWAPIT. */
  function Word(data: seq<bv8>, h: Header, off: nat): nat
    requires off + 4 <= |data|
  {
    SwapIt(h.mustSwap, HostWord(data, off)) as int
  }

  /** The two tables of string descriptors and the hash table lie inside
      the file. load_domain never checks this. */
  predicate TablesFit(data: seq<bv8>, h: Header)
  {
    h.origTab + 8 * h.nstrings <= |data|
    && h.transTab + 8 * h.nstrings <= |data|
    && (h.hashSize > 2 ==> h.hashTab + 4 * h.hashSize <= |data|)
  }

  /** orig_tab[k].length */
  function OrigLength(data: seq<bv8>, h: Header, k: nat): nat
    requires TablesFit(data, h) && k < h.nstrings
  {
    Word(data, h, h.origTab + 8 * k)
  }

  /** orig_tab[k].offset */
  function OrigOffset(data: seq<bv8>, h: Header, k: nat): nat
    requires TablesFit(data, h) && k < h.nstrings
  {
    Word(data, h, h.origTab + 8 * k + 4)
  }

  /** trans_tab[k].offset */
  function TransOffset(data: seq<bv8>, h: Header, k: nat): nat
    requires TablesFit(data, h) && k < h.nstrings
  {
    Word(data, h, h.transTab + 8 * k + 4)
  }

  /** hash_tab[i]: 0 for an empty slot, otherwise one more than a string index. */
  function HashEntry(data: seq<bv8>, h: Header, i: nat): nat
    requires TablesFit(data, h) && 2 < h.hashSize && i < h.hashSize
  {
    Word(data, h, h.hashTab + 4 * i)
  }

  /** Everything gettext dereferences is inside the file: the tables, a
      terminating NUL after every string, and hash entries naming strings
      that exist. The C code trusts the catalog for all of this. */
  predicate CatalogInside(data: seq<bv8>, h: Header)
  {
    TablesFit(data, h)
    && (forall k :: 0 <= k < h.nstrings ==>
          Terminated(data, OrigOffset(data, h, k)) && Terminated(data, TransOffset(data, h, k)))
    && (2 < h.hashSize ==>
          forall i :: 0 <= i < h.hashSize ==> HashEntry(data, h, i) <= h.nstrings)
  }

  class Domain {
    /** The file image (DATA). */
    const data: seq<bv8>
    /** The header fields, already byte-swapped. */
    const header: Header
    /** mapped[]: one entry per string pair. */
    const mapped: array<Mapping>
    /** DATA_NATIVE: converted strings stored at the offset of their original. */
    var native: map<nat, seq<bv8>>
    /** overflow_space, head first. */
    var overflow: seq<OverflowNode>

    constructor (data: seq<bv8>, header: Header)
      ensures this.data == data && this.header == header
      ensures fresh(mapped) && Pristine()
    {
      this.data := data;
      this.header := header;
      mapped := new Mapping[header.nstrings](_ => Unmapped);
      native := map[];
      overflow := [];
    }

    function NStrings(): nat
    {
      header.nstrings
    }

    /** The state load_domain leaves: nothing converted yet. */
    predicate Pristine()
      reads this, mapped
    {
      mapped.Length == NStrings()
      && (forall k :: 0 <= k < mapped.Length ==> mapped[k] == Unmapped)
      && native == map[] && overflow == []
    }

    /** The original string of pair k. */
    function Orig(k: nat): seq<bv8>
      requires CatalogInside(data, header) && k < NStrings()
    {
      CStr(data, OrigOffset(data, header, k))
    }

    /** The UTF-8 translation of pair k. */
    function Trans(k: nat): seq<bv8>
      requires CatalogInside(data, header) && k < NStrings()
    {
      CStr(data, TransOffset(data, header, k))
    }

    /** The cache agrees with converting the translation afresh: an entry
        marked 1 has its converted string at its offset in DATA_NATIVE, an
        entry marked 2 has it in the first overflow node for its index. */
    predicate Consistent(conv: seq<bv8> -> seq<bv8>)
      reads this, mapped
    {
      mapped.Length == NStrings() && CatalogInside(data, header)
      && (forall k :: 0 <= k < mapped.Length && mapped[k] == InPlace ==>
            TransOffset(data, header, k) in native
            && native[TransOffset(data, header, k)] == conv(Trans(k)))
      && (forall k :: 0 <= k < mapped.Length && mapped[k] == InOverflow ==>
            OverflowLookup(overflow, k) == Some(conv(Trans(k))))
    }

    /** A freshly loaded catalog whose offsets are inside the file is consistent. */
    lemma PristineIsConsistent(conv: seq<bv8> -> seq<bv8>)
      requires Pristine() && CatalogInside(data, header)
      ensures Consistent(conv)
    {
    }

    /** get_string: the translation of pair idx, converted to the native code
        page unless UTF-8 was selected, caching the conversion. */
    method GetString(idx: nat, wantUtf8: bool, conv: seq<bv8> -> seq<bv8>) returns (p: seq<bv8>)
      requires Consistent(conv) && idx < NStrings()
      modifies this, mapped
      ensures Consistent(conv)
      ensures p == if wantUtf8 then Trans(idx) else conv(Trans(idx))
      ensures wantUtf8 || old(mapped[idx]) != Unmapped ==>
                unchanged(this) && unchanged(mapped)
      ensures forall k :: 0 <= k < mapped.Length && k != idx ==> mapped[k] == old(mapped[k])
      ensures forall k :: 0 <= k < mapped.Length && old(mapped[k]) != Unmapped ==>
                mapped[k] == old(mapped[k])
      ensures !wantUtf8 && old(mapped[idx]) == Unmapped ==>
                if |conv(Trans(idx))| <= |Trans(idx)| then
                  mapped[idx] == InPlace && overflow == old(overflow)
                  && native == old(native)[TransOffset(data, header, idx) := conv(Trans(idx))]
                else
                  mapped[idx] == InOverflow && native == old(native)
                  && overflow == [OverflowNode(idx, conv(Trans(idx)))] + old(overflow)
    {
      var off := TransOffset(data, header, idx);
      if wantUtf8 {
        p := CStr(data, off);
      } else if mapped[idx] == Unmapped {
        var pOrig := CStr(data, off);
        var plen := |pOrig|;
        var buf := conv(pOrig);
        var buflen := |buf|;
        if buflen <= plen {
          native := native[off := buf];
          mapped[idx] := InPlace;
          p := native[off];
        } else {
          OverflowLookupPush(overflow, idx, buf);
          overflow := [OverflowNode(idx, buf)] + overflow;
          p := overflow[0].d;
          mapped[idx] := InOverflow;
        }
      } else if mapped[idx] == InPlace {
        p := native[off];
      } else {
        var i := 0;
        while i < |overflow| && overflow[i].idx != idx
          invariant i <= |overflow|
          invariant OverflowLookup(overflow[i..], idx) == OverflowLookup(overflow, idx)
        {
          assert overflow[i..][1..] == overflow[i + 1..];
          i := i + 1;
        }
        if i == |overflow| {
          assert false;
        }
        p := overflow[i].d;
      }
    }
  }

  /** Pushing a node for idx leaves every other index's lookup as it was and
      makes idx find the new node. */
  lemma OverflowLookupPush(os: seq<OverflowNode>, idx: nat, d: seq<bv8>)
    ensures OverflowLookup([OverflowNode(idx, d)] + os, idx) == Some(d)
    ensures forall k :: k != idx ==>
      OverflowLookup([OverflowNode(idx, d)] + os, k) == OverflowLookup(os, k)
  {
    assert ([OverflowNode(idx, d)] + os)[1..] == os;
  }

  /** load_domain once the file is in memory: the header checks, then a
      domain with an all-zero mapped[] and no overflow nodes. */
  method LoadDomain(data: seq<bv8>) returns (d: Domain?)
    ensures d == null <==> LoadHeader(data).None?
    ensures d != null ==>
      fresh(d) && fresh(d.mapped) && d.data == data
      && LoadHeader(data) == Some(d.header) && d.Pristine()
  {
    var h := LoadHeader(data);
    if h.None? {
      return null;
    }
    d := new Domain(data, h.value);
  }
}
