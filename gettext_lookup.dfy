// Message lookup and catalog selection of jnlib/w32-gettext.c: the
// double-hashing probe and binary search of gettext, ngettext, and
// set_gettext_file's replacement of the active domain.

module GettextLookup {
  import opened Wrappers
  import opened MoCatalog
  import opened GettextDomain
  import opened CatalogPath

  /** hash_string of the message id, as the u32 gettext computes with. */
  function MsgHash(msgid: seq<bv8>): nat
  {
    HashPjw(msgid) as int
  }

  /** hash_string(msgid), widened to an integer for the probe arithmetic. */
  method HashOf(msgid: seq<bv8>) returns (hv: nat)
    ensures hv == MsgHash(msgid)
  {
    var hashVal := HashString(msgid);
    hv := hashVal as int;
  }

  /** `hash_size > 2 && hash_tab`: hash_tab points into the file, so it is never NULL. */
  predicate HasHashTable(d: Domain)
  {
    2 < d.header.hashSize
  }

  /** The slot of probe number m for msgid. */
  function Slot(d: Domain, msgid: seq<bv8>, m: nat): (i: nat)
    requires HasHashTable(d)
    ensures i < d.header.hashSize
  {
    ProbeSlot(MsgHash(msgid), d.header.hashSize, m)
  }

  /** Slot i names a string of the same stored length that compares equal to msgid. */
  predicate SlotHit(d: Domain, msgid: seq<bv8>, i: nat)
    requires CatalogInside(d.data, d.header) && HasHashTable(d) && i < d.header.hashSize
  {
    var nstr := HashEntry(d.data, d.header, i);
    nstr != 0 && OrigLength(d.data, d.header, nstr - 1) == |msgid| && d.Orig(nstr - 1) == msgid
  }

  /** The probe stops at slot i: it is empty or a hit. */
  predicate SlotEnds(d: Domain, msgid: seq<bv8>, i: nat)
    requires CatalogInside(d.data, d.header) && HasHashTable(d) && i < d.header.hashSize
  {
    HashEntry(d.data, d.header, i) == 0 || SlotHit(d, msgid, i)
  }

  /** Probe number m stops. */
  predicate StopsAt(d: Domain, msgid: seq<bv8>, m: nat)
    requires CatalogInside(d.data, d.header) && HasHashTable(d)
  {
    SlotEnds(d, msgid, Slot(d, msgid, m))
  }

  /** Some probe for msgid reaches an empty slot or a hit; otherwise the C
      loop runs for ever. */
  ghost predicate ProbeEnds(d: Domain, msgid: seq<bv8>)
    requires CatalogInside(d.data, d.header) && HasHashTable(d)
  {
    exists m: nat :: StopsAt(d, msgid, m)
  }

  /** Probe m is the first to stop, and found is what it yields: nothing
      for an empty slot, the index of the pair for a hit. */
  predicate ProbeStopsAt(d: Domain, msgid: seq<bv8>, m: nat, found: Option<nat>)
    requires CatalogInside(d.data, d.header) && HasHashTable(d)
  {
    (forall j: nat :: j < m ==> !StopsAt(d, msgid, j))
    && StopsAt(d, msgid, m)
    && found == EntryPair(HashEntry(d.data, d.header, Slot(d, msgid, m)))
  }

  /** The pair a hash entry names: none for 0, pair nstr - 1 otherwise. */
  function EntryPair(nstr: nat): Option<nat>
  {
    if nstr == 0 then None else Some(nstr - 1)
  }

  /** The test gettext applies to hash slot i: nstr is the entry, and the
      probe stops here when nstr is 0 or names a string of msgid's length
      that compares equal to it. */
  method TestSlot(d: Domain, msgid: seq<bv8>, i: nat) returns (nstr: nat, hit: bool)
    requires CatalogInside(d.data, d.header) && HasHashTable(d) && i < d.header.hashSize
    ensures nstr == HashEntry(d.data, d.header, i) && nstr <= d.NStrings()
    ensures nstr == 0 || hit <==> SlotEnds(d, msgid, i)
    ensures hit ==> nstr != 0 && d.Orig(nstr - 1) == msgid
  {
    nstr := HashEntry(d.data, d.header, i);
    hit := false;
    if nstr != 0 {
      CmpZeroIffEqual(msgid, d.Orig(nstr - 1));
      hit := OrigLength(d.data, d.header, nstr - 1) == |msgid| && Cmp(msgid, d.Orig(nstr - 1)) == 0;
    }
  }

  /** Probe m, at slot i, stops with what the slot holds after m probes
      that did not. */
  lemma StopsHere(d: Domain, msgid: seq<bv8>, m: nat, i: nat, found: Option<nat>)
    requires CatalogInside(d.data, d.header) && HasHashTable(d)
    requires i == Slot(d, msgid, m)
    requires forall j: nat :: j < m ==> !StopsAt(d, msgid, j)
    requires SlotEnds(d, msgid, i)
    requires found == EntryPair(HashEntry(d.data, d.header, i))
    ensures found.Some? ==> found.value < d.NStrings() && d.Orig(found.value) == msgid
    ensures ProbeStopsAt(d, msgid, m, found)
  {
    assert StopsAt(d, msgid, m);
    if found.Some? {
      var nstr := HashEntry(d.data, d.header, i);
      assert nstr != 0 && SlotHit(d, msgid, i);
      assert d.Orig(nstr - 1) == msgid;
    }
  }

  /** Probe m, at slot i, goes on: the probe that stops lies further out. */
  lemma GoesOn(d: Domain, msgid: seq<bv8>, m: nat, i: nat, stop: nat)
    requires CatalogInside(d.data, d.header) && HasHashTable(d)
    requires i == Slot(d, msgid, m)
    requires forall j: nat :: j < m ==> !StopsAt(d, msgid, j)
    requires !SlotEnds(d, msgid, i) && StopsAt(d, msgid, stop)
    ensures forall j: nat :: j <= m ==> !StopsAt(d, msgid, j)
    ensures m < stop
  {
  }

  /** The original strings ascend in strcmp order, as msgfmt writes them. */
  predicate SortedOrig(d: Domain)
    requires CatalogInside(d.data, d.header)
  {
    forall i, j {:trigger Cmp(d.Orig(i), d.Orig(j))} :: 0 <= i < j < d.NStrings() ==> Cmp(d.Orig(i), d.Orig(j)) <= 0
  }

  /** The hashing half of gettext. */
  method HashLookup(d: Domain, msgid: seq<bv8>) returns (found: Option<nat>)
    requires NulFree(msgid)
    requires CatalogInside(d.data, d.header) && HasHashTable(d)
    requires ProbeEnds(d, msgid)
    ensures found.Some? ==> found.value < d.NStrings() && d.Orig(found.value) == msgid
    ensures exists m: nat :: ProbeStopsAt(d, msgid, m, found)
  {
    var hashVal := HashOf(msgid);
    var size := d.header.hashSize;
    var idx := hashVal % size;
    var incr := 1 + hashVal % (size - 2);
    ghost var m: nat := 0;
    var nstr, hit := TestSlot(d, msgid, idx);
    if nstr == 0 || hit {
      found := EntryPair(nstr);
      StopsHere(d, msgid, 0, idx, found);
      return;
    }
    ghost var stop: nat :| StopsAt(d, msgid, stop);
    GoesOn(d, msgid, 0, idx, stop);
    while true
      invariant m < stop
      invariant idx == Slot(d, msgid, m) && incr == ProbeIncr(MsgHash(msgid), size)
      invariant forall j: nat :: j <= m ==> !StopsAt(d, msgid, j)
      decreases stop - m
    {
      if idx >= size - incr {
        idx := idx - (size - incr);
      } else {
        idx := idx + incr;
      }
      m := m + 1;
      assert idx == Slot(d, msgid, m);
      nstr, hit := TestSlot(d, msgid, idx);
      if nstr == 0 || hit {
        found := EntryPair(nstr);
        StopsHere(d, msgid, m, idx, found);
        return;
      }
      GoesOn(d, msgid, m, idx, stop);
    }
  }

  /** msgid sorts after original string k. */
  predicate After(d: Domain, msgid: seq<bv8>, k: nat)
    requires CatalogInside(d.data, d.header) && k < d.NStrings()
  {
    Cmp(msgid, d.Orig(k)) > 0
  }

  /** msgid sorts before original string k. */
  predicate Before(d: Domain, msgid: seq<bv8>, k: nat)
    requires CatalogInside(d.data, d.header) && k < d.NStrings()
  {
    Cmp(msgid, d.Orig(k)) < 0
  }

  /** In a sorted table, msgid after string act is after every string up to act. */
  lemma AfterPrefix(d: Domain, msgid: seq<bv8>, bottom: nat, act: nat)
    requires CatalogInside(d.data, d.header) && SortedOrig(d)
    requires bottom <= act < d.NStrings() && After(d, msgid, act)
    requires forall k :: 0 <= k < bottom ==> After(d, msgid, k)
    ensures forall k :: 0 <= k <= act ==> After(d, msgid, k)
  {
    forall k | bottom <= k < act
      ensures After(d, msgid, k)
    {
      CmpAntisymmetric(msgid, d.Orig(act));
      CmpTransitive(d.Orig(k), d.Orig(act), msgid);
      CmpAntisymmetric(d.Orig(k), msgid);
    }
  }

  /** In a sorted table, msgid before string act is before every string from act on. */
  lemma BeforeSuffix(d: Domain, msgid: seq<bv8>, act: nat, top: nat)
    requires CatalogInside(d.data, d.header) && SortedOrig(d)
    requires act < top <= d.NStrings() && Before(d, msgid, act)
    requires forall k :: top <= k < d.NStrings() ==> Before(d, msgid, k)
    ensures forall k :: act <= k < d.NStrings() ==> Before(d, msgid, k)
  {
    forall k | act < k < top
      ensures Before(d, msgid, k)
    {
      CmpTransitive(msgid, d.Orig(act), d.Orig(k));
    }
  }

  /** The binary-search half of gettext. It only reports exact matches, and
      on a sorted table it misses nothing. */
  method BinarySearch(d: Domain, msgid: seq<bv8>) returns (found: Option<nat>)
    requires NulFree(msgid)
    requires CatalogInside(d.data, d.header)
    ensures found.Some? ==> found.value < d.NStrings() && d.Orig(found.value) == msgid
    ensures found.None? && SortedOrig(d) ==>
              forall k :: 0 <= k < d.NStrings() ==> d.Orig(k) != msgid
  {
    var bottom := 0;
    var top := d.NStrings();
    while bottom < top
      invariant 0 <= bottom <= top <= d.NStrings()
      invariant SortedOrig(d) ==> forall k :: 0 <= k < bottom ==> After(d, msgid, k)
      invariant SortedOrig(d) ==> forall k :: top <= k < d.NStrings() ==> Before(d, msgid, k)
      decreases top - bottom
    {
      var act := (bottom + top) / 2;
      var cmpVal := Cmp(msgid, d.Orig(act));
      if cmpVal < 0 {
        if SortedOrig(d) {
          BeforeSuffix(d, msgid, act, top);
        }
        top := act;
      } else if cmpVal > 0 {
        if SortedOrig(d) {
          AfterPrefix(d, msgid, bottom, act);
        }
        bottom := act + 1;
      } else {
        CmpZeroIffEqual(msgid, d.Orig(act));
        return Some(act);
      }
    }
    forall k | 0 <= k < d.NStrings() && SortedOrig(d)
      ensures d.Orig(k) != msgid
    {
      if k < bottom {
        assert After(d, msgid, k);
      } else {
        assert Before(d, msgid, k);
      }
      CmpZeroIffEqual(msgid, d.Orig(k));
    }
    return None;
  }

  /** load_domain on a path: None when the file cannot be opened. */
  method LoadDomainAt(env: Env, path: string) returns (d: Domain?)
    ensures d == null <==> !Loads(env, path)
    ensures d != null ==> fresh(d) && fresh(d.mapped) && Holds(d, env, path)
  {
    if path !in env.files {
      return null;
    }
    d := LoadDomain(env.files[path]);
  }

  /** d is the untouched domain loaded from the file at path. */
  predicate Holds(d: Domain, env: Env, path: string)
    reads d, d.mapped
  {
    path in env.files && d.data == env.files[path]
    && LoadHeader(d.data) == Some(d.header) && d.Pristine()
  }

  /** One pass of set_gettext_file's search: the identifier the pass
      offers, cut at '.', and if that catalog does not load and the
      identifier has a '_', the identifier cut there. */
  method TryPass(env: Env, pgmdir: string, filename: string, regkey: Option<string>, pass: nat)
    returns (domain: Domain?, langid: string, ghost hit: Attempt)
    ensures domain == null <==> FirstLoadable(env, PassAttempts(env, pgmdir, filename, regkey, pass)).None?
    ensures domain != null ==>
              fresh(domain) && fresh(domain.mapped) && Holds(domain, env, hit.path)
              && FirstLoadable(env, PassAttempts(env, pgmdir, filename, regkey, pass)) == Some(hit)
              && hit.langid == Some(langid)
  {
    hit := Attempt("", None);
    langid := "";
    domain := null;
    var id := PassLangid(env, regkey, pass);
    if id.None? {
      return;
    }
    var dir := PassDir(env, pgmdir, regkey, pass);
    langid := CutAt(id.value, '.');
    domain := LoadDomainAt(env, CatalogFile(dir, filename, langid));
    if domain == null && '_' in langid {
      langid := CutAt(langid, '_');
      domain := LoadDomainAt(env, CatalogFile(dir, filename, langid));
    }
    hit := Attempt(CatalogFile(dir, filename, langid), Some(langid));
  }

  /** The search set_gettext_file makes for a non-empty name: an absolute
      name as it is, otherwise up to three passes in the program's or the
      registered directory. langid is the identifier that named the
      catalog found, and none for an absolute name. */
  method FindCatalog(env: Env, f: string, regkey: Option<string>)
    returns (domain: Domain?, langid: Option<string>, ghost hit: Attempt)
    ensures domain == null <==> Locate(env, f, regkey).None?
    ensures domain != null ==>
              fresh(domain) && fresh(domain.mapped) && Holds(domain, env, hit.path)
              && Locate(env, f, regkey) == Some(hit) && hit.langid == langid
  {
    hit := Attempt(f, None);
    langid := None;
    if IsAbsolute(f) {
      domain := LoadDomainAt(env, f);
      return;
    }
    domain := null;
    var pgmdir := ModuleDir(env);
    if pgmdir.None? {
      return;
    }
    var id := "";
    var pass := 0;
    while pass < 3 && domain == null
      invariant pass <= 3
      invariant domain == null ==>
                  Locate(env, f, regkey) == FirstLoadable(env, PassesFrom(env, pgmdir.value, f, regkey, pass))
      invariant domain != null ==>
                  fresh(domain) && fresh(domain.mapped) && Holds(domain, env, hit.path)
                  && Locate(env, f, regkey) == Some(hit) && hit.langid == Some(id)
    {
      FirstLoadableConcat(env, PassAttempts(env, pgmdir.value, f, regkey, pass),
                          PassesFrom(env, pgmdir.value, f, regkey, pass + 1));
      domain, id, hit := TryPass(env, pgmdir.value, f, regkey, pass);
      pass := pass + 1;
    }
    langid := Some(id);
  }

  /** What gettext's search in d says about msgid: a pair found has msgid as
      its original; with a hash table the answer is where the probe stops;
      without one, in a sorted catalog, a pair is found exactly when some
      original is msgid. */
  ghost predicate Searched(d: Domain, msgid: seq<bv8>, found: Option<nat>)
    requires CatalogInside(d.data, d.header)
  {
    (found.Some? ==> found.value < d.NStrings() && d.Orig(found.value) == msgid)
    && (HasHashTable(d) ==> exists m: nat :: ProbeStopsAt(d, msgid, m, found))
    && (!HasHashTable(d) && SortedOrig(d) ==>
          (found.Some? <==> exists k :: 0 <= k < d.NStrings() && d.Orig(k) == msgid))
  }

  /** The search gettext makes in a loaded catalog: the hash table when
      the catalog has one, a binary search over the originals otherwise. */
  method FindPair(d: Domain, msgid: seq<bv8>) returns (found: Option<nat>)
    requires NulFree(msgid)
    requires CatalogInside(d.data, d.header)
    requires HasHashTable(d) ==> ProbeEnds(d, msgid)
    ensures Searched(d, msgid, found)
  {
    if HasHashTable(d) {
      found := HashLookup(d, msgid);
    } else {
      found := BinarySearch(d, msgid);
    }
  }

  /** The static variables of w32-gettext.c, with the code page conversion
      utf8_to_native performs. */
  class GettextState {
    /** the_domain */
    var theDomain: Domain?
    /** the_langid */
    var theLangid: Option<string>
    /** want_utf8 */
    var wantUtf8: bool
    /** utf8_to_native for the running system. */
    const toNative: seq<bv8> -> seq<bv8>

    constructor (toNative: seq<bv8> -> seq<bv8>)
      ensures theDomain == null && theLangid == None && !wantUtf8
      ensures this.toNative == toNative
    {
      theDomain := null;
      theLangid := None;
      wantUtf8 := false;
      this.toNative := toNative;
    }

    function DomainRepr(): set<object>
      reads this
    {
      if theDomain == null then {} else {theDomain as object, theDomain.mapped as object}
    }

    /** The active domain's cache agrees with its catalog. */
    predicate Ready()
      reads this, DomainRepr()
    {
      theDomain != null ==> theDomain.Consistent(toNative)
    }

    /** What get_string returns for pair k under the current settings. */
    function Translation(k: nat): seq<bv8>
      reads this
      requires theDomain != null && CatalogInside(theDomain.data, theDomain.header)
      requires k < theDomain.NStrings()
    {
      if wantUtf8 then theDomain.Trans(k) else toNative(theDomain.Trans(k))
    }

    /** r answers msgid: msgid itself when no pair was used, otherwise the
        translation of a pair whose original is exactly msgid. */
    predicate Answers(msgid: seq<bv8>, r: seq<bv8>, pair: Option<nat>)
      reads this
    {
      (pair.None? ==> r == msgid)
      && (pair.Some? ==>
            theDomain != null && CatalogInside(theDomain.data, theDomain.header)
            && pair.value < theDomain.NStrings() && theDomain.Orig(pair.value) == msgid
            && r == Translation(pair.value))
    }

    /** gettext terminates for msgid: the hash probe, when used, stops. */
    ghost predicate CanLookUp(msgid: seq<bv8>)
      reads this
    {
      theDomain != null && CatalogInside(theDomain.data, theDomain.header) && HasHashTable(theDomain)
      ==> ProbeEnds(theDomain, msgid)
    }

    /** gettext. `pair` is the string pair whose translation was returned. */
    method Gettext(msgid: seq<bv8>) returns (r: seq<bv8>, pair: Option<nat>)
      requires NulFree(msgid)
      requires Ready() && CanLookUp(msgid)
      modifies DomainRepr()
      ensures Ready()
      ensures Answers(msgid, r, pair)
      ensures theDomain == null ==> pair.None?
      ensures theDomain != null ==>
                CatalogInside(theDomain.data, theDomain.header) && Searched(theDomain, msgid, pair)
    {
      var domain := theDomain;
      r, pair := msgid, None;
      if domain != null {
        pair := FindPair(domain, msgid);
        if pair.Some? {
          r := domain.GetString(pair.value, wantUtf8, toNative);
        }
      }
    }

    /** ngettext: the singular message id exactly when n is 1. */
    method NGettext(msgid1: seq<bv8>, msgid2: seq<bv8>, n: nat) returns (r: seq<bv8>, pair: Option<nat>)
      requires NulFree(msgid1) && NulFree(msgid2)
      requires Ready() && CanLookUp(if n == 1 then msgid1 else msgid2)
      modifies DomainRepr()
      ensures Ready()
      ensures Answers(if n == 1 then msgid1 else msgid2, r, pair)
    {
      r, pair := Gettext(if n == 1 then msgid1 else msgid2);
    }

    /** gettext_select_utf8 */
    method SelectUtf8(value: bool)
      modifies this`wantUtf8
      ensures wantUtf8 == value
    {
      wantUtf8 := value;
    }

    /** set_gettext_file: install the catalog Locate finds for a non-empty
        name, or no catalog for an empty one; leave everything as it was
        when nothing loads. */
    method SetGettextFile(filename: Option<string>, regkey: Option<string>, env: Env) returns (rc: int)
      modifies this
      ensures wantUtf8 == old(wantUtf8)
      ensures filename.None? || filename.value == "" ==>
                rc == 0 && theDomain == null && theLangid == old(theLangid)
      ensures filename.Some? && filename.value != "" ==>
                match Locate(env, filename.value, regkey)
                case None =>
                  rc == -1 && theDomain == old(theDomain) && theLangid == old(theLangid)
                case Some(a) =>
                  rc == 0 && theDomain != null && fresh(theDomain) && fresh(theDomain.mapped)
                  && Holds(theDomain, env, a.path)
                  && theLangid == if old(theLangid).None? then a.langid else old(theLangid)
    {
      var domain: Domain? := null;
      if filename.Some? && filename.value != "" {
        var langid;
        ghost var hit;
        domain, langid, hit := FindCatalog(env, filename.value, regkey);
        if domain == null {
          return -1;
        }
        if theLangid.None? && langid.Some? {
          theLangid := langid;
        }
      }
      theDomain := domain;
      return 0;
    }
  }
}
