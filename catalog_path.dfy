// Where set_gettext_file (jnlib/w32-gettext.c) looks for a catalog: the
// candidate language identifiers, the path built from each, and the first
// candidate whose file loads.

module CatalogPath {
  import opened Wrappers
  import opened MoCatalog

  /** DIRSEP_C on Windows. */
  const DirSep: char := '\\'

  /** What set_gettext_file consults outside its arguments. */
  datatype Env = Env(
    /** GetModuleFileName; None when it fails. */
    moduleFileName: Option<string>,
    /** getenv("LANGUAGE"). */
    language: Option<string>,
    /** The registry value "Install Directory" below a key. */
    installDir: string -> Option<string>,
    /** The registry value "Lang" below a key. */
    regLang: string -> Option<string>,
    /** _nl_locale_name("LC_MESSAGES"). */
    localeName: Option<string>,
    /** The files load_domain can open and read, with their contents. */
    files: map<string, seq<bv8>>)

  /** load_domain on this path returns a domain. */
  predicate Loads(env: Env, path: string)
  {
    path in env.files && LoadHeader(env.files[path]).Some?
  }

  /** The string cut at the first c, as `p = strchr (s, c); if (p) *p = 0;` does. */
  function CutAt(s: string, c: char): (r: string)
    ensures c !in r
    ensures |r| <= |s| && r == s[..|r|]
    ensures c in s ==> |r| < |s| && s[|r|] == c
    ensures c !in s ==> r == s
  {
    if |s| == 0 then []
    else if s[0] == c then []
    else
      var rest := CutAt(s[1..], c);
      assert s == [s[0]] + s[1..];
      [s[0]] + rest
  }

  /** The position of the last c in s (strrchr). */
  function LastIndexOf(s: string, c: char): (i: nat)
    requires c in s
    ensures i < |s| && s[i] == c
    ensures forall j :: i < j < |s| ==> s[j] != c
  {
    if s[|s| - 1] == c then |s| - 1
    else
      assert c in s[..|s| - 1] by {
        var k :| 0 <= k < |s| && s[k] == c;
        assert s[..|s| - 1][k] == c;
      }
      LastIndexOf(s[..|s| - 1], c)
  }

  /** The directory of the running program: its file name cut at the last
      directory separator; None when the name cannot be had or has none. */
  function ModuleDir(env: Env): Option<string>
  {
    match env.moduleFileName
    case None => None
    case Some(f) => if DirSep in f then Some(f[..LastIndexOf(f, DirSep)]) else None
  }

  predicate IsAlpha(c: char)
  {
    'a' <= c <= 'z' || 'A' <= c <= 'Z'
  }

  /** A name starting with '/' or a drive letter followed by ":/" or ":\". */
  predicate IsAbsolute(f: string)
  {
    |f| > 0
    && (f[0] == '/'
        || (|f| >= 3 && IsAlpha(f[0]) && f[1] == ':' && (f[2] == '/' || f[2] == '\\')))
  }

  /** Every '/' replaced by '\'. */
  function Slashes(s: string): (r: string)
    ensures |r| == |s|
    ensures forall i :: 0 <= i < |s| ==> r[i] == if s[i] == '/' then '\\' else s[i]
  {
    seq(|s|, i requires 0 <= i < |s| => if s[i] == '/' then '\\' else s[i])
  }

  lemma SlashesConcat(a: string, b: string)
    ensures Slashes(a + b) == Slashes(a) + Slashes(b)
  {
  }

  /** "<dir>\<filename>.nls\<langid>.mo" with every '/' turned into '\'. */
  function CatalogFile(dir: string, filename: string, langid: string): string
  {
    Slashes(dir + "\\" + filename + ".nls\\" + langid + ".mo")
  }

  /** The path is made of its parts, each with its slashes turned, and holds no '/'. */
  lemma CatalogFileShape(dir: string, filename: string, langid: string)
    ensures CatalogFile(dir, filename, langid)
         == Slashes(dir) + "\\" + Slashes(filename) + ".nls\\" + Slashes(langid) + ".mo"
    ensures '/' !in CatalogFile(dir, filename, langid)
  {
    SlashesConcat(dir, "\\");
    SlashesConcat(dir + "\\", filename);
    SlashesConcat(dir + "\\" + filename, ".nls\\");
    SlashesConcat(dir + "\\" + filename + ".nls\\", langid);
    SlashesConcat(dir + "\\" + filename + ".nls\\" + langid, ".mo");
    assert Slashes("\\") == "\\" && Slashes(".nls\\") == ".nls\\" && Slashes(".mo") == ".mo";
  }

  /** The language identifier a pass offers: pass 0 the first entry of
      LANGUAGE, pass 1 the registry's Lang when an installation directory
      is registered, pass 2 the locale unless it is C or POSIX. */
  function PassLangid(env: Env, regkey: Option<string>, pass: nat): Option<string>
  {
    if pass == 0 then
      if env.language.Some? && env.language.value != "" then Some(CutAt(env.language.value, ':'))
      else None
    else if pass == 1 then
      if regkey.Some? && env.installDir(regkey.value).Some? then env.regLang(regkey.value)
      else None
    else if pass == 2 then
      if env.localeName.None? || env.localeName.value == "C" || env.localeName.value == "POSIX" then None
      else env.localeName
    else None
  }

  /** The directory a pass builds its path in: the registered installation
      directory in pass 1, the program's directory otherwise. */
  function PassDir(env: Env, pgmdir: string, regkey: Option<string>, pass: nat): string
  {
    if pass == 1 && regkey.Some? && env.installDir(regkey.value).Some? then env.installDir(regkey.value).value
    else pgmdir
  }

  /** A catalog file tried, with the language identifier that named it. */
  datatype Attempt = Attempt(path: string, langid: Option<string>)

  /** The files one pass tries, in order: the identifier cut at '.', then,
      if that has a '_', the identifier cut there as well. */
  function PassAttempts(env: Env, pgmdir: string, filename: string, regkey: Option<string>, pass: nat): seq<Attempt>
  {
    match PassLangid(env, regkey, pass)
    case None => []
    case Some(l) =>
      var dir := PassDir(env, pgmdir, regkey, pass);
      var l1 := CutAt(l, '.');
      var first := Attempt(CatalogFile(dir, filename, l1), Some(l1));
      if '_' in l1 then
        var l2 := CutAt(l1, '_');
        [first, Attempt(CatalogFile(dir, filename, l2), Some(l2))]
      else [first]
  }

  /** The files passes pass .. 2 try, in order. */
  function PassesFrom(env: Env, pgmdir: string, filename: string, regkey: Option<string>, pass: nat): seq<Attempt>
    decreases 3 - pass
  {
    if pass >= 3 then []
    else PassAttempts(env, pgmdir, filename, regkey, pass) + PassesFrom(env, pgmdir, filename, regkey, pass + 1)
  }

  /** Every file set_gettext_file would try for a non-empty name if none loaded. */
  function Attempts(env: Env, filename: string, regkey: Option<string>): seq<Attempt>
  {
    if IsAbsolute(filename) then [Attempt(filename, None)]
    else
      match ModuleDir(env)
      case None => []
      case Some(pgmdir) => PassesFrom(env, pgmdir, filename, regkey, 0)
  }

  /** The first attempt whose file loads. */
  function FirstLoadable(env: Env, attempts: seq<Attempt>): (r: Option<Attempt>)
    ensures r.Some? ==> r.value in attempts && Loads(env, r.value.path)
    ensures r.None? <==> forall a :: a in attempts ==> !Loads(env, a.path)
    ensures r.Some? ==> exists i :: 0 <= i < |attempts| && attempts[i] == r.value
                          && forall j :: 0 <= j < i ==> !Loads(env, attempts[j].path)
  {
    if |attempts| == 0 then None
    else if Loads(env, attempts[0].path) then Some(attempts[0])
    else
      assert forall a :: a in attempts ==> a == attempts[0] || a in attempts[1..];
      FirstLoadable(env, attempts[1..])
  }

  lemma {:induction false} FirstLoadableConcat(env: Env, a: seq<Attempt>, b: seq<Attempt>)
    ensures FirstLoadable(env, a + b)
         == if FirstLoadable(env, a).Some? then FirstLoadable(env, a) else FirstLoadable(env, b)
  {
    if |a| > 0 {
      assert (a + b)[0] == a[0] && (a + b)[1..] == a[1..] + b;
      FirstLoadableConcat(env, a[1..], b);
    } else {
      assert a + b == b;
    }
  }

  /** The catalog set_gettext_file installs for a non-empty name. */
  function Locate(env: Env, filename: string, regkey: Option<string>): Option<Attempt>
  {
    FirstLoadable(env, Attempts(env, filename, regkey))
  }

  /** A pass tries at most two files, and the identifiers it uses have no
      '.'; the second, the first cut at '_', has no '_' either, so the
      retry happens once. */
  lemma PassRetriesOnce(env: Env, pgmdir: string, filename: string, regkey: Option<string>, pass: nat)
    ensures |PassAttempts(env, pgmdir, filename, regkey, pass)| <= 2
    ensures forall a :: a in PassAttempts(env, pgmdir, filename, regkey, pass) ==>
              a.langid.Some? && '.' !in a.langid.value
    ensures |PassAttempts(env, pgmdir, filename, regkey, pass)| == 2 ==>
              '_' !in PassAttempts(env, pgmdir, filename, regkey, pass)[1].langid.value
  {
    match PassLangid(env, regkey, pass)
    case None =>
    case Some(l) =>
      var l1 := CutAt(l, '.');
      if '_' in l1 {
        var l2 := CutAt(l1, '_');
        assert l2 == l1[..|l2|];
      }
  }

  /** The identifier taken from LANGUAGE is its first ':'-separated entry. */
  lemma LanguageFirstEntry(env: Env, regkey: Option<string>)
    requires PassLangid(env, regkey, 0).Some?
    ensures env.language.Some?
    ensures ':' !in PassLangid(env, regkey, 0).value
    ensures PassLangid(env, regkey, 0).value <= env.language.value
  {
  }

  /** A relative name is only ever looked up as a path without '/'. */
  lemma RelativeAttemptsUseBackslashes(env: Env, filename: string, regkey: Option<string>)
    requires !IsAbsolute(filename)
    ensures forall a :: a in Attempts(env, filename, regkey) ==> '/' !in a.path
  {
    if ModuleDir(env).Some? {
      var pgmdir := ModuleDir(env).value;
      forall a | a in Attempts(env, filename, regkey)
        ensures '/' !in a.path
      {
        PassesFromPaths(env, pgmdir, filename, regkey, 0, a);
      }
    }
  }

  lemma {:induction false} PassesFromPaths(env: Env, pgmdir: string, filename: string, regkey: Option<string>, pass: nat, a: Attempt)
    requires a in PassesFrom(env, pgmdir, filename, regkey, pass)
    ensures exists dir, l :: a.path == CatalogFile(dir, filename, l)
    ensures '/' !in a.path
    decreases 3 - pass
  {
    var here := PassAttempts(env, pgmdir, filename, regkey, pass);
    if a in here {
      var l := PassLangid(env, regkey, pass).value;
      var dir := PassDir(env, pgmdir, regkey, pass);
      var l1 := CutAt(l, '.');
      if a.path == CatalogFile(dir, filename, l1) {
        CatalogFileShape(dir, filename, l1);
      } else {
        CatalogFileShape(dir, filename, CutAt(l1, '_'));
      }
    } else {
      PassesFromPaths(env, pgmdir, filename, regkey, pass + 1, a);
    }
  }
}
