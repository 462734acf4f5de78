/**
 * Path and cache-file-name construction of `Paths`. Laravel's `base_path()` is
 * not part of this model: it is the parameter `basePath`, and `is_dir` is the
 * parameter `isDir`.
 */
module Paths {
  import opened PhpString

  /** `DIRECTORY_SEPARATOR` on the platforms the host runs on. */
  const Sep: char := '/'

  /** Append `append` to `base`, dropping the separators `append` starts with. */
  function Append(base: string, append: string): (r: string)
    ensures append == "" ==> r == base
    ensures append != "" ==> exists k ::
      0 <= k <= |append| && r == base + [Sep] + append[k..]
      && (forall i :: 0 <= i < k ==> append[i] == Sep)
      && (k < |append| ==> append[k] != Sep)
  {
    if append == "" then base
    else
      var rest := TrimLeft(append, {Sep});
      assert rest == append[|append| - |rest|..];
      base + [Sep] + rest
  }

  /** `Paths::pluginsPath($append)`. */
  function PluginsPath(basePath: string -> string, append: string): (r: string)
    ensures append == "" ==> r == basePath("plugins")
    ensures append != "" ==> |r| > |basePath("plugins")| && r[..|basePath("plugins")| + 1] == basePath("plugins") + [Sep]
    ensures append != "" ==> r == basePath("plugins") + [Sep] + TrimLeft(append, {Sep})
  {
    Append(basePath("plugins"), append)
  }

  /** `Paths::themesPath($append)`. */
  function ThemesPath(basePath: string -> string, append: string): (r: string)
    ensures append == "" ==> r == basePath("themes")
    ensures append != "" ==> |r| > |basePath("themes")| && r[..|basePath("themes")| + 1] == basePath("themes") + [Sep]
    ensures append != "" ==> r == basePath("themes") + [Sep] + TrimLeft(append, {Sep})
  {
    Append(basePath("themes"), append)
  }

  /** The characters `[A-Za-z0-9._-]` a test token may keep. */
  predicate TokenChar(c: char) {
    ('A' <= c <= 'Z') || ('a' <= c <= 'z') || ('0' <= c <= '9') || c == '.' || c == '_' || c == '-'
  }

  /** `preg_replace('/[^A-Za-z0-9._-]/', '-', $s)`. */
  function Sanitize(s: string): (r: string)
    ensures |r| == |s|
    ensures forall i :: 0 <= i < |s| ==> r[i] == if TokenChar(s[i]) then s[i] else '-'
  {
    if s == [] then []
    else [if TokenChar(s[0]) then s[0] else '-'] + Sanitize(s[1..])
  }

  /**
   * `Paths::parallelTestToken()`, given the raw value the request, the
   * environment or `getenv` supplied (absent reads as "").
   */
  function ParallelTestToken(raw: string): (r: string)
    ensures Trim(raw) == "" <==> r == ""
    ensures |r| == |Trim(raw)|
    ensures forall i :: 0 <= i < |r| ==> TokenChar(r[i])
    ensures forall i :: 0 <= i < |r| ==> r[i] == if TokenChar(Trim(raw)[i]) then Trim(raw)[i] else '-'
  {
    var token := Trim(raw);
    if token == "" then "" else Sanitize(token)
  }

  /** A sanitised token is left alone by a second sanitising. */
  lemma ParallelTestTokenStable(raw: string)
    ensures ParallelTestToken(ParallelTestToken(raw)) == ParallelTestToken(raw)
  {
    var t := ParallelTestToken(raw);
    assert IsTrimmed(t) by {
      if t != [] { assert TokenChar(t[0]) && TokenChar(t[|t| - 1]); }
    }
    TrimOfTrimmed(t);
  }

  /** The file name of a cache: `key.php`, or `key.token.php` under a parallel test token. */
  function CacheFileName(key: string, token: string): (r: string)
    ensures token == "" ==> r == key + ".php"
    ensures token != "" ==> r == key + "." + token + ".php"
  {
    key + (if token == "" then "" else "." + token) + ".php"
  }

  /** A key without a separator gives a cache file name without one. */
  lemma CacheFileNameFlat(key: string, rawToken: string)
    requires Sep !in key
    ensures Sep !in CacheFileName(key, ParallelTestToken(rawToken))
  {
    var token := ParallelTestToken(rawToken);
    assert Sep !in token;
    var name := CacheFileName(key, token);
    if token == "" {
      assert name == key + ".php";
    } else {
      assert name == key + "." + token + ".php";
    }
  }

  /**
   * `Paths::cachePath($key)`: a file directly under `bootstrap/cache/`, named by
   * the key, then the token when there is one, then `.php`.
   */
  function CachePath(basePath: string -> string, key: string, rawToken: string): (r: string)
    ensures exists name ::
      (r == basePath("bootstrap/cache/" + name)
       && |name| >= |key| + 4 && name[..|key|] == key && name[|name| - 4..] == ".php")
    ensures Sep !in key ==> exists name :: Sep !in name && r == basePath("bootstrap/cache/" + name)
  {
    var name := CacheFileName(key, ParallelTestToken(rawToken));
    assert name[..|key|] == key && name[|name| - 4..] == ".php";
    if Sep in key then basePath("bootstrap/cache/" + name)
    else CacheFileNameFlat(key, rawToken); basePath("bootstrap/cache/" + name)
  }

  /** The cache of a flat key is a flat file under `bootstrap/cache/` named after the key. */
  lemma FlatCachePath(basePath: string -> string, key: string, rawToken: string)
    requires Sep !in key
    ensures exists name ::
      (Sep !in name && CachePath(basePath, key, rawToken) == basePath("bootstrap/cache/" + name)
       && |name| >= |key| && name[..|key|] == key)
  {
    var name := CacheFileName(key, ParallelTestToken(rawToken));
    CacheFileNameFlat(key, rawToken);
    assert name[..|key|] == key;
  }

  /** `Paths::pluginCachePath()`: a file directly under `bootstrap/cache/` whose name starts with `tp_plugins`. */
  function PluginCachePath(basePath: string -> string, rawToken: string): (r: string)
    ensures exists name ::
      (Sep !in name && r == basePath("bootstrap/cache/" + name) && |name| >= 10 && name[..10] == "tp_plugins")
  {
    var key := "tp_plugins";
    assert Sep !in key && |key| == 10;
    FlatCachePath(basePath, key, rawToken);
    CachePath(basePath, key, rawToken)
  }

  /** `Paths::themeCachePath()`: a file directly under `bootstrap/cache/` whose name starts with `tp_theme`. */
  function ThemeCachePath(basePath: string -> string, rawToken: string): (r: string)
    ensures exists name ::
      (Sep !in name && r == basePath("bootstrap/cache/" + name) && |name| >= 8 && name[..8] == "tp_theme")
  {
    var key := "tp_theme";
    assert Sep !in key && |key| == 8;
    FlatCachePath(basePath, key, rawToken);
    CachePath(basePath, key, rawToken)
  }

  /** The plugin and theme caches are `tp_plugins[.token].php` and `tp_theme[.token].php`; they never collide. */
  lemma CacheFileNames(basePath: string -> string, rawToken: string)
    ensures var token := ParallelTestToken(rawToken);
      && PluginCachePath(basePath, rawToken) == basePath("bootstrap/cache/" + CacheFileName("tp_plugins", token))
      && ThemeCachePath(basePath, rawToken) == basePath("bootstrap/cache/" + CacheFileName("tp_theme", token))
      && CacheFileName("tp_plugins", token) != CacheFileName("tp_theme", token)
  {
    var token := ParallelTestToken(rawToken);
    assert CacheFileName("tp_plugins", token)[3] == 'p';
    assert CacheFileName("tp_theme", token)[3] == 't';
  }

  /** In a test run the token's cache files differ from the ones without a token. */
  lemma TokenSeparatesCaches(key: string, rawToken: string)
    requires ParallelTestToken(rawToken) != ""
    ensures CacheFileName(key, ParallelTestToken(rawToken)) != CacheFileName(key, "")
  {
    var token := ParallelTestToken(rawToken);
    var a, b := CacheFileName(key, token), CacheFileName(key, "");
    assert |a| > |b|;
  }

  /** The roots `manifestSearchRoots` considers before filtering, in order. */
  function Candidates(basePath: string -> string, firstRoot: string, namespaces: seq<string>): (r: seq<string>)
    ensures |r| >= 1 && r[0] == firstRoot
    ensures |namespaces| == 1 ==>
      r == [firstRoot] + (if Trim(namespaces[0]) == "" then [] else [basePath("vendor/" + Trim(namespaces[0]))])
  {
    if namespaces == [] then [firstRoot]
    else
      var init := Candidates(basePath, firstRoot, namespaces[..|namespaces| - 1]);
      var ns := Trim(namespaces[|namespaces| - 1]);
      if ns == "" then init else init + [basePath("vendor/" + ns)]
  }

  /** `array_values(array_filter($roots, is_dir(...)))`. */
  function KeepDirs(roots: seq<string>, isDir: string -> bool): (r: seq<string>)
    ensures forall x :: x in r <==> x in roots && isDir(x)
    ensures |r| <= |roots|
    ensures |roots| == 1 ==> r == if isDir(roots[0]) then roots else []
  {
    if roots == [] then []
    else
      var init := KeepDirs(roots[..|roots| - 1], isDir);
      var last := roots[|roots| - 1];
      assert roots == roots[..|roots| - 1] + [last];
      if isDir(last) then init + [last] else init
  }

  /** Every non-empty namespace contributes its vendor directory as a candidate. */
  lemma {:induction false} CandidatesCoverNamespaces(basePath: string -> string, firstRoot: string, namespaces: seq<string>, k: nat)
    requires k < |namespaces| && Trim(namespaces[k]) != ""
    ensures basePath("vendor/" + Trim(namespaces[k])) in Candidates(basePath, firstRoot, namespaces)
  {
    if k < |namespaces| - 1 {
      CandidatesCoverNamespaces(basePath, firstRoot, namespaces[..|namespaces| - 1], k);
    }
  }

  /**
   * The candidates of a split namespace list are the first root, then the
   * vendor roots of the first part, then those of the second: together with
   * the one-namespace case of `Candidates` this fixes their order.
   */
  lemma {:induction false} CandidatesConcat(basePath: string -> string, firstRoot: string, a: seq<string>, b: seq<string>)
    ensures Candidates(basePath, firstRoot, a + b)
      == Candidates(basePath, firstRoot, a) + Candidates(basePath, firstRoot, b)[1..]
  {
    if b == [] {
      assert a + b == a;
    } else {
      var b' := b[..|b| - 1];
      assert (a + b)[..|a + b| - 1] == a + b';
      assert (a + b)[|a + b| - 1] == b[|b| - 1];
      CandidatesConcat(basePath, firstRoot, a, b');
    }
  }

  /** Every candidate after the first is the vendor root of a non-empty namespace. */
  lemma {:induction false} CandidatesFromNamespaces(basePath: string -> string, firstRoot: string, namespaces: seq<string>, j: nat)
    requires 1 <= j < |Candidates(basePath, firstRoot, namespaces)|
    ensures exists k ::
      (0 <= k < |namespaces| && Trim(namespaces[k]) != ""
       && Candidates(basePath, firstRoot, namespaces)[j] == basePath("vendor/" + Trim(namespaces[k])))
  {
    var init := namespaces[..|namespaces| - 1];
    var last := |namespaces| - 1;
    var c := Candidates(basePath, firstRoot, namespaces);
    var ci := Candidates(basePath, firstRoot, init);
    if j < |ci| {
      assert c[j] == ci[j];
      CandidatesFromNamespaces(basePath, firstRoot, init, j);
      var k :| 0 <= k < |init| && Trim(init[k]) != "" && ci[j] == basePath("vendor/" + Trim(init[k]));
      assert init[k] == namespaces[k];
    } else {
      assert Trim(namespaces[last]) != "" && c[j] == basePath("vendor/" + Trim(namespaces[last]));
    }
  }

  /** Filtering a concatenation filters each part and keeps them in that order. */
  lemma {:induction false} KeepDirsConcat(a: seq<string>, b: seq<string>, isDir: string -> bool)
    ensures KeepDirs(a + b, isDir) == KeepDirs(a, isDir) + KeepDirs(b, isDir)
  {
    if b == [] {
      assert a + b == a;
    } else {
      var b' := b[..|b| - 1];
      assert (a + b)[..|a + b| - 1] == a + b';
      assert (a + b)[|a + b| - 1] == b[|b| - 1];
      KeepDirsConcat(a, b', isDir);
    }
  }

  /** Filtering keeps relative order: a kept root first in the input is first in the output. */
  lemma {:induction false} KeepDirsFirst(roots: seq<string>, isDir: string -> bool)
    requires roots != [] && isDir(roots[0])
    ensures KeepDirs(roots, isDir) != [] && KeepDirs(roots, isDir)[0] == roots[0]
  {
    if |roots| > 1 {
      KeepDirsFirst(roots[..|roots| - 1], isDir);
    }
  }

  /** `Paths::manifestSearchRoots($firstRoot, $vendorNamespaces)`. */
  method ManifestSearchRoots(basePath: string -> string, isDir: string -> bool, firstRoot: string, namespaces: seq<string>)
    returns (roots: seq<string>)
    ensures roots == KeepDirs(Candidates(basePath, firstRoot, namespaces), isDir)
    ensures forall x :: x in roots ==> isDir(x)
    ensures isDir(firstRoot) ==> roots != [] && roots[0] == firstRoot
  {
    var all := [firstRoot];
    var i := 0;
    while i < |namespaces|
      invariant 0 <= i <= |namespaces|
      invariant all == Candidates(basePath, firstRoot, namespaces[..i])
    {
      assert namespaces[..i + 1][..i] == namespaces[..i];
      var ns := Trim(namespaces[i]);
      if ns != "" {
        all := all + [basePath("vendor/" + ns)];
      }
      i := i + 1;
    }
    assert namespaces[..i] == namespaces;
    roots := KeepDirs(all, isDir);
    if isDir(firstRoot) {
      KeepDirsFirst(all, isDir);
    }
  }

  /** The value of the `tentapress.plugin_vendor_namespaces` setting. */
  datatype Setting = Unset | List(items: seq<string>) | NotList

  /** `Paths::pluginSearchRoots()`: the default list is `['tentapress']`, a non-list means none. */
  method PluginSearchRoots(basePath: string -> string, isDir: string -> bool, setting: Setting)
    returns (roots: seq<string>)
    ensures var namespaces := match setting
        case Unset => ["tentapress"]
        case List(items) => items
        case NotList => [];
      roots == KeepDirs(Candidates(basePath, PluginsPath(basePath, ""), namespaces), isDir)
  {
    var namespaces := match setting
      case Unset => ["tentapress"]
      case List(items) => items
      case NotList => [];
    roots := ManifestSearchRoots(basePath, isDir, PluginsPath(basePath, ""), namespaces);
  }

  /** `Paths::themeSearchRoots()`: the themes directory, when it exists. */
  function ThemeSearchRoots(basePath: string -> string, isDir: string -> bool): (r: seq<string>)
    ensures r == if isDir(basePath("themes")) then [basePath("themes")] else []
  {
    KeepDirs([ThemesPath(basePath, "")], isDir)
  }
}
