/**
 * The plugin activation pipeline of `PluginManager`: a pass over the cached
 * map of enabled plugins that hands each provider class to the container at
 * most once, installing a namespace-scoped path autoloader for a class the
 * host cannot resolve yet, and logging a warning for a class that stays
 * unresolvable.
 *
 * The pure part (the ledger and its transitions) specifies the class
 * `PluginManager` below, whose methods follow the source statement by
 * statement.
 */
module Plugin {
  import opened Options
  import opened PhpString

  /** One field of a cached plugin record: absent or null, a string, or another scalar with its `(string)` cast. */
  datatype Field = Absent | Text(text: string) | Scalar(cast: string)

  /** One value of the cached map: an array with `provider` and `path` entries, or anything else. */
  datatype PluginInfo = Record(provider: Field, path: Field) | NotRecord

  /** A cache entry: the plugin id and its record, in the cache's own order. */
  type CacheEntry = (string, PluginInfo)

  /** The warning logged for a plugin whose provider class was not found. */
  datatype Warning = Warning(pluginId: string, providerClass: string)

  /**
   * What the core cannot see: `base_path()`, `is_dir`, `is_file`, whether a
   * class resolves without the loaders this manager installs (composer or an
   * earlier definition), and whether requiring a file defines a class.
   */
  datatype Host = Host(
    basePath: string -> string,
    isDir: string -> bool,
    isFile: string -> bool,
    resolvesWithoutLoaders: string -> bool,
    fileDeclares: (string, string) -> bool)

  /** `providerNamespacePrefix`: everything up to and including the last `\`, or null. */
  function NamespacePrefix(cls: string): (r: Option<string>)
    ensures r.None? <==> '\\' !in cls
    ensures r.Some? ==> StartsWith(cls, r.value) && r.value != "" && r.value[|r.value| - 1] == '\\'
    ensures r.Some? ==> '\\' !in cls[|r.value|..]
  {
    match LastIndexOf(cls, '\\')
    case None => None
    case Some(i) =>
      Some(cls[..i + 1])
  }

  /** The file the closure installed for `prefix` would require for `cls`, if it does not decline. */
  function LoaderTarget(prefix: string, sourcePath: string, cls: string): (r: Option<string>)
    ensures r.Some? <==> StartsWith(cls, prefix) && |cls| > |prefix|
  {
    if !StartsWith(cls, prefix) then None
    else
      var relative := cls[|prefix|..];
      if relative == "" then None
      else Some(sourcePath + "/" + ReplaceChar(relative, '\\', '/') + ".php")
  }

  /** A class below the prefix maps to the file named by its remainder, with namespace separators as directories. */
  lemma LoaderTargetOf(prefix: string, sourcePath: string, relative: string)
    requires relative != ""
    ensures LoaderTarget(prefix, sourcePath, prefix + relative)
      == Some(sourcePath + "/" + ReplaceChar(relative, '\\', '/') + ".php")
  {
    assert (prefix + relative)[..|prefix|] == prefix;
    assert (prefix + relative)[|prefix|..] == relative;
  }

  /** For the prefix derived from a class, the loader maps the class to `<source>/<ShortName>.php`. */
  lemma OwnPrefixTarget(cls: string, sourcePath: string)
    requires NamespacePrefix(cls).Some? && cls[|cls| - 1] != '\\'
    ensures LoaderTarget(NamespacePrefix(cls).value, sourcePath, cls)
      == Some(sourcePath + "/" + cls[|NamespacePrefix(cls).value|..] + ".php")
  {
    var p := NamespacePrefix(cls).value;
    var rest := cls[|p|..];
    assert rest != "";
    assert ReplaceChar(rest, '\\', '/') == rest;
  }

  /** The installed closure loads `cls`: it does not decline, the file exists, and requiring it defines the class. */
  predicate Loads(h: Host, prefix: string, sourcePath: string, cls: string) {
    match LoaderTarget(prefix, sourcePath, cls)
    case None => false
    case Some(file) => h.isFile(file) && h.fileDeclares(file, cls)
  }

  /** `class_exists($cls)` with autoloading, given the loaders installed so far (prefix to source root). */
  predicate ClassExists(h: Host, loaders: map<string, string>, cls: string)
    ensures h.resolvesWithoutLoaders(cls) ==> ClassExists(h, loaders, cls)
    ensures loaders == map[] ==> (ClassExists(h, loaders, cls) <==> h.resolvesWithoutLoaders(cls))
  {
    h.resolvesWithoutLoaders(cls) || exists p | p in loaders :: Loads(h, p, loaders[p], cls)
  }

  /** Installing more loaders never makes a resolvable class unresolvable. */
  lemma ClassExistsMonotone(h: Host, loaders: map<string, string>, more: map<string, string>, cls: string)
    requires forall p :: p in loaders ==> p in more && more[p] == loaders[p]
    requires ClassExists(h, loaders, cls)
    ensures ClassExists(h, more, cls)
  {
    if !h.resolvesWithoutLoaders(cls) {
      var p :| p in loaders && Loads(h, p, loaders[p], cls);
      assert p in more && Loads(h, p, more[p], cls);
    }
  }

  /**
   * The manager's state: the two ledger sets, the loaders installed through
   * `spl_autoload_register` (prefix to source root), the classes passed to
   * `app->register` in order, the warnings logged in order, and how many times
   * the cache was read.
   */
  datatype Ledger = Ledger(
    providers: set<string>,
    prefixes: set<string>,
    loaders: map<string, string>,
    registrations: seq<string>,
    warnings: seq<Warning>,
    cacheReads: nat)

  const FreshLedger: Ledger := Ledger({}, {}, map[], [], [], 0)

  /** Each class was registered once, the set records exactly those, and one loader exists per recorded prefix. */
  ghost predicate Inv(l: Ledger) {
    && (forall i, j :: 0 <= i < j < |l.registrations| ==> l.registrations[i] != l.registrations[j])
    && (forall c :: c in l.providers <==> c in l.registrations)
    && l.loaders.Keys == l.prefixes
  }

  /** `l` can evolve into `r`: the sets and maps only grow and both logs are only appended to. */
  ghost predicate Grows(l: Ledger, r: Ledger) {
    && l.providers <= r.providers
    && l.prefixes <= r.prefixes
    && (forall p :: p in l.loaders ==> p in r.loaders && r.loaders[p] == l.loaders[p])
    && |l.registrations| <= |r.registrations| && r.registrations[..|l.registrations|] == l.registrations
    && |l.warnings| <= |r.warnings| && r.warnings[..|l.warnings|] == l.warnings
    && l.cacheReads <= r.cacheReads
  }

  /** `base_path($relativePluginPath.'/src')`. */
  function SourceRoot(h: Host, pluginPath: string): string {
    h.basePath(TrimSet(pluginPath, {'/'}) + "/src")
  }

  /** `registerPathAutoloader`. */
  function InstallLoader(h: Host, l: Ledger, cls: string, pluginPath: string): (r: Ledger)
    ensures r.providers == l.providers && r.registrations == l.registrations
    ensures r.warnings == l.warnings && r.cacheReads == l.cacheReads
    ensures r == l || (NamespacePrefix(cls).Some? && r.prefixes == l.prefixes + {NamespacePrefix(cls).value})
    ensures r != l <==>
      && NamespacePrefix(cls).Some?
      && TrimSet(pluginPath, {'/'}) != ""
      && NamespacePrefix(cls).value !in l.prefixes
      && h.isDir(SourceRoot(h, pluginPath))
    ensures r != l ==> r.loaders == l.loaders[NamespacePrefix(cls).value := SourceRoot(h, pluginPath)]
  {
    var prefix := NamespacePrefix(cls);
    var relative := TrimSet(pluginPath, {'/'});
    if prefix.None? || relative == "" then l
    else if prefix.value in l.prefixes then l
    else if !h.isDir(SourceRoot(h, pluginPath)) then l
    else l.(loaders := l.loaders[prefix.value := SourceRoot(h, pluginPath)],
            prefixes := l.prefixes + {prefix.value})
  }

  /** `registerProviderOnce`. */
  function RegisterOnce(h: Host, l: Ledger, cls: string, pluginId: string, pluginPath: string): (r: Ledger)
    ensures cls in l.providers ==> r == l
    ensures cls !in l.providers ==>
      || (&& ClassExists(h, r.loaders, cls)
          && r.providers == l.providers + {cls}
          && r.registrations == l.registrations + [cls]
          && r.warnings == l.warnings)
      || (&& !ClassExists(h, r.loaders, cls)
          && r.providers == l.providers
          && r.registrations == l.registrations
          && r.warnings == l.warnings + [Warning(pluginId, cls)])
    ensures ClassExists(h, l.loaders, cls) ==> r.prefixes == l.prefixes && r.loaders == l.loaders
    ensures cls !in l.providers && !ClassExists(h, l.loaders, cls) ==>
      r.loaders == InstallLoader(h, l, cls, pluginPath).loaders
      && r.prefixes == InstallLoader(h, l, cls, pluginPath).prefixes
    ensures r.cacheReads == l.cacheReads
  {
    if cls in l.providers then l
    else
      var l1 := if !ClassExists(h, l.loaders, cls) then InstallLoader(h, l, cls, pluginPath) else l;
      if !ClassExists(h, l1.loaders, cls) then l1.(warnings := l1.warnings + [Warning(pluginId, cls)])
      else l1.(registrations := l1.registrations + [cls], providers := l1.providers + {cls})
  }

  /** `(string) ($info['path'] ?? '')`. */
  function PathText(f: Field): string {
    match f
    case Absent => ""
    case Text(s) => s
    case Scalar(c) => c
  }

  /** The provider class a cache record names, or null when it is missing, not a string, or empty. */
  function ProviderOf(info: PluginInfo): (r: Option<string>)
    ensures r.Some? <==> info.Record? && info.provider.Text? && info.provider.text != ""
    ensures r.Some? ==> r.value == info.provider.text
  {
    if info.Record? && info.provider.Text? && info.provider.text != "" then Some(info.provider.text) else None
  }

  /** One iteration of the `foreach` over the cache. */
  function EntryStep(h: Host, l: Ledger, e: CacheEntry): (r: Ledger)
    ensures ProviderOf(e.1).None? ==> r == l
  {
    match ProviderOf(e.1)
    case None => l
    case Some(cls) => RegisterOnce(h, l, cls, e.0, PathText(e.1.path))
  }

  /** The `foreach` over the cache, in the cache's order. */
  function RegisterAll(h: Host, l: Ledger, cache: seq<CacheEntry>): (r: Ledger)
    ensures r.cacheReads == l.cacheReads
    ensures l.providers <= r.providers
  {
    if cache == [] then l
    else EntryStep(h, RegisterAll(h, l, cache[..|cache| - 1]), cache[|cache| - 1])
  }

  /** `registerEnabledPluginProviders`, given the map `readCache()` returns. */
  function Activate(h: Host, l: Ledger, cache: seq<CacheEntry>): (r: Ledger)
    ensures l.providers != {} ==> r == l
    ensures l.providers == {} ==> r.cacheReads == l.cacheReads + 1
  {
    if l.providers != {} then l
    else RegisterAll(h, l.(cacheReads := l.cacheReads + 1), cache)
  }

  /** The provider classes the entries of a cache name. */
  function Providers(cache: seq<CacheEntry>): set<string> {
    set k | 0 <= k < |cache| && ProviderOf(cache[k].1).Some? :: ProviderOf(cache[k].1).value
  }

  /** Some entry of the cache names this plugin with this provider class. */
  ghost predicate Names(cache: seq<CacheEntry>, w: Warning) {
    exists k :: 0 <= k < |cache| && cache[k].0 == w.pluginId && ProviderOf(cache[k].1) == Some(w.providerClass)
  }

  lemma InstallLoaderKeeps(h: Host, l: Ledger, cls: string, pluginPath: string)
    requires Inv(l)
    ensures Inv(InstallLoader(h, l, cls, pluginPath)) && Grows(l, InstallLoader(h, l, cls, pluginPath))
  {
  }

  /** Appending a class the log does not hold yet keeps the log free of duplicates. */
  lemma AppendFresh(log: seq<string>, cls: string)
    requires forall i, j :: 0 <= i < j < |log| ==> log[i] != log[j]
    requires cls !in log
    ensures forall i, j :: 0 <= i < j < |log + [cls]| ==> (log + [cls])[i] != (log + [cls])[j]
  {
  }

  lemma RegisterOnceKeeps(h: Host, l: Ledger, cls: string, pluginId: string, pluginPath: string)
    requires Inv(l)
    ensures var r := RegisterOnce(h, l, cls, pluginId, pluginPath);
      && Inv(r) && Grows(l, r)
      && (forall c :: c in r.providers - l.providers ==> c == cls && ClassExists(h, r.loaders, c))
      && |r.warnings| <= |l.warnings| + 1
      && (|r.warnings| == |l.warnings| + 1 ==> r.warnings[|l.warnings|] == Warning(pluginId, cls))
  {
    if cls !in l.providers {
      var l1 := if !ClassExists(h, l.loaders, cls) then InstallLoader(h, l, cls, pluginPath) else l;
      InstallLoaderKeeps(h, l, cls, pluginPath);
      assert Inv(l1) && Grows(l, l1);
      assert l1.providers == l.providers && l1.registrations == l.registrations && l1.warnings == l.warnings;
      if ClassExists(h, l1.loaders, cls) {
        var r := l1.(registrations := l1.registrations + [cls], providers := l1.providers + {cls});
        assert RegisterOnce(h, l, cls, pluginId, pluginPath) == r;
        AppendFresh(l1.registrations, cls);
        assert (l1.registrations + [cls])[..|l.registrations|] == l.registrations;
      } else {
        var r := l1.(warnings := l1.warnings + [Warning(pluginId, cls)]);
        assert RegisterOnce(h, l, cls, pluginId, pluginPath) == r;
        assert r.warnings[..|l.warnings|] == l.warnings;
      }
    }
  }

  lemma EntryStepKeeps(h: Host, l: Ledger, e: CacheEntry)
    requires Inv(l)
    ensures var r := EntryStep(h, l, e);
      && Inv(r) && Grows(l, r)
      && (forall c :: c in r.providers - l.providers ==> ProviderOf(e.1) == Some(c) && ClassExists(h, r.loaders, c))
      && |r.warnings| <= |l.warnings| + 1
      && (|r.warnings| == |l.warnings| + 1 ==>
            ProviderOf(e.1).Some? && r.warnings[|l.warnings|] == Warning(e.0, ProviderOf(e.1).value))
  {
    if ProviderOf(e.1).Some? {
      RegisterOnceKeeps(h, l, ProviderOf(e.1).value, e.0, PathText(e.1.path));
    }
  }

  /**
   * A pass keeps the ledger consistent and only lets it grow; every class it
   * adds was named by the cache and is resolvable afterwards; every warning it
   * adds names a plugin of the cache together with its provider class.
   */
  lemma {:induction false} RegisterAllKeeps(h: Host, l: Ledger, cache: seq<CacheEntry>)
    requires Inv(l)
    ensures var r := RegisterAll(h, l, cache);
      && Inv(r) && Grows(l, r)
      && (forall c :: c in r.providers - l.providers ==> c in Providers(cache) && ClassExists(h, r.loaders, c))
      && (forall k :: |l.warnings| <= k < |r.warnings| ==> Names(cache, r.warnings[k]))
      && |r.warnings| - |l.warnings| <= |cache|
  {
    if cache != [] {
      var init := cache[..|cache| - 1];
      var e := cache[|cache| - 1];
      var m := RegisterAll(h, l, init);
      var r := EntryStep(h, m, e);
      RegisterAllKeeps(h, l, init);
      EntryStepKeeps(h, m, e);
      assert Providers(init) <= Providers(cache) by {
        forall c | c in Providers(init) ensures c in Providers(cache) {
          var k :| 0 <= k < |init| && ProviderOf(init[k].1).Some? && ProviderOf(init[k].1).value == c;
          assert cache[k] == init[k];
        }
      }
      assert ProviderOf(e.1).Some? ==> ProviderOf(e.1).value in Providers(cache) by {
        if ProviderOf(e.1).Some? {
          assert ProviderOf(cache[|cache| - 1].1).Some?;
        }
      }
      forall c | c in r.providers - l.providers
        ensures c in Providers(cache) && ClassExists(h, r.loaders, c)
      {
        if c in m.providers {
          ClassExistsMonotone(h, m.loaders, r.loaders, c);
        }
      }
      forall k | |l.warnings| <= k < |r.warnings| ensures Names(cache, r.warnings[k]) {
        if k < |m.warnings| {
          assert r.warnings[k] == m.warnings[k];
          var j :| 0 <= j < |init| && init[j].0 == m.warnings[k].pluginId
            && ProviderOf(init[j].1) == Some(m.warnings[k].providerClass);
          assert cache[j] == init[j];
        } else {
          assert cache[|cache| - 1] == e;
        }
      }
    }
  }

  /**
   * `src` tells, for each warning of `ws`, the cache record it was logged for:
   * the record names that plugin with that provider class, and the records
   * strictly increase, so no record is warned twice and the warnings come in
   * the cache's order.
   */
  ghost predicate WarnedBy(cache: seq<CacheEntry>, ws: seq<Warning>, src: seq<nat>) {
    && |src| == |ws|
    && (forall k :: 0 <= k < |src| ==>
          src[k] < |cache| && ProviderOf(cache[src[k]].1).Some?
          && ws[k] == Warning(cache[src[k]].0, ProviderOf(cache[src[k]].1).value))
    && (forall a, b :: 0 <= a < b < |src| ==> src[a] < src[b])
  }

  /** One iteration logs nothing, or exactly the warning naming the record's plugin and provider class. */
  lemma EntryStepWarnings(h: Host, l: Ledger, e: CacheEntry)
    ensures var r := EntryStep(h, l, e);
      || r.warnings == l.warnings
      || (ProviderOf(e.1).Some? && r.warnings == l.warnings + [Warning(e.0, ProviderOf(e.1).value)])
  {
  }

  /** Each record of the cache is warned about at most once in a pass, in the cache's order. */
  lemma {:induction false} RegisterAllWarnsPerRecord(h: Host, l: Ledger, cache: seq<CacheEntry>)
    ensures var r := RegisterAll(h, l, cache);
      |l.warnings| <= |r.warnings| && exists src :: WarnedBy(cache, r.warnings[|l.warnings|..], src)
  {
    if cache == [] {
      assert l.warnings[|l.warnings|..] == [];
      assert WarnedBy(cache, [], []);
    } else {
      var init := cache[..|cache| - 1];
      var e := cache[|cache| - 1];
      var m := RegisterAll(h, l, init);
      var r := EntryStep(h, m, e);
      RegisterAllWarnsPerRecord(h, l, init);
      EntryStepWarnings(h, m, e);
      var ws0 := m.warnings[|l.warnings|..];
      var src0 :| WarnedBy(init, ws0, src0);
      assert cache == init + [e];
      if r.warnings == m.warnings {
        WarnedByExtends(init, e, ws0, src0);
      } else {
        var w := Warning(e.0, ProviderOf(e.1).value);
        assert r.warnings[|l.warnings|..] == ws0 + [w];
        WarnedByLast(init, e, ws0, src0);
      }
    }
  }

  lemma WarnedByExtends(init: seq<CacheEntry>, e: CacheEntry, ws: seq<Warning>, src: seq<nat>)
    requires WarnedBy(init, ws, src)
    ensures WarnedBy(init + [e], ws, src)
    ensures forall k :: 0 <= k < |src| ==> src[k] < |init|
  {
    forall k | 0 <= k < |src| ensures (init + [e])[src[k]] == init[src[k]] {
    }
  }

  lemma WarnedByLast(init: seq<CacheEntry>, e: CacheEntry, ws: seq<Warning>, src: seq<nat>)
    requires WarnedBy(init, ws, src) && ProviderOf(e.1).Some?
    ensures WarnedBy(init + [e], ws + [Warning(e.0, ProviderOf(e.1).value)], src + [|init|])
  {
    WarnedByExtends(init, e, ws, src);
    var cache := init + [e];
    assert cache[|init|] == e;
  }

  /**
   * A failing record does not stop the pass: a record whose class is unknown
   * and whose source directory is missing is warned about once, and a later
   * record with a resolvable class is still registered.
   */
  lemma {:induction false} FailingRecordIsIsolated(h: Host, cache: seq<CacheEntry>, bad: string, badClass: string, badPath: string,
                                                   good: string, goodClass: string, goodPath: string)
    requires cache == [(bad, Record(Text(badClass), Text(badPath))), (good, Record(Text(goodClass), Text(goodPath)))]
    requires badClass != "" && goodClass != "" && badClass != goodClass
    requires !h.resolvesWithoutLoaders(badClass) && !h.isDir(SourceRoot(h, badPath))
    requires h.resolvesWithoutLoaders(goodClass)
    ensures var r := Activate(h, FreshLedger, cache);
      && r.warnings == [Warning(bad, badClass)]
      && r.registrations == [goodClass] && r.providers == {goodClass}
  {
    var l0 := FreshLedger.(cacheReads := 1);
    ActivateFresh(h, cache);
    FailingThenResolvable(h, l0, bad, badClass, badPath, good, goodClass, goodPath);
  }

  /** On a fresh manager a pass reads the cache once and runs over it. */
  lemma ActivateFresh(h: Host, cache: seq<CacheEntry>)
    ensures Activate(h, FreshLedger, cache) == RegisterAll(h, FreshLedger.(cacheReads := 1), cache)
  {
  }

  lemma {:induction false} FailingThenResolvable(h: Host, l: Ledger, bad: string, badClass: string, badPath: string,
                                                 good: string, goodClass: string, goodPath: string)
    requires l.loaders == map[] && l.providers == {}
    requires badClass != "" && goodClass != "" && badClass != goodClass
    requires !h.resolvesWithoutLoaders(badClass) && !h.isDir(SourceRoot(h, badPath))
    requires h.resolvesWithoutLoaders(goodClass)
    ensures RegisterAll(h, l, [(bad, Record(Text(badClass), Text(badPath))), (good, Record(Text(goodClass), Text(goodPath)))])
      == l.(warnings := l.warnings + [Warning(bad, badClass)],
            registrations := l.registrations + [goodClass], providers := {goodClass})
  {
    var e1 := (bad, Record(Text(badClass), Text(badPath)));
    var e2 := (good, Record(Text(goodClass), Text(goodPath)));
    var l1 := l.(warnings := l.warnings + [Warning(bad, badClass)]);
    TwoEntryPass(h, l, e1, e2);
    MissingSourceWarns(h, l, badClass, bad, badPath);
    assert EntryStep(h, l, e1) == l1;
    ResolvableRegisters(h, l1, goodClass, good, goodPath);
  }

  /** A class the host resolves is registered and nothing else changes. */
  lemma ResolvableRegisters(h: Host, l: Ledger, cls: string, pluginId: string, pluginPath: string)
    requires cls !in l.providers && h.resolvesWithoutLoaders(cls)
    ensures RegisterOnce(h, l, cls, pluginId, pluginPath)
      == l.(registrations := l.registrations + [cls], providers := l.providers + {cls})
  {
  }

  /** A pass over two records is the two iterations in order. */
  lemma TwoEntryPass(h: Host, l: Ledger, e1: CacheEntry, e2: CacheEntry)
    ensures RegisterAll(h, l, [e1, e2]) == EntryStep(h, EntryStep(h, l, e1), e2)
  {
    var cache := [e1, e2];
    assert cache[..1] == [e1] && cache[..1][..0] == [];
    assert RegisterAll(h, l, [e1]) == EntryStep(h, RegisterAll(h, l, []), e1);
    assert RegisterAll(h, l, cache) == EntryStep(h, RegisterAll(h, l, [e1]), e2);
  }

  /** Without loaders, a class the host does not know whose source directory is missing is only warned about. */
  lemma MissingSourceWarns(h: Host, l: Ledger, cls: string, pluginId: string, pluginPath: string)
    requires l.loaders == map[] && cls !in l.providers
    requires !h.resolvesWithoutLoaders(cls) && !h.isDir(SourceRoot(h, pluginPath))
    ensures RegisterOnce(h, l, cls, pluginId, pluginPath) == l.(warnings := l.warnings + [Warning(pluginId, cls)])
  {
    assert InstallLoader(h, l, cls, pluginPath) == l;
  }

  /** `registerEnabledPluginProviders` keeps the ledger consistent: each class reaches `app->register` at most once. */
  lemma ActivateKeeps(h: Host, l: Ledger, cache: seq<CacheEntry>)
    requires Inv(l)
    ensures Inv(Activate(h, l, cache)) && Grows(l, Activate(h, l, cache))
  {
    if l.providers == {} {
      RegisterAllKeeps(h, l.(cacheReads := l.cacheReads + 1), cache);
    }
  }

  /**
   * Once a pass has registered a provider, any later pass changes nothing: the
   * cache is not read again, nothing is registered and nothing is logged.
   */
  lemma SecondPassIsNoOp(h: Host, l: Ledger, cache: seq<CacheEntry>, later: seq<CacheEntry>)
    requires Activate(h, l, cache).providers != {}
    ensures Activate(h, Activate(h, l, cache), later) == Activate(h, l, cache)
  {
  }

  /** A pass that registered nothing does not block the next one: that pass reads the cache again. */
  lemma EmptyPassDoesNotBlock(h: Host, l: Ledger, cache: seq<CacheEntry>, later: seq<CacheEntry>)
    requires Inv(l) && l.providers == {}
    requires Activate(h, l, cache).providers == {}
    ensures Activate(h, Activate(h, l, cache), later).cacheReads > Activate(h, l, cache).cacheReads
  {
    ActivateKeeps(h, l, cache);
    var r := Activate(h, l, cache);
    RegisterAllKeeps(h, r.(cacheReads := r.cacheReads + 1), later);
  }

  /** With the whole pipeline in view: a class that is already resolvable gets no loader, and is registered. */
  lemma ResolvableClassNeedsNoLoader(h: Host, l: Ledger, cls: string, pluginId: string, pluginPath: string)
    requires cls !in l.providers && ClassExists(h, l.loaders, cls)
    ensures var r := RegisterOnce(h, l, cls, pluginId, pluginPath);
      r.loaders == l.loaders && r.prefixes == l.prefixes && r.registrations == l.registrations + [cls]
  {
  }

  /** An empty (or missing) cache activates nothing and logs nothing. */
  lemma EmptyCache(h: Host)
    ensures var r := Activate(h, FreshLedger, []);
      r.providers == {} && r.registrations == [] && r.warnings == [] && r.cacheReads == 1
  {
  }

  /**
   * A single path plugin whose class composer does not know, on a fresh
   * manager: one loader is installed for the class's namespace, mapping the
   * class to `<base>/<path>/src/<ShortName>.php`. When that file defines the
   * class, exactly that class is registered; when it is missing, nothing is
   * registered and one warning names the plugin and the class.
   */
  lemma SinglePathPlugin(h: Host, cache: seq<CacheEntry>, id: string, cls: string, path: string)
    requires cache == [(id, Record(Text(cls), Text(path)))]
    requires NamespacePrefix(cls).Some? && cls[|cls| - 1] != '\\'
    requires TrimSet(path, {'/'}) != "" && h.isDir(SourceRoot(h, path))
    requires !h.resolvesWithoutLoaders(cls)
    ensures var prefix := NamespacePrefix(cls).value;
      var file := SourceRoot(h, path) + "/" + cls[|prefix|..] + ".php";
      var r := Activate(h, FreshLedger, cache);
      && r.loaders == map[prefix := SourceRoot(h, path)] && r.prefixes == {prefix}
      && (h.isFile(file) && h.fileDeclares(file, cls) ==>
            r.providers == {cls} && r.registrations == [cls] && r.warnings == [])
      && (!h.isFile(file) ==>
            r.providers == {} && r.registrations == [] && r.warnings == [Warning(id, cls)])
  {
    assert cls != "";
    SingleEntryPass(h, cache, id, cls, path);
    SinglePathPluginOnce(h, FreshLedger.(cacheReads := 1), id, cls, path);
  }

  /** On a fresh manager, a cache of one record is one `registerProviderOnce` after one cache read. */
  lemma SingleEntryPass(h: Host, cache: seq<CacheEntry>, id: string, cls: string, path: string)
    requires cache == [(id, Record(Text(cls), Text(path)))] && cls != ""
    ensures Activate(h, FreshLedger, cache) == RegisterOnce(h, FreshLedger.(cacheReads := 1), cls, id, path)
  {
    var l0 := FreshLedger.(cacheReads := 1);
    assert Activate(h, FreshLedger, cache) == RegisterAll(h, l0, cache);
    assert cache[..0] == [];
    assert RegisterAll(h, l0, cache) == EntryStep(h, l0, cache[0]);
  }

  lemma SinglePathPluginOnce(h: Host, l0: Ledger, id: string, cls: string, path: string)
    requires l0 == FreshLedger.(cacheReads := 1)
    requires NamespacePrefix(cls).Some? && cls[|cls| - 1] != '\\'
    requires TrimSet(path, {'/'}) != "" && h.isDir(SourceRoot(h, path))
    requires !h.resolvesWithoutLoaders(cls)
    ensures var prefix := NamespacePrefix(cls).value;
      var file := SourceRoot(h, path) + "/" + cls[|prefix|..] + ".php";
      var r := RegisterOnce(h, l0, cls, id, path);
      && r.loaders == map[prefix := SourceRoot(h, path)] && r.prefixes == {prefix}
      && (h.isFile(file) && h.fileDeclares(file, cls) ==>
            r.providers == {cls} && r.registrations == [cls] && r.warnings == [])
      && (!h.isFile(file) ==>
            r.providers == {} && r.registrations == [] && r.warnings == [Warning(id, cls)])
  {
    var prefix := NamespacePrefix(cls).value;
    var root := SourceRoot(h, path);
    assert !ClassExists(h, l0.loaders, cls);
    var l1 := InstallLoader(h, l0, cls, path);
    assert l1.loaders == map[prefix := root];
    OwnPrefixTarget(cls, root);
    ClassExistsSingle(h, prefix, root, cls);
  }

  const AcmeClass: string := "Acme\\Widgets\\Provider"

  /**
   * A path plugin `acme/widgets` with provider
   * `Acme\\Widgets\\Provider` at `plugins/acme/widgets` gets one loader for
   * `Acme\\Widgets\\` over `<base>/plugins/acme/widgets/src`, which maps the class
   * to `Provider.php` there.
   */
  lemma AcmeScenario(h: Host)
    requires !h.resolvesWithoutLoaders(AcmeClass)
    requires h.isDir(SourceRoot(h, "plugins/acme/widgets"))
    ensures var root := SourceRoot(h, "plugins/acme/widgets");
      var file := root + "/" + "Provider" + ".php";
      var r := Activate(h, FreshLedger, [("acme/widgets", Record(Text(AcmeClass), Text("plugins/acme/widgets")))]);
      && r.loaders == map["Acme\\Widgets\\" := root]
      && (h.isFile(file) && h.fileDeclares(file, AcmeClass) ==>
            r.providers == {AcmeClass} && r.registrations == [AcmeClass] && r.warnings == [])
      && (!h.isFile(file) ==>
            r.providers == {} && r.registrations == [] && r.warnings == [Warning("acme/widgets", AcmeClass)])
  {
    AcmeNames();
    SinglePathPlugin(h, [("acme/widgets", Record(Text(AcmeClass), Text("plugins/acme/widgets")))],
      "acme/widgets", AcmeClass, "plugins/acme/widgets");
  }

  lemma AcmeNames()
    ensures NamespacePrefix(AcmeClass) == Some("Acme\\Widgets\\")
    ensures AcmeClass[|"Acme\\Widgets\\"|..] == "Provider" && AcmeClass[|AcmeClass| - 1] != '\\'
    ensures TrimSet("plugins/acme/widgets", {'/'}) != ""
  {
    assert AcmeClass[12] == '\\';
    assert forall j :: 12 < j < |AcmeClass| ==> AcmeClass[j] != '\\';
    assert NamespacePrefix(AcmeClass) == Some(AcmeClass[..13]);
    assert AcmeClass[..13] == "Acme\\Widgets\\";
    assert AcmeClass[13..] == "Provider";
  }

  const FixtureNamespace: string := "Fixture\\PathPlugin\\"
  const FixtureShortName: string := "TestPathPluginServiceProvider"
  const FixtureClass: string := FixtureNamespace + FixtureShortName
  /** The fixture's directory: the package's root, then the fixture below its tests. */
  const FixturePath: string := "packages/tentapress/system" + "/tests/Fixtures/path-plugin"

  /**
   * The repository's path-plugin fixture: composer does not know
   * `Fixture\\PathPlugin\\TestPathPluginServiceProvider`, the cache names it with
   * the fixture's directory, and the directory's `src` holds
   * `TestPathPluginServiceProvider.php` defining it. One pass installs the
   * loader for `Fixture\\PathPlugin\\`, registers exactly that class, logs
   * nothing, and the class resolves afterwards.
   */
  lemma FixtureScenario(h: Host)
    requires !h.resolvesWithoutLoaders(FixtureClass)
    requires h.isDir(SourceRoot(h, FixturePath))
    requires var file := SourceRoot(h, FixturePath) + "/" + "TestPathPluginServiceProvider" + ".php";
      h.isFile(file) && h.fileDeclares(file, FixtureClass)
    ensures var r := Activate(h, FreshLedger, [("fixture/path-plugin", Record(Text(FixtureClass), Text(FixturePath)))]);
      && r.loaders == map["Fixture\\PathPlugin\\" := SourceRoot(h, FixturePath)]
      && r.providers == {FixtureClass} && r.registrations == [FixtureClass] && r.warnings == []
      && ClassExists(h, r.loaders, FixtureClass)
  {
    FixtureNames();
    SinglePathPlugin(h, [("fixture/path-plugin", Record(Text(FixtureClass), Text(FixturePath)))],
      "fixture/path-plugin", FixtureClass, FixturePath);
    ClassExistsSingle(h, "Fixture\\PathPlugin\\", SourceRoot(h, FixturePath), FixtureClass);
    OwnPrefixTarget(FixtureClass, SourceRoot(h, FixturePath));
  }

  lemma FixtureNames()
    ensures NamespacePrefix(FixtureClass) == Some("Fixture\\PathPlugin\\")
    ensures FixtureClass[|"Fixture\\PathPlugin\\"|..] == "TestPathPluginServiceProvider"
    ensures FixtureClass[|FixtureClass| - 1] != '\\'
    ensures TrimSet(FixturePath, {'/'}) != ""
  {
    assert FixturePath[0] == 'p';
    NamespacePrefixOfSplit(FixtureNamespace, FixtureShortName);
  }

  /** A class written as a namespace ending in `\` followed by a short name without `\` has that namespace as its prefix. */
  lemma NamespacePrefixOfSplit(ns: string, short: string)
    requires ns != [] && ns[|ns| - 1] == '\\' && '\\' !in short
    ensures NamespacePrefix(ns + short) == Some(ns)
  {
    var cls := ns + short;
    assert cls[|ns| - 1] == '\\';
    assert cls[..|ns|] == ns;
  }

  lemma ClassExistsSingle(h: Host, prefix: string, root: string, cls: string)
    ensures ClassExists(h, map[prefix := root], cls) <==> h.resolvesWithoutLoaders(cls) || Loads(h, prefix, root, cls)
  {
    if ClassExists(h, map[prefix := root], cls) && !h.resolvesWithoutLoaders(cls) {
      var p :| p in map[prefix := root] && Loads(h, p, map[prefix := root][p], cls);
      assert p == prefix;
    }
    if Loads(h, prefix, root, cls) {
      assert prefix in map[prefix := root] && map[prefix := root][prefix] == root;
    }
  }

  /**
   * The managed state of one `PluginManager` instance. `cacheReads` counts the
   * calls of `readCache()`; the other fields are the two ledger arrays, the
   * host's autoloader queue restricted to the closures this instance installs,
   * and the logs of `app->register` and `logger()->warning`.
   */
  class PluginManager {
    const host: Host
    var registeredProviders: set<string>
    var registeredAutoloadPrefixes: set<string>
    var autoloaders: map<string, string>
    var registrations: seq<string>
    var warnings: seq<Warning>
    var cacheReads: nat

    function State(): Ledger
      reads this
    {
      Ledger(registeredProviders, registeredAutoloadPrefixes, autoloaders, registrations, warnings, cacheReads)
    }

    constructor (host: Host)
      ensures this.host == host && State() == FreshLedger
    {
      this.host := host;
      registeredProviders, registeredAutoloadPrefixes := {}, {};
      autoloaders, registrations, warnings, cacheReads := map[], [], [], 0;
    }

    method RegisterEnabledPluginProviders(cache: seq<CacheEntry>)
      modifies this
      ensures State() == Activate(host, old(State()), cache)
    {
      if registeredProviders != {} {
        return;
      }
      cacheReads := cacheReads + 1;
      ghost var start := State();
      var i := 0;
      while i < |cache|
        invariant 0 <= i <= |cache|
        invariant State() == RegisterAll(host, start, cache[..i])
      {
        assert cache[..i + 1][..i] == cache[..i];
        var (id, info) := cache[i];
        if info.Record? && info.provider.Text? && info.provider.text != "" {
          RegisterProviderOnce(info.provider.text, id, PathText(info.path));
        }
        i := i + 1;
      }
      assert cache[..i] == cache;
    }

    method RegisterProviderOnce(providerClass: string, pluginId: string, pluginPath: string)
      modifies this
      ensures State() == RegisterOnce(host, old(State()), providerClass, pluginId, pluginPath)
    {
      if providerClass in registeredProviders {
        return;
      }
      if !ClassExists(host, autoloaders, providerClass) {
        RegisterPathAutoloader(providerClass, pluginPath);
      }
      if !ClassExists(host, autoloaders, providerClass) {
        warnings := warnings + [Warning(pluginId, providerClass)];
        return;
      }
      registrations := registrations + [providerClass];
      registeredProviders := registeredProviders + {providerClass};
    }

    method RegisterPathAutoloader(providerClass: string, pluginPath: string)
      modifies this
      ensures State() == InstallLoader(host, old(State()), providerClass, pluginPath)
    {
      var namespacePrefix := NamespacePrefix(providerClass);
      var relativePluginPath := TrimSet(pluginPath, {'/'});
      if namespacePrefix.None? || relativePluginPath == "" {
        return;
      }
      if namespacePrefix.value in registeredAutoloadPrefixes {
        return;
      }
      var sourcePath := host.basePath(relativePluginPath + "/src");
      if !host.isDir(sourcePath) {
        return;
      }
      autoloaders := autoloaders[namespacePrefix.value := sourcePath];
      registeredAutoloadPrefixes := registeredAutoloadPrefixes + {namespacePrefix.value};
    }
  }
}
