/**
 * `FirstPartyPluginCatalogGenerator`: builds the first-party plugin catalog
 * from decoded plugin manifests, carrying icons, tags, links and package
 * names over from the catalog already on disk.
 *
 * Reading files is left to the caller: the manifests arrive decoded, in the
 * order `manifestPaths()` lists them, each with its decoded `composer.json`;
 * the stored catalog arrives decoded, or `None` when there is no such file.
 * `base_path()`, the clock and `parse_url`'s scheme are parameters.
 */
module Catalog {
  import opened Options
  import opened PhpString
  import opened Sorting
  import opened PhpJson

  const DefaultCatalogPath: string := "docs/catalog/first-party-plugins.json"
  const IdPrefix: string := "tentapress/"
  const SchemaVersion: int := 1
  const IconLength: nat := 32

  /** A manifest as decoded from `tentapress.json`, with its sibling `composer.json` (empty when missing or unreadable). */
  datatype ManifestFile = ManifestFile(manifest: PhpArray, composer: PhpArray)

  /** One element of `plugins`; `None` and an empty `tags` stand for a key the entry leaves out. */
  datatype CatalogEntry = CatalogEntry(
    id: string,
    name: string,
    description: string,
    package: string,
    latestVersion: string,
    icon: Option<string>,
    docsUrl: Option<string>,
    repoUrl: Option<string>,
    tags: seq<string>)

  /** What `generate` returns. */
  datatype Payload = Payload(schemaVersion: int, generatedAt: string, plugins: seq<CatalogEntry>)

  // ---------------------------------------------------------------- paths

  /** `resolveCatalogPath($path)`. */
  function ResolveCatalogPath(path: Option<string>, basePath: string -> string): (r: string)
    ensures Trim(path.GetOr("")) == "" ==> r == basePath(DefaultCatalogPath)
    ensures Trim(path.GetOr("")) != "" && StartsWith(Trim(path.GetOr("")), "/") ==> r == Trim(path.GetOr(""))
    ensures Trim(path.GetOr("")) != "" && !StartsWith(Trim(path.GetOr("")), "/") ==> r == basePath(Trim(path.GetOr("")))
  {
    var candidate := Trim(path.GetOr(""));
    if candidate == "" then basePath(DefaultCatalogPath)
    else if StartsWith(candidate, "/") then candidate
    else basePath(candidate)
  }

  /** An absolute path is used as given, only trimmed, and never goes through `base_path()`. */
  lemma AbsoluteCatalogPath(path: string, basePath: string -> string)
    requires |path| > 0 && path[0] == '/' && IsTrimmed(path)
    ensures ResolveCatalogPath(Some(path), basePath) == path
  {
    TrimOfTrimmed(path);
    SlashPrefix(path);
  }

  lemma SlashPrefix(path: string)
    requires |path| > 0 && path[0] == '/'
    ensures StartsWith(path, "/")
  {
    assert path[..1] == [path[0]];
  }

  // ---------------------------------------------------------------- icons

  /** `mb_substr($s, 0, $n)`: the first `n` characters, or all of them when there are fewer. */
  function Prefix(s: string, n: nat): (r: string)
    ensures |r| == (if |s| <= n then |s| else n)
    ensures r == s[..|r|]
  {
    if |s| <= n then s else s[..n]
  }

  /** `normalizeIcon($value)`. */
  function NormalizeIcon(v: Json): (r: Option<string>)
    ensures r.Some? <==> v.JString? && Trim(v.s) != ""
    ensures r.Some? ==> r.value != [] && r.value == Prefix(Trim(v.s), IconLength)
  {
    if !v.JString? then None
    else
      var icon := Trim(v.s);
      if icon == "" then None else Some(Prefix(icon, IconLength))
  }

  lemma NormalizeIconOfString(s: string)
    ensures NormalizeIcon(JString(s)) == if Trim(s) == "" then None else Some(Prefix(Trim(s), IconLength))
  {
  }

  /** An icon that normalises to itself is trimmed: so is every icon normalised from one of at most 32 characters. */
  lemma NormalizeIconFixpoint(s: string)
    ensures NormalizeIcon(JString(s)) == Some(s) <==> s != "" && IsTrimmed(s) && |s| <= IconLength
  {
    NormalizeIconOfString(s);
    TrimIsTrimmed(s);
    if IsTrimmed(s) {
      TrimOfTrimmed(s);
    }
  }

  /**
   * The cut to 32 characters happens after trimming, so it can leave
   * whitespace at the end of the icon; normalising that icon again trims it
   * and gives a different icon.
   */
  lemma IconCutBeforeSpace(s: string)
    requires IsTrimmed(s) && |s| > IconLength && s[IconLength - 1] == ' '
    ensures NormalizeIcon(JString(s)) == Some(s[..IconLength])
    ensures NormalizeIcon(JString(s[..IconLength])) != Some(s[..IconLength])
  {
    TrimOfTrimmed(s);
    NormalizeIconOfString(s);
    NormalizeIconFixpoint(s[..IconLength]);
  }

  /** The icon a menu entry contributes: `normalizeIcon($menu['icon'] ?? null)` for an array entry. */
  function MenuIcon(menu: Json): Option<string> {
    if menu.JArray? then NormalizeIcon(Get(menu.entries, "icon")) else None
  }

  /** The first menu, in order, for which `iconOf` gives an icon; `iconOf` is `MenuIcon`. */
  function FirstMenuIcon(menus: seq<Json>, iconOf: Json -> Option<string>): (r: Option<string>)
    ensures r.Some? <==> exists i :: 0 <= i < |menus| && iconOf(menus[i]).Some?
  {
    if menus == [] then None
    else if iconOf(menus[0]).Some? then iconOf(menus[0])
    else
      var r := FirstMenuIcon(menus[1..], iconOf);
      assert forall i :: 1 <= i < |menus| ==> menus[i] == menus[1..][i - 1];
      r
  }

  /** `FirstMenuIcon` finds the earliest menu with an icon. */
  lemma {:induction false} FirstMenuIconIsFirst(menus: seq<Json>, iconOf: Json -> Option<string>)
    ensures FirstMenuIcon(menus, iconOf).Some? ==>
      exists i :: 0 <= i < |menus| && iconOf(menus[i]) == FirstMenuIcon(menus, iconOf)
                  && forall j :: 0 <= j < i ==> iconOf(menus[j]).None?
  {
    if menus != [] && iconOf(menus[0]).None? && FirstMenuIcon(menus, iconOf).Some? {
      FirstMenuIconIsFirst(menus[1..], iconOf);
      var i :| 0 <= i < |menus| - 1 && iconOf(menus[1..][i]) == FirstMenuIcon(menus[1..], iconOf)
               && forall j :: 0 <= j < i ==> iconOf(menus[1..][j]).None?;
      assert iconOf(menus[i + 1]) == FirstMenuIcon(menus, iconOf);
      forall j | 0 <= j < i + 1 ensures iconOf(menus[j]).None? {
        if j > 0 { assert menus[j] == menus[1..][j - 1]; }
      }
    }
  }

  /** Whatever `FirstMenuIcon` picks is one of the menus' icons. */
  lemma MenuIconBounds(m: Json)
    ensures MenuIcon(m).Some? ==> MenuIcon(m).value != [] && |MenuIcon(m).value| <= IconLength
  {
  }

  /** `$manifest['admin']['menus'] ?? null`. */
  function Menus(manifest: PhpArray): Json {
    At(Get(manifest, "admin"), "menus")
  }

  /** `resolveIcon($manifest, $existing)`. */
  function IconFor(manifest: PhpArray, existing: PhpArray): (r: Option<string>)
    ensures NormalizeIcon(Get(existing, "icon")).Some? ==> r == NormalizeIcon(Get(existing, "icon"))
    ensures NormalizeIcon(Get(existing, "icon")).None? && !Menus(manifest).JArray? ==> r.None?
  {
    var existingIcon := NormalizeIcon(Get(existing, "icon"));
    if existingIcon.Some? then existingIcon
    else
      var menus := Menus(manifest);
      if !menus.JArray? then None else FirstMenuIcon(Values(menus.entries), MenuIcon)
  }

  /**
   * The icon rule: the existing entry's icon when it normalises to something,
   * otherwise the first menu (in manifest order) whose icon does, otherwise
   * none; whatever is chosen is a non-empty icon of at most 32 characters.
   */
  lemma IconForSpec(manifest: PhpArray, existing: PhpArray)
    ensures var r := IconFor(manifest, existing);
      && (NormalizeIcon(Get(existing, "icon")).Some? ==> r == NormalizeIcon(Get(existing, "icon")))
      && (r.Some? ==> r.value != [] && |r.value| <= IconLength)
      && (NormalizeIcon(Get(existing, "icon")).None? ==>
           (r.Some? <==> Menus(manifest).JArray? &&
                         exists i :: 0 <= i < |Menus(manifest).entries| && MenuIcon(Menus(manifest).entries[i].1).Some?))
      && (NormalizeIcon(Get(existing, "icon")).None? && r.Some? ==>
           exists i :: 0 <= i < |Menus(manifest).entries| && MenuIcon(Menus(manifest).entries[i].1) == r
                       && forall j :: 0 <= j < i ==> MenuIcon(Menus(manifest).entries[j].1).None?)
  {
    var menus := Menus(manifest);
    if NormalizeIcon(Get(existing, "icon")).None? && menus.JArray? {
      var vs := Values(menus.entries);
      FirstMenuIconIsFirst(vs, MenuIcon);
      var r := FirstMenuIcon(vs, MenuIcon);
      if r.Some? {
        var i :| 0 <= i < |vs| && MenuIcon(vs[i]) == r;
        assert MenuIcon(menus.entries[i].1) == r;
        MenuIconBounds(vs[i]);
      }
    }
  }

  /** `resolveIcon`, which scans the menus and returns at the first icon. */
  method ResolveIcon(manifest: PhpArray, existing: PhpArray) returns (icon: Option<string>)
    ensures icon == IconFor(manifest, existing)
  {
    var existingIcon := NormalizeIcon(Get(existing, "icon"));
    if existingIcon.Some? {
      return existingIcon;
    }
    var menus := Menus(manifest);
    if !menus.JArray? {
      return None;
    }
    var vs := Values(menus.entries);
    var i := 0;
    while i < |vs|
      invariant 0 <= i <= |vs|
      invariant FirstMenuIcon(vs, MenuIcon) == FirstMenuIcon(vs[i..], MenuIcon)
    {
      assert vs[i..][1..] == vs[i + 1..];
      var found := MenuIcon(vs[i]);
      if found.Some? {
        return found;
      }
      i := i + 1;
    }
    return None;
  }

  // ---------------------------------------------------------------- package names, links, tags

  /** `strtolower(trim((string) ($a[$k] ?? '')))`. */
  function LowerText(a: PhpArray, k: string): (r: string)
    ensures IsLower(r) && IsTrimmed(r)
  {
    TrimIsTrimmed(Text(Get(a, k)));
    LowerKeepsTrimmed(Trim(Text(Get(a, k))));
    LowerIsLower(Trim(Text(Get(a, k))));
    Lower(Trim(Text(Get(a, k))))
  }

  /** `resolvePackageName($id, $composer, $existing)`. */
  function ResolvePackageName(id: string, composer: PhpArray, existing: PhpArray): (r: string)
    ensures LowerText(composer, "name") != "" ==> r == LowerText(composer, "name")
    ensures LowerText(composer, "name") == "" && LowerText(existing, "package") != "" ==> r == LowerText(existing, "package")
    ensures LowerText(composer, "name") == "" && LowerText(existing, "package") == "" ==> r == id
    ensures id != "" ==> r != ""
  {
    var composerName := LowerText(composer, "name");
    if composerName != "" then composerName
    else
      var existingPackage := LowerText(existing, "package");
      if existingPackage != "" then existingPackage else id
  }

  /** `normalizeOptionalUrl($value)`; `scheme(u)` is `(string) parse_url(u, PHP_URL_SCHEME)`. */
  function NormalizeOptionalUrl(v: Json, scheme: string -> string): (r: Option<string>)
    ensures r.Some? <==> v.JString? && Trim(v.s) != "" && Lower(scheme(Trim(v.s))) in {"http", "https"}
    ensures r.Some? ==> r.value == Trim(v.s)
  {
    if !v.JString? then None
    else
      var url := Trim(v.s);
      if url == "" then None
      else if Lower(scheme(url)) in {"http", "https"} then Some(url) else None
  }

  /** A normalised link normalises to itself. */
  lemma NormalizeOptionalUrlStable(v: Json, scheme: string -> string)
    requires NormalizeOptionalUrl(v, scheme).Some?
    ensures NormalizeOptionalUrl(JString(NormalizeOptionalUrl(v, scheme).value), scheme) == NormalizeOptionalUrl(v, scheme)
  {
    TrimIsTrimmed(v.s);
    TrimOfTrimmed(Trim(v.s));
  }

  /** `array_map(fn ($tag) => trim((string) $tag), $value)`. */
  function TrimAll(vs: seq<Json>): (ts: seq<string>)
    ensures |ts| == |vs|
    ensures forall i :: 0 <= i < |vs| ==> ts[i] == Trim(Text(vs[i]))
  {
    seq(|vs|, i requires 0 <= i < |vs| => Trim(Text(vs[i])))
  }

  /** `array_values(array_filter($tags, fn ($tag) => $tag !== ''))`. */
  function NonEmpty(ts: seq<string>): (r: seq<string>)
    ensures forall t :: t in r <==> t in ts && t != ""
    ensures |ts| == 1 ==> r == if ts[0] == "" then [] else ts
  {
    if ts == [] then []
    else
      var rest := NonEmpty(ts[1..]);
      assert ts == [ts[0]] + ts[1..];
      if ts[0] == "" then rest else [ts[0]] + rest
  }

  /** Dropping the empty tags keeps the order of the rest: a concatenation is filtered part by part. */
  lemma {:induction false} NonEmptyConcat(a: seq<string>, b: seq<string>)
    ensures NonEmpty(a + b) == NonEmpty(a) + NonEmpty(b)
  {
    if a == [] {
      assert a + b == b;
    } else {
      assert (a + b)[0] == a[0] && (a + b)[1..] == a[1..] + b;
      NonEmptyConcat(a[1..], b);
    }
  }

  ghost predicate Distinct<T>(s: seq<T>) {
    forall i, j :: 0 <= i < j < |s| ==> s[i] != s[j]
  }

  /** The position of the first occurrence of `x`. */
  function FirstIndex<T(==)>(s: seq<T>, x: T): (i: nat)
    requires x in s
    ensures i < |s| && s[i] == x
    ensures forall j :: 0 <= j < i ==> s[j] != x
  {
    if s[0] == x then 0 else 1 + FirstIndex(s[1..], x)
  }

  /** `array_values(array_unique($tags))`: the first occurrence of each value, in order. */
  function Unique<T(==, !new)>(s: seq<T>): (r: seq<T>)
    ensures forall x :: x in r <==> x in s
  {
    if s == [] then []
    else
      var init := s[..|s| - 1];
      var last := s[|s| - 1];
      assert s == init + [last];
      var u := Unique(init);
      if last in u then u else u + [last]
  }

  lemma FirstIndexOfPrefix<T>(s: seq<T>, n: nat, x: T)
    requires n <= |s| && x in s[..n]
    ensures FirstIndex(s[..n], x) == FirstIndex(s, x)
  {
    var i := FirstIndex(s[..n], x);
    assert forall k :: 0 <= k < n ==> s[..n][k] == s[k];
    assert s[i] == x && forall k :: 0 <= k < i ==> s[k] != x;
  }

  /** `Unique` keeps one copy of each value, ordered by where each one first occurs. */
  lemma {:induction false} UniqueSpec<T(!new)>(s: seq<T>)
    ensures Distinct(Unique(s))
    ensures forall i, j :: 0 <= i < j < |Unique(s)| ==> FirstIndex(s, Unique(s)[i]) < FirstIndex(s, Unique(s)[j])
  {
    if s != [] {
      var init := s[..|s| - 1];
      var last := s[|s| - 1];
      var u := Unique(init);
      UniqueSpec(init);
      forall x | x in u ensures FirstIndex(init, x) == FirstIndex(s, x) {
        FirstIndexOfPrefix(s, |s| - 1, x);
      }
      if last !in u {
        var r := u + [last];
        assert last !in init;
        assert FirstIndex(s, last) == |s| - 1;
        assert forall x :: x in r ==> x in s by {
          assert s == init + [last];
        }
        forall i, j | 0 <= i < j < |r| ensures r[i] != r[j] && FirstIndex(s, r[i]) < FirstIndex(s, r[j]) {
          assert r[i] == u[i] && u[i] in init;
          if j < |u| {
            assert r[j] == u[j] && u[j] in init;
          } else {
            assert r[j] == last;
          }
        }
      }
    }
  }

  /** A sequence without repeats is its own `Unique`. */
  lemma {:induction false} UniqueOfDistinct<T(!new)>(s: seq<T>)
    requires Distinct(s)
    ensures Unique(s) == s
  {
    if s != [] {
      var init := s[..|s| - 1];
      assert Distinct(init);
      UniqueOfDistinct(init);
      assert s[|s| - 1] !in init;
      assert s == init + [s[|s| - 1]];
    }
  }

  /** `normalizeTags($value)`. */
  function NormalizeTags(v: Json): (r: seq<string>)
    ensures !v.JArray? ==> r == []
    ensures forall t :: t in r ==> t != ""
  {
    if !v.JArray? then [] else Unique(NonEmpty(TrimAll(Values(v.entries))))
  }

  /**
   * The tag rule: nothing for a non-array; otherwise the trimmed text of each
   * value, empty ones dropped, each kept once, in the order of first
   * occurrence.
   */
  lemma NormalizeTagsSpec(v: Json)
    ensures !v.JArray? ==> NormalizeTags(v) == []
    ensures forall t :: t in NormalizeTags(v) ==> t != "" && IsTrimmed(t)
    ensures Distinct(NormalizeTags(v))
    ensures v.JArray? ==> forall t :: t in NormalizeTags(v) <==>
      t != "" && exists i :: 0 <= i < |v.entries| && Trim(Text(v.entries[i].1)) == t
    ensures v.JArray? ==> var cleaned := NonEmpty(TrimAll(Values(v.entries)));
      forall i, j :: 0 <= i < j < |NormalizeTags(v)| ==>
        FirstIndex(cleaned, NormalizeTags(v)[i]) < FirstIndex(cleaned, NormalizeTags(v)[j])
  {
    if v.JArray? {
      UniqueSpec(NonEmpty(TrimAll(Values(v.entries))));
      TagsTrimmed(v.entries);
      forall t ensures t in NormalizeTags(v) <==> t != "" && exists i :: 0 <= i < |v.entries| && Trim(Text(v.entries[i].1)) == t {
        TagMember(v.entries, t);
      }
    }
  }

  lemma TagMember(a: PhpArray, t: string)
    ensures t in NormalizeTags(JArray(a)) <==> t != "" && exists i :: 0 <= i < |a| && Trim(Text(a[i].1)) == t
  {
    var ts := TrimAll(Values(a));
    assert t in NormalizeTags(JArray(a)) <==> t != "" && t in ts;
    if t != "" && exists i :: 0 <= i < |a| && Trim(Text(a[i].1)) == t {
      var i :| 0 <= i < |a| && Trim(Text(a[i].1)) == t;
      assert ts[i] == t;
    }
  }

  lemma TagsTrimmed(a: PhpArray)
    ensures forall t :: t in NormalizeTags(JArray(a)) ==> t != "" && IsTrimmed(t)
  {
    var ts := TrimAll(Values(a));
    forall t | t in NormalizeTags(JArray(a)) ensures t != "" && IsTrimmed(t) {
      assert t in ts;
      var i :| 0 <= i < |ts| && ts[i] == t;
      TrimIsTrimmed(Text(a[i].1));
    }
  }

  // ---------------------------------------------------------------- the stored catalog

  /** `strtolower(trim((string) ($entry['id'] ?? '')))` for a stored entry; a non-array has no key. */
  function EntryKey(v: Json): (k: string)
    ensures IsLower(k) && IsTrimmed(k)
  {
    if v.JArray? then LowerText(v.entries, "id") else ""
  }

  /** The stored value `v` counts under key `k`: it is an array whose key is `k`. */
  predicate KeyedAs(v: Json, keyOf: Json -> string, k: string)
  {
    v.JArray? && keyOf(v) == k
  }

  /** The loop of `existingEntriesById` over the stored `plugins` values, with `keyOf` computing an entry's key. */
  function EntriesOf(vs: seq<Json>, keyOf: Json -> string): (m: map<string, PhpArray>)
    ensures forall k :: k in m ==> k != ""
  {
    if vs == [] then map[]
    else
      var m := EntriesOf(vs[..|vs| - 1], keyOf);
      var v := vs[|vs| - 1];
      if !v.JArray? || keyOf(v) == "" then m else m[keyOf(v) := v.entries]
  }

  /** Every non-empty key some stored array has is present, and nothing else. */
  lemma {:induction false} EntriesOfKeys(vs: seq<Json>, keyOf: Json -> string, k: string)
    ensures k in EntriesOf(vs, keyOf) <==> k != "" && exists i :: 0 <= i < |vs| && KeyedAs(vs[i], keyOf, k)
  {
    if vs != [] {
      var n := |vs| - 1;
      var init := vs[..n];
      EntriesOfKeys(init, keyOf, k);
      if !KeyedAs(vs[n], keyOf, k) {
        if exists i :: 0 <= i < |vs| && KeyedAs(vs[i], keyOf, k) {
          var i :| 0 <= i < |vs| && KeyedAs(vs[i], keyOf, k);
          assert init[i] == vs[i];
        }
        if exists i :: 0 <= i < n && KeyedAs(init[i], keyOf, k) {
          var i :| 0 <= i < n && KeyedAs(init[i], keyOf, k);
          assert vs[i] == init[i];
        }
      }
    }
  }

  /** A present key holds the last stored array with that key: a later duplicate wins. */
  lemma {:induction false} EntriesOfLastWins(vs: seq<Json>, keyOf: Json -> string, k: string)
    requires k in EntriesOf(vs, keyOf)
    ensures exists i :: 0 <= i < |vs| && KeyedAs(vs[i], keyOf, k) && EntriesOf(vs, keyOf)[k] == vs[i].entries
                        && forall j :: i < j < |vs| ==> !KeyedAs(vs[j], keyOf, k)
  {
    var n := |vs| - 1;
    var init := vs[..n];
    if !KeyedAs(vs[n], keyOf, k) {
      EntriesOfLastWins(init, keyOf, k);
      var i :| 0 <= i < n && KeyedAs(init[i], keyOf, k) && EntriesOf(init, keyOf)[k] == init[i].entries
               && forall j :: i < j < n ==> !KeyedAs(init[j], keyOf, k);
      assert vs[i] == init[i];
      forall j | i < j < |vs| ensures !KeyedAs(vs[j], keyOf, k) {
        if j < n { assert vs[j] == init[j]; }
      }
    }
  }

  /** `existingEntriesById($catalogPath)` on the decoded stored catalog. */
  function EntriesById(stored: Option<PhpArray>): (m: map<string, PhpArray>)
    ensures stored.None? ==> m == map[]
    ensures stored.Some? && !Get(stored.value, "plugins").JArray? ==> m == map[]
    ensures forall k :: k in m ==> k != ""
  {
    if stored.None? then map[]
    else
      var plugins := Get(stored.value, "plugins");
      if !plugins.JArray? then map[] else EntriesOf(Values(plugins.entries), EntryKey)
  }

  /** `existingEntriesById`, filling the map in a loop. */
  method ExistingEntriesById(stored: Option<PhpArray>) returns (entries: map<string, PhpArray>)
    ensures entries == EntriesById(stored)
  {
    if stored.None? {
      return map[];
    }
    var plugins := Get(stored.value, "plugins");
    if !plugins.JArray? {
      return map[];
    }
    entries := IndexEntries(Values(plugins.entries), EntryKey);
  }

  /** The loop itself: later entries overwrite earlier ones with the same key. */
  method IndexEntries(vs: seq<Json>, keyOf: Json -> string) returns (entries: map<string, PhpArray>)
    ensures entries == EntriesOf(vs, keyOf)
  {
    entries := map[];
    var i := 0;
    while i < |vs|
      invariant 0 <= i <= |vs|
      invariant entries == EntriesOf(vs[..i], keyOf)
    {
      assert vs[..i + 1][..i] == vs[..i];
      if vs[i].JArray? {
        var id := keyOf(vs[i]);
        if id != "" {
          entries := entries[id := vs[i].entries];
        }
      }
      i := i + 1;
    }
    assert vs[..i] == vs;
  }

  // ---------------------------------------------------------------- entries

  /** `strtolower(trim((string) ($manifest['id'] ?? '')))`. */
  function ManifestId(manifest: PhpArray): string {
    LowerText(manifest, "id")
  }

  /** `trim((string) ($manifest['version'] ?? ''))`. */
  function ManifestVersion(manifest: PhpArray): string {
    Trim(Text(Get(manifest, "version")))
  }

  /** The tests a manifest must pass to be listed. */
  predicate Listed(manifest: PhpArray) {
    manifest != [] && ManifestId(manifest) != "" && StartsWith(ManifestId(manifest), IdPrefix) && ManifestVersion(manifest) != ""
  }

  /** The stored entry for an id: `$existingEntries[$id] ?? []`. */
  function ExistingFor(existing: map<string, PhpArray>, id: string): PhpArray {
    if id in existing then existing[id] else []
  }

  /** One iteration of `generate`'s loop: the entry a manifest yields, if it is listed. */
  function EntryFor(file: ManifestFile, existing: map<string, PhpArray>, scheme: string -> string): (r: Option<CatalogEntry>)
    ensures r.Some? <==> Listed(file.manifest)
  {
    var m := file.manifest;
    if !Listed(m) then None
    else
      var id := ManifestId(m);
      var prior := ExistingFor(existing, id);
      Some(CatalogEntry(
        id := id,
        name := Trim(Text(OrDefault(Get(m, "name"), JString(id)))),
        description := Trim(Text(Get(m, "description"))),
        package := ResolvePackageName(id, file.composer, prior),
        latestVersion := ManifestVersion(m),
        icon := IconFor(m, prior),
        docsUrl := NormalizeOptionalUrl(Get(prior, "docs_url"), scheme),
        repoUrl := NormalizeOptionalUrl(Get(prior, "repo_url"), scheme),
        tags := NormalizeTags(Get(prior, "tags"))))
  }

  /** What every listed entry satisfies. */
  ghost predicate WellFormedEntry(e: CatalogEntry) {
    && e.id != "" && IsTrimmed(e.id) && IsLower(e.id) && StartsWith(e.id, IdPrefix)
    && e.latestVersion != "" && IsTrimmed(e.latestVersion)
    && e.package != "" && IsTrimmed(e.package) && IsTrimmed(e.name) && IsTrimmed(e.description)
    && (e.icon.Some? ==> e.icon.value != [] && |e.icon.value| <= IconLength)
    && Distinct(e.tags) && (forall t :: t in e.tags ==> t != "" && IsTrimmed(t))
  }

  /**
   * A listed manifest yields an entry whose id is the lower-cased trimmed
   * manifest id, whose version is the trimmed manifest version, whose name
   * falls back to the id, and which is well formed.
   */
  lemma EntryForSpec(file: ManifestFile, existing: map<string, PhpArray>, scheme: string -> string)
    requires Listed(file.manifest)
    ensures var e := EntryFor(file, existing, scheme).value;
      && WellFormedEntry(e)
      && e.id == ManifestId(file.manifest)
      && e.latestVersion == ManifestVersion(file.manifest)
      && (Get(file.manifest, "name") == JNull ==> e.name == e.id)
  {
    var m := file.manifest;
    var e := EntryFor(file, existing, scheme).value;
    var prior := ExistingFor(existing, e.id);
    assert e.icon == IconFor(m, prior) && e.tags == NormalizeTags(Get(prior, "tags"));
    EntryTextsTrimmed(m, e.id);
    IconForBounds(m, prior);
    NormalizeTagsWellFormed(Get(prior, "tags"));
  }

  /** The bound part of `IconForSpec`. */
  lemma IconForBounds(manifest: PhpArray, existing: PhpArray)
    ensures var r := IconFor(manifest, existing);
      r.Some? ==> r.value != [] && |r.value| <= IconLength
  {
    IconForSpec(manifest, existing);
  }

  /** The shape part of `NormalizeTagsSpec`: distinct, non-empty, trimmed tags. */
  lemma NormalizeTagsWellFormed(v: Json)
    ensures Distinct(NormalizeTags(v))
    ensures forall t :: t in NormalizeTags(v) ==> t != "" && IsTrimmed(t)
  {
    NormalizeTagsSpec(v);
  }

  /** The name, description and version texts are trimmed, and a missing name is the id. */
  lemma EntryTextsTrimmed(m: PhpArray, id: string)
    requires IsTrimmed(id)
    ensures IsTrimmed(ManifestVersion(m))
    ensures IsTrimmed(Trim(Text(OrDefault(Get(m, "name"), JString(id)))))
    ensures IsTrimmed(Trim(Text(Get(m, "description"))))
    ensures Get(m, "name") == JNull ==> Trim(Text(OrDefault(Get(m, "name"), JString(id)))) == id
  {
    TrimIsTrimmed(Text(Get(m, "version")));
    TrimIsTrimmed(Text(OrDefault(Get(m, "name"), JString(id))));
    TrimIsTrimmed(Text(Get(m, "description")));
    TrimOfTrimmed(id);
  }

  /** `EntryFor` with the stored entries and the scheme parser fixed: the body of `generate`'s loop. */
  function Step(existing: map<string, PhpArray>, scheme: string -> string): ManifestFile -> Option<CatalogEntry> {
    file => EntryFor(file, existing, scheme)
  }

  /** The entries the loop appends, in manifest order. */
  function BuildEntries(files: seq<ManifestFile>, entryOf: ManifestFile -> Option<CatalogEntry>): (es: seq<CatalogEntry>)
    ensures |es| <= |files|
  {
    if files == [] then []
    else
      var init := BuildEntries(files[..|files| - 1], entryOf);
      match entryOf(files[|files| - 1])
      case None => init
      case Some(e) => init + [e]
  }

  /** An entry is built exactly when some manifest yields it. */
  lemma {:induction false} BuildEntriesMembers(files: seq<ManifestFile>, entryOf: ManifestFile -> Option<CatalogEntry>, e: CatalogEntry)
    ensures e in BuildEntries(files, entryOf) <==> exists i :: 0 <= i < |files| && entryOf(files[i]) == Some(e)
  {
    if files != [] {
      var init := files[..|files| - 1];
      BuildEntriesMembers(init, entryOf, e);
      if exists i :: 0 <= i < |files| && entryOf(files[i]) == Some(e) {
        var i :| 0 <= i < |files| && entryOf(files[i]) == Some(e);
        if i < |init| { assert init[i] == files[i]; }
      }
      if exists i :: 0 <= i < |init| && entryOf(init[i]) == Some(e) {
        var i :| 0 <= i < |init| && entryOf(init[i]) == Some(e);
        assert files[i] == init[i];
      }
    }
  }

  /** The `usort` comparator: `strcmp` of the ids. */
  predicate IdLeq(a: CatalogEntry, b: CatalogEntry) {
    LexLeq(a.id, b.id)
  }

  lemma IdLeqTotalPreorder()
    ensures TotalPreorder(IdLeq)
  {
    forall a: CatalogEntry, b: CatalogEntry ensures IdLeq(a, b) || IdLeq(b, a) {
      LexLeqTotal(a.id, b.id);
    }
    forall a: CatalogEntry, b: CatalogEntry, c: CatalogEntry | IdLeq(a, b) && IdLeq(b, c) ensures IdLeq(a, c) {
      LexLeqTransitive(a.id, b.id, c.id);
    }
  }

  /** The payload `generate` returns, given the stored catalog and the time. */
  function Generation(files: seq<ManifestFile>, stored: Option<PhpArray>, scheme: string -> string, generatedAt: string): (p: Payload)
    ensures p.schemaVersion == 1 && p.generatedAt == generatedAt
    ensures |p.plugins| <= |files|
  {
    Payload(SchemaVersion, generatedAt, SortBy(BuildEntries(files, Step(EntriesById(stored), scheme)), IdLeq))
  }

  /**
   * `generate`: schema version 1, the given time, and the listed manifests'
   * entries — each well formed and each the entry of some listed manifest,
   * one per listed manifest — sorted by id under byte-wise comparison.
   */
  lemma GenerationSpec(files: seq<ManifestFile>, stored: Option<PhpArray>, scheme: string -> string, generatedAt: string)
    ensures var p := Generation(files, stored, scheme, generatedAt);
      && p.schemaVersion == 1 && p.generatedAt == generatedAt
      && multiset(p.plugins) == multiset(BuildEntries(files, Step(EntriesById(stored), scheme)))
      && (forall i, j :: 0 <= i < j < |p.plugins| ==> LexLeq(p.plugins[i].id, p.plugins[j].id))
      && (forall e :: e in p.plugins ==> WellFormedEntry(e))
      && (forall e :: e in p.plugins <==> exists i :: 0 <= i < |files| && EntryFor(files[i], EntriesById(stored), scheme) == Some(e))
  {
    var existing := EntriesById(stored);
    var step := Step(existing, scheme);
    var built := BuildEntries(files, step);
    var p := Generation(files, stored, scheme, generatedAt);
    IdLeqTotalPreorder();
    SortBySorted(built, IdLeq);
    forall i, j | 0 <= i < j < |p.plugins| ensures LexLeq(p.plugins[i].id, p.plugins[j].id) {
      assert IdLeq(p.plugins[i], p.plugins[j]);
    }
    forall e ensures e in p.plugins <==> exists i :: 0 <= i < |files| && EntryFor(files[i], existing, scheme) == Some(e) {
      SortByMembers(built, IdLeq, e);
      BuildEntriesMembers(files, step, e);
      assert forall i :: 0 <= i < |files| ==> step(files[i]) == EntryFor(files[i], existing, scheme);
    }
    forall e | e in p.plugins ensures WellFormedEntry(e) {
      var i :| 0 <= i < |files| && EntryFor(files[i], existing, scheme) == Some(e);
      EntryForSpec(files[i], existing, scheme);
    }
  }

  /** `generate`, appending entries in a loop and then sorting them. */
  method Generate(files: seq<ManifestFile>, stored: Option<PhpArray>, scheme: string -> string, generatedAt: string)
    returns (payload: Payload)
    ensures payload == Generation(files, stored, scheme, generatedAt)
  {
    var existing := ExistingEntriesById(stored);
    var step := Step(existing, scheme);
    var plugins: seq<CatalogEntry> := [];
    var i := 0;
    while i < |files|
      invariant 0 <= i <= |files|
      invariant plugins == BuildEntries(files[..i], step)
    {
      assert files[..i + 1][..i] == files[..i];
      var entry := step(files[i]);
      if entry.Some? {
        plugins := plugins + [entry.value];
      }
      i := i + 1;
    }
    assert files[..i] == files;
    plugins := SortBy(plugins, IdLeq);
    payload := Payload(SchemaVersion, generatedAt, plugins);
  }

  // ---------------------------------------------------------------- payload as an array and drift check

  /** `$entry[$k] = $value` when there is a value, as `generate` sets its optional keys. */
  function Optional(k: string, v: Option<string>): PhpArray {
    if v.Some? then [(k, JString(v.value))] else []
  }

  /** The tags as a list of strings. */
  function TagList(tags: seq<string>): Json {
    ListOf(seq(|tags|, i requires 0 <= i < |tags| => JString(tags[i])))
  }

  /** The five keys every entry has, in the order they are set. */
  function Fixed(e: CatalogEntry): PhpArray {
    [("id", JString(e.id)), ("name", JString(e.name)), ("description", JString(e.description)),
     ("package", JString(e.package)), ("latest_version", JString(e.latestVersion))]
  }

  /** An entry as the array `generate` builds, keys in the order they are set. */
  function EntryArray(e: CatalogEntry): PhpArray {
    Fixed(e) + Optional("icon", e.icon) + Optional("docs_url", e.docsUrl) + Optional("repo_url", e.repoUrl)
    + (if e.tags != [] then [("tags", TagList(e.tags))] else [])
  }

  /** The payload as an array. */
  function PayloadArray(p: Payload): PhpArray {
    [("schema_version", JInt(p.schemaVersion)), ("generated_at", JString(p.generatedAt)),
     ("plugins", ListOf(seq(|p.plugins|, i requires 0 <= i < |p.plugins| => JArray(EntryArray(p.plugins[i])))))]
  }

  /** `normalizedPayload($payload)`. */
  function NormalizedPayload(a: PhpArray): (r: PhpArray)
    ensures forall i :: 0 <= i < |r| ==> r[i].0 != "generated_at"
    ensures forall k :: k != "generated_at" ==> Get(r, k) == Get(a, k)
  {
    forall k | k != "generated_at" ensures Get(Without(a, "generated_at"), k) == Get(a, k) {
      WithoutKeepsOthers(a, "generated_at", k);
    }
    Without(a, "generated_at")
  }

  /** `isCurrent($path)`: a stored catalog exists and matches a fresh generation, ignoring `generated_at`. */
  predicate IsCurrent(files: seq<ManifestFile>, stored: Option<PhpArray>, scheme: string -> string, now: string)
    ensures IsCurrent(files, stored, scheme, now) ==> stored.Some?
  {
    stored.Some? && NormalizedPayload(stored.value) == NormalizedPayload(PayloadArray(Generation(files, stored, scheme, now)))
  }

  /** The drift check does not depend on the clock, and a missing catalog is never current. */
  lemma IsCurrentIgnoresTime(files: seq<ManifestFile>, stored: Option<PhpArray>, scheme: string -> string, t1: string, t2: string)
    ensures IsCurrent(files, stored, scheme, t1) == IsCurrent(files, stored, scheme, t2)
    ensures stored.None? ==> !IsCurrent(files, stored, scheme, t1)
  {
    var p1 := Generation(files, stored, scheme, t1);
    var p2 := Generation(files, stored, scheme, t2);
    assert PayloadArray(p1)[0] == PayloadArray(p2)[0] && PayloadArray(p1)[2] == PayloadArray(p2)[2];
    assert NormalizedPayload(PayloadArray(p1)) == NormalizedPayload(PayloadArray(p2)) by {
      GeneratedAtOnlyDiffers(PayloadArray(p1), PayloadArray(p2));
    }
  }

  /** Two three-key payloads that differ only at `generated_at` normalise alike. */
  lemma GeneratedAtOnlyDiffers(a: PhpArray, b: PhpArray)
    requires |a| == 3 && |b| == 3 && a[0] == b[0] && a[2] == b[2]
    requires a[1].0 == "generated_at" && b[1].0 == "generated_at"
    ensures NormalizedPayload(a) == NormalizedPayload(b)
  {
    var k := "generated_at";
    assert a[1..][1..] == b[1..][1..];
    assert Without(a[1..], k) == Without(a[1..][1..], k);
    assert Without(b[1..], k) == Without(b[1..][1..], k);
    assert Without(a[1..], k) == Without(b[1..], k);
  }
}
