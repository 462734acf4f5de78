/**
 * The drift check against a catalog that `generate` has just written: the
 * entries it carries over from the stored catalog come back unchanged, so a
 * fresh generation matches it apart from `generated_at`. The stored catalog
 * is taken here as the array `generate` returned; the JSON encoding and
 * decoding between them are not part of this model.
 */
module CatalogDrift {
  import opened Options
  import opened PhpString
  import opened Sorting
  import opened PhpJson
  import opened Catalog

  function KeysOf(a: PhpArray): (ks: seq<string>)
    ensures |ks| == |a| && forall i :: 0 <= i < |a| ==> ks[i] == a[i].0
  {
    seq(|a|, i requires 0 <= i < |a| => a[i].0)
  }

  /** `Get` on a concatenation looks in the first part when the key is there, and in the second otherwise. */
  lemma {:induction false} GetConcat(a: PhpArray, b: PhpArray, k: string)
    ensures Get(a + b, k) == if k in KeysOf(a) then Get(a, k) else Get(b, k)
    ensures KeysOf(a + b) == KeysOf(a) + KeysOf(b)
  {
    KeysOfConcat(a, b);
    if a == [] {
      assert a + b == b;
    } else {
      assert (a + b)[1..] == a[1..] + b;
      GetConcat(a[1..], b, k);
      KeysOfConcat([a[0]], a[1..]);
      assert a == [a[0]] + a[1..];
    }
  }

  lemma KeysOfConcat(a: PhpArray, b: PhpArray)
    ensures KeysOf(a + b) == KeysOf(a) + KeysOf(b)
  {
  }

  /** The value under the first occurrence of a key. */
  lemma {:induction false} GetFirstAt(a: PhpArray, n: nat, k: string)
    requires n < |a| && a[n].0 == k && forall j :: 0 <= j < n ==> a[j].0 != k
    ensures Get(a, k) == a[n].1
  {
    if n > 0 {
      GetFirstAt(a[1..], n - 1, k);
    }
  }

  lemma GetMissing(a: PhpArray, k: string)
    requires k !in KeysOf(a)
    ensures Get(a, k) == JNull
  {
  }

  /** The keys of an entry array, in order. */
  lemma EntryKeys(e: CatalogEntry)
    ensures KeysOf(Fixed(e)) == ["id", "name", "description", "package", "latest_version"]
    ensures KeysOf(Optional("icon", e.icon)) == if e.icon.Some? then ["icon"] else []
    ensures KeysOf(Optional("docs_url", e.docsUrl)) == if e.docsUrl.Some? then ["docs_url"] else []
    ensures KeysOf(Optional("repo_url", e.repoUrl)) == if e.repoUrl.Some? then ["repo_url"] else []
  {
  }

  lemma KeyNamesDiffer()
    ensures "icon" !in ["id", "name", "description", "package", "latest_version"]
    ensures "docs_url" !in ["id", "name", "description", "package", "latest_version", "icon"]
    ensures "repo_url" !in ["id", "name", "description", "package", "latest_version", "icon", "docs_url"]
    ensures "tags" !in ["id", "name", "description", "package", "latest_version", "icon", "docs_url", "repo_url"]
    ensures "package" !in ["id", "name", "description"]
    ensures "icon" != "docs_url" && "icon" != "repo_url" && "icon" != "tags"
    ensures "docs_url" != "repo_url" && "docs_url" != "tags" && "repo_url" != "tags"
  {
  }

  lemma OptionalGet(k: string, v: Option<string>)
    ensures Get(Optional(k, v), k) == if v.Some? then JString(v.value) else JNull
    ensures KeysOf(Optional(k, v)) == if v.Some? then [k] else []
  {
  }

  function TagsPart(e: CatalogEntry): PhpArray {
    if e.tags != [] then [("tags", TagList(e.tags))] else []
  }

  /** `Get` on five concatenated parts finds the first part that has the key. */
  lemma GetFive(f: PhpArray, i: PhpArray, d: PhpArray, r: PhpArray, t: PhpArray, k: string)
    ensures Get(f + i + d + r + t, k) ==
      if k in KeysOf(f) then Get(f, k)
      else if k in KeysOf(i) then Get(i, k)
      else if k in KeysOf(d) then Get(d, k)
      else if k in KeysOf(r) then Get(r, k)
      else Get(t, k)
  {
    GetConcat(f, i, k);
    GetConcat(f + i, d, k);
    GetConcat(f + i + d, r, k);
    GetConcat(f + i + d + r, t, k);
  }

  /** What the stored copy of an entry gives back for the keys `generate` reads from it. */
  lemma EntryArrayGets(e: CatalogEntry)
    ensures Get(EntryArray(e), "id") == JString(e.id)
    ensures Get(EntryArray(e), "package") == JString(e.package)
    ensures Get(EntryArray(e), "icon") == if e.icon.Some? then JString(e.icon.value) else JNull
    ensures Get(EntryArray(e), "docs_url") == if e.docsUrl.Some? then JString(e.docsUrl.value) else JNull
    ensures Get(EntryArray(e), "repo_url") == if e.repoUrl.Some? then JString(e.repoUrl.value) else JNull
    ensures Get(EntryArray(e), "tags") == if e.tags != [] then TagList(e.tags) else JNull
  {
    GetId(e);
    GetPackage(e);
    GetIcon(e);
    GetDocsUrl(e);
    GetRepoUrl(e);
    GetTags(e);
  }

  lemma GetId(e: CatalogEntry)
    ensures Get(EntryArray(e), "id") == JString(e.id)
  {
    var f, i, d, r, t := Fixed(e), Optional("icon", e.icon), Optional("docs_url", e.docsUrl), Optional("repo_url", e.repoUrl), TagsPart(e);
    assert EntryArray(e) == f + i + d + r + t;
    EntryKeys(e);
    KeyNamesDiffer();
    GetFive(f, i, d, r, t, "id");
  }

  lemma GetPackage(e: CatalogEntry)
    ensures Get(EntryArray(e), "package") == JString(e.package)
  {
    var f, i, d, r, t := Fixed(e), Optional("icon", e.icon), Optional("docs_url", e.docsUrl), Optional("repo_url", e.repoUrl), TagsPart(e);
    assert EntryArray(e) == f + i + d + r + t;
    EntryKeys(e);
    KeyNamesDiffer();
    GetFive(f, i, d, r, t, "package");
    GetFirstAt(f, 3, "package");
  }

  lemma GetIcon(e: CatalogEntry)
    ensures Get(EntryArray(e), "icon") == if e.icon.Some? then JString(e.icon.value) else JNull
  {
    var f, i, d, r, t := Fixed(e), Optional("icon", e.icon), Optional("docs_url", e.docsUrl), Optional("repo_url", e.repoUrl), TagsPart(e);
    assert EntryArray(e) == f + i + d + r + t;
    EntryKeys(e);
    KeyNamesDiffer();
    GetFive(f, i, d, r, t, "icon");
    OptionalGet("icon", e.icon);
    if e.icon.None? { GetMissing(d, "icon"); GetMissing(r, "icon"); GetMissing(t, "icon"); }
  }

  lemma GetDocsUrl(e: CatalogEntry)
    ensures Get(EntryArray(e), "docs_url") == if e.docsUrl.Some? then JString(e.docsUrl.value) else JNull
  {
    var f, i, d, r, t := Fixed(e), Optional("icon", e.icon), Optional("docs_url", e.docsUrl), Optional("repo_url", e.repoUrl), TagsPart(e);
    assert EntryArray(e) == f + i + d + r + t;
    EntryKeys(e);
    KeyNamesDiffer();
    GetFive(f, i, d, r, t, "docs_url");
    OptionalGet("docs_url", e.docsUrl);
    if e.docsUrl.None? { GetMissing(r, "docs_url"); GetMissing(t, "docs_url"); }
  }

  lemma GetRepoUrl(e: CatalogEntry)
    ensures Get(EntryArray(e), "repo_url") == if e.repoUrl.Some? then JString(e.repoUrl.value) else JNull
  {
    var f, i, d, r, t := Fixed(e), Optional("icon", e.icon), Optional("docs_url", e.docsUrl), Optional("repo_url", e.repoUrl), TagsPart(e);
    assert EntryArray(e) == f + i + d + r + t;
    EntryKeys(e);
    KeyNamesDiffer();
    GetFive(f, i, d, r, t, "repo_url");
    OptionalGet("repo_url", e.repoUrl);
    if e.repoUrl.None? { GetMissing(t, "repo_url"); }
  }

  lemma GetTags(e: CatalogEntry)
    ensures Get(EntryArray(e), "tags") == if e.tags != [] then TagList(e.tags) else JNull
  {
    var f, i, d, r, t := Fixed(e), Optional("icon", e.icon), Optional("docs_url", e.docsUrl), Optional("repo_url", e.repoUrl), TagsPart(e);
    assert EntryArray(e) == f + i + d + r + t;
    EntryKeys(e);
    KeyNamesDiffer();
    GetFive(f, i, d, r, t, "tags");
    if e.tags == [] { GetMissing(t, "tags"); }
  }

  /** The key the stored copy of an entry is indexed under is the entry's id. */
  lemma EntryKeyOfEntry(e: CatalogEntry)
    requires IsLower(e.id) && IsTrimmed(e.id)
    ensures EntryKey(JArray(EntryArray(e))) == e.id
  {
    GetId(e);
    TrimOfTrimmed(e.id);
    LowerOfLower(e.id);
  }

  /** The array value of each plugin in the stored payload. */
  function StoredEntries(p: Payload): seq<Json> {
    seq(|p.plugins|, i requires 0 <= i < |p.plugins| => JArray(EntryArray(p.plugins[i])))
  }

  lemma PluginsOfPayload(p: Payload)
    ensures Get(PayloadArray(p), "plugins") == ListOf(StoredEntries(p))
  {
    assert "schema_version" != "plugins" && "generated_at" != "plugins";
    GetFirstAt(PayloadArray(p), 2, "plugins");
  }

  /**
   * Reading back a stored payload indexes every entry under its id, and each
   * index holds the stored copy of an entry with that id.
   */
  lemma StoredIndex(p: Payload)
    requires forall e :: e in p.plugins ==> IsLower(e.id) && IsTrimmed(e.id) && e.id != ""
    ensures forall e :: e in p.plugins ==> e.id in EntriesById(Some(PayloadArray(p)))
    ensures forall k :: k in EntriesById(Some(PayloadArray(p))) ==>
      exists e :: e in p.plugins && e.id == k && EntriesById(Some(PayloadArray(p)))[k] == EntryArray(e)
  {
    var vs := StoredEntries(p);
    PluginsOfPayload(p);
    assert Values(ListOf(vs).entries) == vs;
    var m := EntriesById(Some(PayloadArray(p)));
    assert m == EntriesOf(vs, EntryKey);
    forall e | e in p.plugins ensures e.id in m {
      var i :| 0 <= i < |p.plugins| && p.plugins[i] == e;
      EntryKeyOfEntry(e);
      assert KeyedAs(vs[i], EntryKey, e.id);
      EntriesOfKeys(vs, EntryKey, e.id);
    }
    forall k | k in m ensures exists e :: e in p.plugins && e.id == k && m[k] == EntryArray(e) {
      EntriesOfLastWins(vs, EntryKey, k);
      var i :| 0 <= i < |vs| && KeyedAs(vs[i], EntryKey, k) && m[k] == vs[i].entries;
      var e := p.plugins[i];
      EntryKeyOfEntry(e);
      assert e in p.plugins && e.id == k && m[k] == EntryArray(e);
    }
  }

  /** A package name `generate` chose is chosen again from the stored copy of its entry. */
  lemma PackageStable(id: string, composer: PhpArray, prior: PhpArray, e: CatalogEntry)
    requires IsLower(id) && IsTrimmed(id) && id != ""
    requires e.package == ResolvePackageName(id, composer, prior)
    ensures ResolvePackageName(id, composer, EntryArray(e)) == e.package
  {
    GetPackage(e);
    var pkg := e.package;
    assert IsLower(pkg) && IsTrimmed(pkg) && pkg != "";
    TrimOfTrimmed(pkg);
    LowerOfLower(pkg);
    assert LowerText(EntryArray(e), "package") == pkg;
  }

  /** An icon `generate` chose, unless the cut to 32 characters left whitespace at its end, is chosen again. */
  lemma IconStable(manifest: PhpArray, prior: PhpArray, e: CatalogEntry)
    requires e.icon == IconFor(manifest, prior)
    requires e.icon.Some? ==> IsTrimmed(e.icon.value)
    ensures IconFor(manifest, EntryArray(e)) == e.icon
  {
    GetIcon(e);
    IconForSpec(manifest, prior);
    if e.icon.Some? {
      TrimOfTrimmed(e.icon.value);
    }
  }

  /** Links `generate` kept are kept again. */
  lemma UrlStable(v: Json, scheme: string -> string, u: Option<string>)
    requires u == NormalizeOptionalUrl(v, scheme)
    ensures NormalizeOptionalUrl(if u.Some? then JString(u.value) else JNull, scheme) == u
  {
    if u.Some? {
      NormalizeOptionalUrlStable(v, scheme);
    }
  }

  /** Normalised tags normalise to themselves. */
  lemma TagsStable(tags: seq<string>)
    requires Distinct(tags) && forall t :: t in tags ==> t != "" && IsTrimmed(t)
    ensures NormalizeTags(TagList(tags)) == tags
  {
    var vs := Values(TagList(tags).entries);
    var ts := TrimAll(vs);
    forall i | 0 <= i < |tags| ensures ts[i] == tags[i] {
      assert vs[i] == JString(tags[i]);
      TrimOfTrimmed(tags[i]);
    }
    assert ts == tags;
    NonEmptyOfNonEmpty(tags);
    UniqueOfDistinct(tags);
  }

  lemma {:induction false} NonEmptyOfNonEmpty(ts: seq<string>)
    requires forall t :: t in ts ==> t != ""
    ensures NonEmpty(ts) == ts
  {
    if ts != [] {
      assert ts[0] in ts;
      assert forall t :: t in ts[1..] ==> t in ts;
      NonEmptyOfNonEmpty(ts[1..]);
      assert ts == [ts[0]] + ts[1..];
    }
  }

  /**
   * A listed manifest whose stored entry is the one `generate` built for it
   * yields that same entry again.
   */
  lemma EntryRegenerates(file: ManifestFile, before: map<string, PhpArray>, after: map<string, PhpArray>, scheme: string -> string)
    requires Listed(file.manifest)
    requires var e := EntryFor(file, before, scheme).value;
      (e.icon.Some? ==> IsTrimmed(e.icon.value)) && ExistingFor(after, e.id) == EntryArray(e)
    ensures EntryFor(file, after, scheme) == EntryFor(file, before, scheme)
  {
    var m := file.manifest;
    var e := EntryFor(file, before, scheme).value;
    var prior := ExistingFor(before, e.id);
    assert e.id == LowerText(m, "id");
    FieldsRegenerate(m, file.composer, prior, e, scheme);
    var e1 := EntryFor(file, after, scheme).value;
    assert e1.package == e.package && e1.icon == e.icon;
    assert e1.docsUrl == e.docsUrl && e1.repoUrl == e.repoUrl && e1.tags == e.tags;
  }

  /** Each field taken from the stored entry comes out the same when the stored entry is the written one. */
  lemma FieldsRegenerate(m: PhpArray, composer: PhpArray, prior: PhpArray, e: CatalogEntry, scheme: string -> string)
    requires IsLower(e.id) && IsTrimmed(e.id) && e.id != ""
    requires e.package == ResolvePackageName(e.id, composer, prior)
    requires e.icon == IconFor(m, prior) && (e.icon.Some? ==> IsTrimmed(e.icon.value))
    requires e.docsUrl == NormalizeOptionalUrl(Get(prior, "docs_url"), scheme)
    requires e.repoUrl == NormalizeOptionalUrl(Get(prior, "repo_url"), scheme)
    requires e.tags == NormalizeTags(Get(prior, "tags"))
    ensures var a := EntryArray(e);
      && ResolvePackageName(e.id, composer, a) == e.package
      && IconFor(m, a) == e.icon
      && NormalizeOptionalUrl(Get(a, "docs_url"), scheme) == e.docsUrl
      && NormalizeOptionalUrl(Get(a, "repo_url"), scheme) == e.repoUrl
      && NormalizeTags(Get(a, "tags")) == e.tags
  {
    PackageStable(e.id, composer, prior, e);
    IconStable(m, prior, e);
    GetDocsUrl(e);
    GetRepoUrl(e);
    UrlStable(Get(prior, "docs_url"), scheme, e.docsUrl);
    UrlStable(Get(prior, "repo_url"), scheme, e.repoUrl);
    TagsRegenerate(prior, e);
  }

  lemma TagsRegenerate(prior: PhpArray, e: CatalogEntry)
    requires e.tags == NormalizeTags(Get(prior, "tags"))
    ensures NormalizeTags(Get(EntryArray(e), "tags")) == e.tags
  {
    NormalizeTagsSpec(Get(prior, "tags"));
    GetTags(e);
    if e.tags != [] {
      TagsStable(e.tags);
    }
  }

  /** Steps that agree on every manifest build the same entries. */
  lemma {:induction false} BuildEntriesAgree(files: seq<ManifestFile>, f1: ManifestFile -> Option<CatalogEntry>, f2: ManifestFile -> Option<CatalogEntry>)
    requires forall i :: 0 <= i < |files| ==> f1(files[i]) == f2(files[i])
    ensures BuildEntries(files, f1) == BuildEntries(files, f2)
  {
    if files != [] {
      var init := files[..|files| - 1];
      assert forall i :: 0 <= i < |init| ==> init[i] == files[i];
      BuildEntriesAgree(init, f1, f2);
    }
  }

  /** No two listed manifests share an id. */
  ghost predicate DistinctIds(files: seq<ManifestFile>) {
    forall i, j :: 0 <= i < j < |files| && Listed(files[i].manifest) && Listed(files[j].manifest) ==>
      ManifestId(files[i].manifest) != ManifestId(files[j].manifest)
  }

  /**
   * After the write, each manifest yields the entry it yielded before: its
   * stored copy is the only entry under its id.
   */
  lemma StepAgreesAfterWrite(files: seq<ManifestFile>, before: map<string, PhpArray>, after: map<string, PhpArray>,
                             scheme: string -> string, plugins: seq<CatalogEntry>, i: nat)
    requires DistinctIds(files) && i < |files|
    requires forall e :: e in plugins <==> exists j :: 0 <= j < |files| && Step(before, scheme)(files[j]) == Some(e)
    requires forall e :: e in plugins ==> (e.icon.Some? ==> IsTrimmed(e.icon.value))
    requires forall k :: k in after ==> exists e :: e in plugins && e.id == k && after[k] == EntryArray(e)
    requires forall e :: e in plugins ==> e.id in after
    ensures Step(after, scheme)(files[i]) == Step(before, scheme)(files[i])
  {
    if Listed(files[i].manifest) {
      var e := EntryFor(files[i], before, scheme).value;
      assert Step(before, scheme)(files[i]) == Some(e);
      assert e in plugins;
      assert e.id == ManifestId(files[i].manifest);
      var e2 :| e2 in plugins && e2.id == e.id && after[e.id] == EntryArray(e2);
      var j :| 0 <= j < |files| && Step(before, scheme)(files[j]) == Some(e2);
      assert EntryFor(files[j], before, scheme) == Some(e2);
      assert Listed(files[j].manifest) && e2.id == ManifestId(files[j].manifest);
      assert i == j;
      EntryRegenerates(files[i], before, after, scheme);
    }
  }

  /**
   * Generating, storing the payload, and checking it right away reports the
   * catalog as current, at any later time: provided no two listed manifests
   * share an id and no icon was cut to 32 characters just before whitespace.
   */
  lemma RegeneratedCatalogIsCurrent(files: seq<ManifestFile>, stored: Option<PhpArray>, scheme: string -> string, t1: string, t2: string)
    requires DistinctIds(files)
    requires forall e :: e in Generation(files, stored, scheme, t1).plugins ==> (e.icon.Some? ==> IsTrimmed(e.icon.value))
    ensures IsCurrent(files, Some(PayloadArray(Generation(files, stored, scheme, t1))), scheme, t2)
  {
    var p := Generation(files, stored, scheme, t1);
    var written := Some(PayloadArray(p));
    WrittenStepsAgree(files, stored, scheme, t1);
    var p2 := Generation(files, written, scheme, t2);
    assert p2.plugins == p.plugins;
    GeneratedAtOnlyDiffers(PayloadArray(p), PayloadArray(p2));
  }

  /** Reading the written catalog back, the manifests build the same entries as before. */
  lemma WrittenStepsAgree(files: seq<ManifestFile>, stored: Option<PhpArray>, scheme: string -> string, t1: string)
    requires DistinctIds(files)
    requires forall e :: e in Generation(files, stored, scheme, t1).plugins ==> (e.icon.Some? ==> IsTrimmed(e.icon.value))
    ensures var p := Generation(files, stored, scheme, t1);
      BuildEntries(files, Step(EntriesById(Some(PayloadArray(p))), scheme)) == BuildEntries(files, Step(EntriesById(stored), scheme))
  {
    var p := Generation(files, stored, scheme, t1);
    var before := EntriesById(stored);
    var after := EntriesById(Some(PayloadArray(p)));
    PluginsOfGeneration(files, stored, scheme, t1);
    StoredIndex(p);
    forall i | 0 <= i < |files| ensures Step(after, scheme)(files[i]) == Step(before, scheme)(files[i]) {
      StepAgreesAfterWrite(files, before, after, scheme, p.plugins, i);
    }
    BuildEntriesAgree(files, Step(after, scheme), Step(before, scheme));
  }

  /** The part of `GenerationSpec` the drift proof needs: the ids, and where each entry comes from. */
  lemma PluginsOfGeneration(files: seq<ManifestFile>, stored: Option<PhpArray>, scheme: string -> string, t1: string)
    ensures var p := Generation(files, stored, scheme, t1);
      && (forall e :: e in p.plugins ==> IsLower(e.id) && IsTrimmed(e.id) && e.id != "")
      && (forall e :: e in p.plugins <==> exists j :: 0 <= j < |files| && Step(EntriesById(stored), scheme)(files[j]) == Some(e))
  {
    GenerationSpec(files, stored, scheme, t1);
    var p := Generation(files, stored, scheme, t1);
    assert forall e :: e in p.plugins <==> exists j :: 0 <= j < |files| && Step(EntriesById(stored), scheme)(files[j]) == Some(e);
  }
}
