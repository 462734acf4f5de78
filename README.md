# TentaPress package system: a Dafny model

TentaPress is a plugin-oriented content-management host written in PHP. This
project models five parts of its `system` package and proves properties about
them:

- **Plugin activation** (`PluginManager`). The host reads a cache of enabled
  plugins and hands each plugin's provider class to the service container at
  most once. When a class cannot be resolved yet, the host first installs a
  path autoloader scoped to the class's namespace. When a class still cannot
  be resolved, the host logs a warning and goes on to the next plugin.
- **Paths** (`Paths`). Builds the plugin and theme directories, the
  cache-file names (separated per parallel-test token) and the manifest
  search roots.
- **Editor drivers** (`EditorDriverDefinition`, `EditorDriverRegistry`). A
  registry of the editing surfaces for pages and posts. It filters them by
  availability, sorts them, looks them up, resolves a requested driver with a
  fallback, and registers the legacy "page" driver lazily.
- **First-party plugin catalog** (`FirstPartyPluginCatalogGenerator`). Builds
  the catalog payload from plugin manifests and from the catalog stored
  earlier. Its drift check compares the two with the timestamp removed.

Everything the core cannot see is a parameter of the model:

- `base_path()`, `is_dir`, `is_file`;
- whether composer (or anything other than this manager) resolves a class;
- whether requiring a file defines a class;
- `view()->exists`, `app()->bound` and `resolve()` of the container;
- the scheme `parse_url` finds;
- the clock;
- the decoded contents of the cache, the manifests, the `composer.json`
  files and the stored catalog.

Modules:

- `Options`: the `Option` type.
- `PhpString`: PHP's `trim`, `strtolower`, `strrpos`, `str_starts_with`, one-character `str_replace`, `strcmp` and `strcasecmp` order.
- `Sorting`: `usort`, stable since PHP 8, as a stable insertion sort.
- `PhpJson`: decoded JSON as ordered PHP arrays, plus `??` and the `(string)` cast.
- `Paths`.
- `Plugin`.
- `EditorDriver`.
- `EditorRegistry`.
- `Catalog`.
- `CatalogDrift`: the proof that a freshly written catalog passes the drift check.

Each stateful PHP class has two parts in the model:

- A pure datatype with step functions. `Ledger` and `RegisterOnce` are the
  ones for the plugin manager; `Table` and `Registered` the ones for the
  editor registry.
- A Dafny `class` whose methods follow the PHP statement by statement. Each
  method ensures that its new state is the step function applied to the old
  state.

The properties are proved about the step functions.

A warning follows `registerProviderOnce` (src/Plugin/PluginManager.php:57-64):

- a record is warned about only when its class is still unresolvable after the
  loader attempt, so a record with an empty path or a class without a
  namespace is warned about only when nothing else resolves its class;
- each record is handled on its own, so two cache records with the same
  unresolvable class are warned about once each, and a record that fails does
  not stop the records after it.

The lemma `Plugin.AcmeScenario` works through one path plugin, `acme/widgets`.
The lemma `Plugin.FixtureScenario` is the repository's path-plugin fixture.

## Model

| member | source | states |
|---|---|---|
| Plugin.NamespacePrefix | src/Plugin/PluginManager.php:107-116 | null exactly when the class name has no `\`; otherwise a prefix of the name that ends in `\`, with no `\` after it |
| Plugin.LoaderTarget | src/Plugin/PluginManager.php:88-101 | the installed closure names a file exactly when the class starts with the prefix and has something after it |
| Plugin.LoaderTargetOf | src/Plugin/PluginManager.php:93-98 | a class below the prefix maps to `<source>/<rest with \ as />.php` |
| Plugin.OwnPrefixTarget | src/Plugin/PluginManager.php:72-102 | for the prefix taken from the class itself, the loader maps the class to `<source>/<ShortName>.php` |
| Plugin.Loads | src/Plugin/PluginManager.php:88-101 | defines when the installed closure loads a class: it names a file, `is_file` holds and requiring it defines the class; the class-existence rows use it |
| Plugin.ClassExists | src/Plugin/PluginManager.php:57-61 | a class the host resolves exists whatever loaders are installed; with no loader installed, exactly those classes exist |
| Plugin.ClassExistsMonotone | src/Plugin/PluginManager.php:57-61 | installing more loaders never makes a resolvable class unresolvable |
| Plugin.SourceRoot | src/Plugin/PluginManager.php:73-83 | defines `base_path($relativePluginPath.'/src')`, where the relative path is the plugin path trimmed of `/`; the loader rows use this source root |
| Plugin.InstallLoader | src/Plugin/PluginManager.php:70-105 | the call changes state exactly when there is a prefix, the trimmed path is non-empty, the prefix is new and `<path>/src` is a directory; it then adds exactly that prefix and its loader and touches nothing else |
| Plugin.RegisterOnce | src/Plugin/PluginManager.php:51-68 | a class registered before changes nothing; any other class is either resolvable afterwards and registered once, or unresolvable and logged once with its plugin id; an already resolvable class installs no loader; an unresolvable one gets exactly the loaders `registerPathAutoloader` installs |
| Plugin.PathText | src/Plugin/PluginManager.php:45 | defines `(string) ($info['path'] ?? '')`, the path each record hands to `registerProviderOnce` |
| Plugin.ProviderOf | src/Plugin/PluginManager.php:40-43 | a record yields a provider exactly when it is an array whose `provider` is a non-empty string, and the provider is that string |
| Plugin.EntryStep | src/Plugin/PluginManager.php:39-48 | a record without a usable provider is skipped without any change |
| Plugin.InstallLoaderKeeps | src/Plugin/PluginManager.php:70-105 | installing a loader keeps the ledger consistent and only lets it grow |
| Plugin.RegisterOnceKeeps | src/Plugin/PluginManager.php:51-68 | the ledger stays consistent and only grows; the only class added is this one, and it is resolvable; at most one warning is added, naming this plugin and class |
| Plugin.EntryStepKeeps | src/Plugin/PluginManager.php:39-48 | one cache record: a missing, non-string or empty provider changes nothing; otherwise the record's own provider and id are the only ones added or logged |
| Plugin.RegisterAllKeeps | src/Plugin/PluginManager.php:39-48 | a pass keeps each class registered at most once; every class it adds is named by the cache and resolvable; every warning names a plugin of the cache with its class; a pass adds no more warnings than the cache has records |
| Plugin.RegisterAll | src/Plugin/PluginManager.php:39-48 | the pass does not read the cache again and never drops a registered provider |
| Plugin.EntryStepWarnings | src/Plugin/PluginManager.php:39-48 | one record adds no warning, or exactly the one naming its plugin and provider class |
| Plugin.RegisterAllWarnsPerRecord | src/Plugin/PluginManager.php:39-64 | each warning of a pass is tied to its own record, which names that plugin and class; the records strictly increase, so no record is warned twice and the warnings follow the cache order |
| Plugin.FailingRecordIsIsolated | src/Plugin/PluginManager.php:39-67 | on a fresh manager, a record whose class is unknown and whose source directory is missing is warned about once, and a later record with a resolvable class is still registered |
| Plugin.FailingThenResolvable | src/Plugin/PluginManager.php:39-67 | the same two records from any ledger without loaders or providers: one warning appended, one class registered |
| Plugin.MissingSourceWarns | src/Plugin/PluginManager.php:57-64 | without loaders, an unknown class whose source directory is missing installs nothing and is only warned about |
| Plugin.ResolvableRegisters | src/Plugin/PluginManager.php:57-67 | a class the host resolves is registered and appended to the log, and nothing else changes |
| Plugin.Activate | src/Plugin/PluginManager.php:30-49 | a manager that has registered something is left unchanged; otherwise the cache is read once more |
| Plugin.ActivateKeeps | src/Plugin/PluginManager.php:30-49 | `registerEnabledPluginProviders` keeps the ledger consistent and only lets it grow |
| Plugin.SecondPassIsNoOp | src/Plugin/PluginManager.php:32-35 | once something is registered, a further call changes nothing at all, not even the number of cache reads |
| Plugin.EmptyPassDoesNotBlock | src/Plugin/PluginManager.php:32-37 | a pass that registered nothing does not block the next pass, which reads the cache again |
| Plugin.ResolvableClassNeedsNoLoader | src/Plugin/PluginManager.php:57-67 | a class composer already resolves gets no loader and is registered |
| Plugin.EmptyCache | src/Plugin/PluginManager.php:37-48 | an empty cache registers nothing and logs nothing |
| Plugin.SinglePathPlugin | src/Plugin/PluginManager.php:30-116 | one path plugin on a fresh manager: exactly one loader, for the class's namespace over `<base>/<path>/src`; a loadable file registers exactly that class; a missing file registers nothing and logs one warning naming the plugin and the class |
| Plugin.AcmeScenario | src/Plugin/PluginManager.php:30-116 | `acme/widgets` with `Acme\Widgets\Provider`: loader for `Acme\Widgets\`; registered when `Provider.php` defines it, otherwise one warning |
| Plugin.FixtureScenario | tests/Feature/PluginManagerPathAutoloadTest.php:13-40 | the path-plugin fixture that composer does not know is loaded from its `src` directory, registered exactly once, with no warning, and resolvable afterwards |
| Plugin.ClassExistsSingle | src/Plugin/PluginManager.php:88-102 | with one loader installed, a class exists exactly when composer resolves it or that loader loads it |
| Plugin.PluginManager.constructor | src/Plugin/PluginManager.php:11-19 | a new manager has empty ledgers, no loaders, no registrations and no warnings |
| Plugin.PluginManager.RegisterEnabledPluginProviders | src/Plugin/PluginManager.php:30-49 | the new state is `Activate` of the old state over the cache records in order |
| Plugin.PluginManager.RegisterProviderOnce | src/Plugin/PluginManager.php:51-68 | the new state is `RegisterOnce` of the old state |
| Plugin.PluginManager.RegisterPathAutoloader | src/Plugin/PluginManager.php:70-105 | the new state is `InstallLoader` of the old state |
| Paths.Append | src/Support/Paths.php:16 | an empty suffix gives the base; otherwise the base, one separator, and the suffix with its leading separators dropped |
| Paths.PluginsPath | src/Support/Paths.php:12-17 | `<base>/plugins`, or that path followed by one separator and the suffix with its leading separators dropped |
| Paths.ThemesPath | src/Support/Paths.php:19-24 | `<base>/themes`, or that path followed by one separator and the suffix with its leading separators dropped |
| Paths.Sanitize | src/Support/Paths.php:91 | same length; each character outside `A-Za-z0-9._-` becomes `-`, the others stay |
| Paths.ParallelTestToken | src/Support/Paths.php:82-92 | empty exactly when the trimmed token is; otherwise as long as the trimmed token and made only of allowed characters: each allowed character of the trimmed token stays in place and each disallowed character becomes `-` |
| Paths.ParallelTestTokenStable | src/Support/Paths.php:82-92 | sanitising a sanitised token changes nothing |
| Paths.CacheFileName | src/Support/Paths.php:77 | `key.php` without a token, `key.token.php` with one |
| Paths.CacheFileNameFlat | src/Support/Paths.php:77-79 | a key without a separator gives a file name without one, whatever the token |
| Paths.CachePath | src/Support/Paths.php:74-80 | a file below `<base>/bootstrap/cache/` whose name starts with the key and ends in `.php`; for a key without a separator the file sits directly in that directory |
| Paths.FlatCachePath | src/Support/Paths.php:74-80 | the cache of a key without a separator is a file directly in `bootstrap/cache/` whose name starts with the key |
| Paths.PluginCachePath | src/Support/Paths.php:26-29 | a file directly in `<base>/bootstrap/cache/` whose name starts with `tp_plugins` |
| Paths.ThemeCachePath | src/Support/Paths.php:31-34 | a file directly in `<base>/bootstrap/cache/` whose name starts with `tp_theme` |
| Paths.CacheFileNames | src/Support/Paths.php:26-34 | the plugin and theme caches live under `bootstrap/cache` as `tp_plugins[.token].php` and `tp_theme[.token].php`, and never share a name |
| Paths.TokenSeparatesCaches | src/Support/Paths.php:74-80 | a non-empty token gives a cache file different from the untokenised one |
| Paths.Candidates | src/Support/Paths.php:62-69 | the first root comes first; one namespace adds `<base>/vendor/<namespace>` after it exactly when the trimmed namespace is non-empty |
| Paths.CandidatesConcat | src/Support/Paths.php:64-69 | the candidates of a split namespace list are the first part's followed by the second part's vendor roots, so the vendor roots follow the namespaces' order |
| Paths.CandidatesFromNamespaces | src/Support/Paths.php:64-69 | every candidate after the first is the vendor root of some namespace that is non-empty after trimming |
| Paths.CandidatesCoverNamespaces | src/Support/Paths.php:64-69 | every vendor namespace that is non-empty after trimming yields the candidate `<base>/vendor/<namespace>` |
| Paths.KeepDirs | src/Support/Paths.php:71 | keeps exactly the candidates that are directories; a single root is kept exactly when it is a directory |
| Paths.KeepDirsConcat | src/Support/Paths.php:71 | filtering a concatenation filters each part and keeps the parts in order |
| Paths.KeepDirsFirst | src/Support/Paths.php:71 | a first root that is a directory stays first |
| Paths.ManifestSearchRoots | src/Support/Paths.php:60-72 | the loop's result is the directory filter of the candidates, so it keeps their order; every root is a directory, and an existing first root is first |
| Paths.PluginSearchRoots | src/Support/Paths.php:39-44 | an unset setting means `['tentapress']`, a non-array setting means no vendor namespaces, and the plugins directory is the first root |
| Paths.ThemeSearchRoots | src/Support/Paths.php:49-55 | `[<base>/themes]` when it is a directory, `[]` otherwise |
| EditorDriver.Definition | src/Editor/EditorDriverDefinition.php:9-18 | the constructor's defaults: no views, no blocks editor, sort order 100 |
| EditorDriver.ViewFor | src/Editor/EditorDriverDefinition.php:21-28 | the pages view for `pages`, the posts view for `posts`, nothing for any other resource |
| EditorDriver.AvailableFor | src/Editor/EditorDriverDefinition.php:30-39 | a blocks-editor driver is available for every resource; any other driver is never available for a resource other than `pages` or `posts` |
| EditorDriver.AvailableForMeaning | src/Editor/EditorDriverDefinition.php:30-39 | a blocks-editor driver is available everywhere; any other driver only for `pages` or `posts`, and only when its view there is non-empty and exists |
| EditorDriver.ToArray | src/Editor/EditorDriverDefinition.php:44-55 | every field is copied, and `view` is the view for the resource |
| EditorDriver.ToArrayOfAvailable | src/Editor/EditorDriverDefinition.php:30-55 | the array of a driver available through its view names a non-empty existing view |
| EditorRegistry.Registered | src/Editor/EditorDriverRegistry.php:14-23 | an id that is empty after trimming changes nothing; otherwise the definition is stored under the trimmed id, replacing one there in place or being appended at the end |
| EditorRegistry.RegisteredKeeps | src/Editor/EditorDriverRegistry.php:14-23 | registering keeps the order free of duplicates, in agreement with the stored keys, and every key non-empty and equal to its definition's trimmed id |
| EditorRegistry.RegisteredKeepsKeys | src/Editor/EditorDriverRegistry.php:22 | re-assigning a key keeps its place, and a new key is appended once |
| EditorRegistry.RegisteredKeepsIds | src/Editor/EditorDriverRegistry.php:16-22 | every key stays equal to its definition's trimmed id |
| EditorRegistry.Available | src/Editor/EditorDriverRegistry.php:32-35 | the filter keeps at most the stored definitions |
| EditorRegistry.AvailableMembers | src/Editor/EditorDriverRegistry.php:32-35 | the filter keeps exactly the stored definitions available for the resource |
| EditorRegistry.DriverLeq | src/Editor/EditorDriverRegistry.php:37-43 | defines the `usort` comparator: lower `sortOrder` first, then `strcasecmp` of the labels; the listing rows use it |
| EditorRegistry.DriverLeqTotalPreorder | src/Editor/EditorDriverRegistry.php:37-43 | ordering by sort order, then by case-insensitive label, is a total preorder |
| EditorRegistry.Listing | src/Editor/EditorDriverRegistry.php:28-46 | no more definitions than stored keys, each available for the resource |
| EditorRegistry.ListingSpec | src/Editor/EditorDriverRegistry.php:28-46 | `allFor` is a permutation of the available definitions: exactly the stored ones available for the resource, in ascending sort order, with ties ordered by case-insensitive label |
| EditorRegistry.Ids | src/Editor/EditorDriverRegistry.php:51-54 | one id per listed definition, in the same order |
| EditorRegistry.Lookup | src/Editor/EditorDriverRegistry.php:56-71 | a definition is found exactly when the trimmed id is non-empty, stored and available; it is the stored one |
| EditorRegistry.LookupTrimmed | src/Editor/EditorDriverRegistry.php:58 | looking up an id gives the same answer as looking up its trimmed form |
| EditorRegistry.LookupAgreesWithListing | src/Editor/EditorDriverRegistry.php:28-71 | whatever `get` finds is listed by `allFor`, and every listed definition is found again by its id |
| EditorRegistry.LegacyBinding | src/Editor/EditorDriverRegistry.php:96-100 | there is a binding exactly for `pages` and `posts` |
| EditorRegistry.PageDriver | src/Editor/EditorDriverRegistry.php:112-121 | id `page`, label `Page Editor`, description `Continuous writing surface.`, storage `content`, sort order 20, not a blocks editor; the view is set for the current resource only, and the other resource's view is null |
| EditorRegistry.LegacyView | src/Editor/EditorDriverRegistry.php:90-110 | a view is chosen exactly when there is no `page` driver, the resource's binding is bound and resolves to a non-empty existing view |
| EditorRegistry.RegisterLegacyPage | src/Editor/EditorDriverRegistry.php:90-122 | without a legacy view nothing changes; with one, the page driver is appended under `page`, and the table stays well formed |
| EditorRegistry.LegacyPageSpec | src/Editor/EditorDriverRegistry.php:90-122 | an existing `page` driver is never replaced; other resources change nothing; an added driver is `page`, sort order 20, and available; every other stored driver is kept |
| EditorRegistry.PageDriverAvailable | src/Editor/EditorDriverRegistry.php:112-121 | the page driver with a non-empty existing view is available for `pages` and `posts` |
| EditorRegistry.ResolveId | src/Editor/EditorDriverRegistry.php:73-88 | the result is the trimmed request, the fallback, or an id of the listing after the legacy registration |
| EditorRegistry.ResolveIdSpec | src/Editor/EditorDriverRegistry.php:73-88 | a request that is found wins, trimmed; otherwise a found fallback; otherwise the first listed id, or the fallback when nothing is listed; any result other than the fallback can be found |
| EditorRegistry.ResolveIdOfFound | src/Editor/EditorDriverRegistry.php:75-79 | a found request is returned trimmed |
| EditorRegistry.ResolveIdOfMissing | src/Editor/EditorDriverRegistry.php:80-87 | a request that is not found gives the fallback when that is found, and otherwise the first listed id, or the fallback when nothing is listed |
| EditorRegistry.ResolveIdFound | src/Editor/EditorDriverRegistry.php:73-88 | only the fallback may name a driver that cannot be found |
| EditorRegistry.EditorDriverRegistry.constructor | src/Editor/EditorDriverRegistry.php:12 | the registry starts empty |
| EditorRegistry.EditorDriverRegistry.Register | src/Editor/EditorDriverRegistry.php:14-23 | the new contents are `Registered` of the old ones |
| EditorRegistry.EditorDriverRegistry.AllFor | src/Editor/EditorDriverRegistry.php:28-46 | registers the legacy page driver first, then returns the listing of the new contents |
| EditorRegistry.EditorDriverRegistry.IdsFor | src/Editor/EditorDriverRegistry.php:51-54 | the ids of that listing, one per definition |
| EditorRegistry.EditorDriverRegistry.Get | src/Editor/EditorDriverRegistry.php:56-71 | the result is the lookup, and nothing changes |
| EditorRegistry.EditorDriverRegistry.Resolve | src/Editor/EditorDriverRegistry.php:73-88 | the result is `ResolveId`; the legacy page driver is registered only when neither the request nor the fallback is found |
| EditorRegistry.EditorDriverRegistry.RegisterLegacyPageDriver | src/Editor/EditorDriverRegistry.php:90-122 | the new contents are `RegisterLegacyPage` of the old ones |
| Catalog.ResolveCatalogPath | src/Catalog/FirstPartyPluginCatalogGenerator.php:125-134 | an empty or missing path gives `<base>/docs/catalog/first-party-plugins.json`; an absolute path is kept trimmed; a relative path goes below the base |
| Catalog.AbsoluteCatalogPath | src/Catalog/FirstPartyPluginCatalogGenerator.php:133 | a trimmed absolute path is used as it is |
| Catalog.NormalizeIcon | src/Catalog/FirstPartyPluginCatalogGenerator.php:241-250 | an icon exists exactly for a string that is non-empty after trimming; it is the first 32 characters of the trimmed string |
| Catalog.Prefix | src/Catalog/FirstPartyPluginCatalogGenerator.php:249 | `mb_substr($s, 0, n)` is the first `n` characters, or all of a shorter string |
| Catalog.NormalizeIconFixpoint | src/Catalog/FirstPartyPluginCatalogGenerator.php:241-250 | a string normalises to itself exactly when it is non-empty, trimmed and at most 32 characters long |
| Catalog.IconCutBeforeSpace | src/Catalog/FirstPartyPluginCatalogGenerator.php:247-249 | an icon cut at 32 characters just after a space ends in that space, so normalising it again gives a different icon |
| Catalog.FirstMenuIcon | src/Catalog/FirstPartyPluginCatalogGenerator.php:197-208 | some menu icon is found exactly when some menu has one |
| Catalog.FirstMenuIconIsFirst | src/Catalog/FirstPartyPluginCatalogGenerator.php:197-208 | the icon found is the first menu's that has one |
| Catalog.MenuIcon | src/Catalog/FirstPartyPluginCatalogGenerator.php:198-202 | defines a menu's icon: nothing for a menu that is not an array, else `normalizeIcon($menu['icon'] ?? null)` |
| Catalog.MenuIconBounds | src/Catalog/FirstPartyPluginCatalogGenerator.php:198-205 | a menu's icon is non-empty and at most 32 characters |
| Catalog.Menus | src/Catalog/FirstPartyPluginCatalogGenerator.php:192 | defines `$manifest['admin']['menus'] ?? null`, the menus the icon rows scan |
| Catalog.IconFor | src/Catalog/FirstPartyPluginCatalogGenerator.php:185-209 | the stored entry's icon wins when it normalises; without it and without a menu array there is no icon |
| Catalog.IconForSpec | src/Catalog/FirstPartyPluginCatalogGenerator.php:185-209 | the stored entry's icon wins when it normalises; otherwise the first menu, in manifest order, whose icon normalises; otherwise none; any result is non-empty and at most 32 characters |
| Catalog.ResolveIcon | src/Catalog/FirstPartyPluginCatalogGenerator.php:185-209 | the early-return loop computes `IconFor` |
| Catalog.LowerText | src/Catalog/FirstPartyPluginCatalogGenerator.php:217 | a looked-up text after `strtolower(trim(...))` has no upper-case letter and no surrounding whitespace |
| Catalog.ResolvePackageName | src/Catalog/FirstPartyPluginCatalogGenerator.php:215-228 | the package is the composer name if non-empty, else the stored package if non-empty, else the id; never empty when the id is not |
| Catalog.NormalizeOptionalUrl | src/Catalog/FirstPartyPluginCatalogGenerator.php:252-270 | a link is kept, trimmed, exactly when it is a non-empty string whose scheme is `http` or `https` in any case |
| Catalog.NormalizeOptionalUrlStable | src/Catalog/FirstPartyPluginCatalogGenerator.php:252-270 | normalising a kept link again keeps it unchanged |
| Catalog.TrimAll | src/Catalog/FirstPartyPluginCatalogGenerator.php:282 | each tag is the trimmed string cast of its value |
| Catalog.NonEmpty | src/Catalog/FirstPartyPluginCatalogGenerator.php:283 | keeps exactly the non-empty tags; a single tag is kept exactly when it is non-empty |
| Catalog.NonEmptyConcat | src/Catalog/FirstPartyPluginCatalogGenerator.php:283 | filtering a concatenation filters each part and keeps the parts in order, so the kept tags stay in input order |
| Catalog.Unique | src/Catalog/FirstPartyPluginCatalogGenerator.php:285 | keeps the same set of values |
| Catalog.UniqueSpec | src/Catalog/FirstPartyPluginCatalogGenerator.php:285 | `array_unique` keeps each value once, in the order of first occurrence |
| Catalog.UniqueOfDistinct | src/Catalog/FirstPartyPluginCatalogGenerator.php:285 | a list without duplicates is left as it is |
| Catalog.NormalizeTags | src/Catalog/FirstPartyPluginCatalogGenerator.php:276-286 | no tags for a non-array, and no empty tag |
| Catalog.NormalizeTagsSpec | src/Catalog/FirstPartyPluginCatalogGenerator.php:276-286 | no tags for a non-array; otherwise exactly the values that are non-empty after trimming, trimmed, each once, in the order of first occurrence |
| Catalog.TagMember | src/Catalog/FirstPartyPluginCatalogGenerator.php:276-286 | a tag is kept exactly when it is non-empty and some value trims to it |
| Catalog.EntryKey | src/Catalog/FirstPartyPluginCatalogGenerator.php:158 | a stored entry's key is lower-case and trimmed |
| Catalog.EntriesOf | src/Catalog/FirstPartyPluginCatalogGenerator.php:153-164 | no stored entry is indexed under an empty id |
| Catalog.EntriesOfKeys | src/Catalog/FirstPartyPluginCatalogGenerator.php:153-164 | an id is indexed exactly when some array entry has that normalised, non-empty id |
| Catalog.EntriesOfLastWins | src/Catalog/FirstPartyPluginCatalogGenerator.php:163 | among entries with the same id, the last one is kept |
| Catalog.EntriesById | src/Catalog/FirstPartyPluginCatalogGenerator.php:139-167 | no entries for a missing catalog or a non-array `plugins`, and never an empty id |
| Catalog.ExistingEntriesById | src/Catalog/FirstPartyPluginCatalogGenerator.php:139-167 | a missing catalog or a non-array `plugins` gives no entries; otherwise the loop builds the index `EntriesById` |
| Catalog.IndexEntries | src/Catalog/FirstPartyPluginCatalogGenerator.php:153-164 | the loop computes `EntriesOf` |
| Catalog.ManifestId | src/Catalog/FirstPartyPluginCatalogGenerator.php:35 | defines the entry id, `strtolower(trim((string) ($manifest['id'] ?? '')))` |
| Catalog.ManifestVersion | src/Catalog/FirstPartyPluginCatalogGenerator.php:42 | defines the version, `trim((string) ($manifest['version'] ?? ''))` |
| Catalog.Listed | src/Catalog/FirstPartyPluginCatalogGenerator.php:31-46 | defines the three `continue` filters: a non-empty manifest, an id starting with `tentapress/`, a non-empty version |
| Catalog.ExistingFor | src/Catalog/FirstPartyPluginCatalogGenerator.php:49 | defines `$existingEntries[$id] ?? []`, the stored entry each manifest reads |
| Catalog.EntryFor | src/Catalog/FirstPartyPluginCatalogGenerator.php:30-79 | a manifest yields an entry exactly when it is non-empty, its id is non-empty and starts with `tentapress/`, and its version is non-empty |
| Catalog.EntryForSpec | src/Catalog/FirstPartyPluginCatalogGenerator.php:35-79 | the entry's id is the lower-cased trimmed manifest id and its version the trimmed version; a missing name falls back to the id; the entry is well formed |
| Catalog.EntryTextsTrimmed | src/Catalog/FirstPartyPluginCatalogGenerator.php:40-42 | name, description and version are trimmed, and a missing name is the id |
| Catalog.BuildEntries | src/Catalog/FirstPartyPluginCatalogGenerator.php:29-80 | at most one entry per manifest |
| Catalog.BuildEntriesMembers | src/Catalog/FirstPartyPluginCatalogGenerator.php:29-80 | the entries are exactly those that some manifest yields |
| Catalog.IdLeq | src/Catalog/FirstPartyPluginCatalogGenerator.php:82 | defines the `usort` comparator, `strcmp` of the ids; the generation rows use it |
| Catalog.IdLeqTotalPreorder | src/Catalog/FirstPartyPluginCatalogGenerator.php:82 | ordering by `strcmp` of the id is a total preorder |
| Sorting.SortBy | src/Catalog/FirstPartyPluginCatalogGenerator.php:82 | `usort` returns a permutation of its input, of the same length |
| Sorting.SortBySorted | src/Catalog/FirstPartyPluginCatalogGenerator.php:82 | under a total preorder the result is sorted |
| Sorting.SortByMembers | src/Editor/EditorDriverRegistry.php:37-43 | a value is in the sorted list exactly when it is in the input |
| Catalog.Generation | src/Catalog/FirstPartyPluginCatalogGenerator.php:23-89 | schema version 1, the given timestamp, and at most one entry per manifest |
| Catalog.GenerationSpec | src/Catalog/FirstPartyPluginCatalogGenerator.php:23-89 | schema version 1; the given timestamp; a permutation of the entries the manifests yield; sorted by id byte-wise; each entry well formed |
| Catalog.Generate | src/Catalog/FirstPartyPluginCatalogGenerator.php:23-89 | the loop and the sort compute `Generation` |
| Catalog.Optional | src/Catalog/FirstPartyPluginCatalogGenerator.php:61-73 | defines an optional key: set only when its value is not null |
| Catalog.TagList | src/Catalog/FirstPartyPluginCatalogGenerator.php:75-77 | defines the tags as a list of strings |
| Catalog.Fixed | src/Catalog/FirstPartyPluginCatalogGenerator.php:53-59 | defines the five keys every entry has, in the order they are set |
| Catalog.EntryArray | src/Catalog/FirstPartyPluginCatalogGenerator.php:53-77 | defines the entry array: the five fixed keys, then `icon`, `docs_url` and `repo_url` when present, then `tags` when non-empty |
| Catalog.PayloadArray | src/Catalog/FirstPartyPluginCatalogGenerator.php:84-88 | defines the array `generate` returns, `schema_version`, `generated_at` and `plugins` in that order; `IsCurrent` compares it |
| Catalog.NormalizedPayload | src/Catalog/FirstPartyPluginCatalogGenerator.php:234-239 | `generated_at` is gone and every other key reads as before |
| Catalog.IsCurrent | src/Catalog/FirstPartyPluginCatalogGenerator.php:100-111 | a missing catalog is never current |
| Catalog.IsCurrentIgnoresTime | src/Catalog/FirstPartyPluginCatalogGenerator.php:100-111 | the drift check does not depend on the clock, and a missing catalog is never current |
| Catalog.GeneratedAtOnlyDiffers | src/Catalog/FirstPartyPluginCatalogGenerator.php:234-239 | two payloads that differ only in `generated_at` normalise to the same array |
| CatalogDrift.PackageStable | src/Catalog/FirstPartyPluginCatalogGenerator.php:215-228 | regenerating from the written entry gives the same package |
| CatalogDrift.IconStable | src/Catalog/FirstPartyPluginCatalogGenerator.php:185-190 | regenerating from the written entry gives the same icon when that icon is trimmed |
| CatalogDrift.UrlStable | src/Catalog/FirstPartyPluginCatalogGenerator.php:252-270 | regenerating from the written entry gives the same link, or none again |
| CatalogDrift.TagsStable | src/Catalog/FirstPartyPluginCatalogGenerator.php:276-286 | regenerating from the written tags gives the same tags |
| CatalogDrift.EntryRegenerates | src/Catalog/FirstPartyPluginCatalogGenerator.php:30-79 | a manifest yields the same entry when the stored catalog holds that entry as written |
| CatalogDrift.StepAgreesAfterWrite | src/Catalog/FirstPartyPluginCatalogGenerator.php:26-80 | with distinct ids, every manifest yields the same entry from the written catalog as from the catalog before it |
| CatalogDrift.FieldsRegenerate | src/Catalog/FirstPartyPluginCatalogGenerator.php:49-77 | package, icon, links and tags computed from the written entry equal the ones written |
| CatalogDrift.WrittenStepsAgree | src/Catalog/FirstPartyPluginCatalogGenerator.php:139-167 | with the written catalog as the stored one, the manifests build exactly the entries they built before |
| CatalogDrift.RegeneratedCatalogIsCurrent | src/Catalog/FirstPartyPluginCatalogGenerator.php:91-111 | a catalog just written from the manifests passes the drift check at any later time, given distinct manifest ids and trimmed icons |

## Left out

- Reading files and directories is not modelled. That covers `readCache()`, `glob` and sorting of the manifest paths, `decodeJsonFile` and `File::exists`. The decoded values and the sorted manifest list are inputs.
- JSON encoding and decoding are not modelled. `JsonPayload` is not part of this model, and the stored catalog is given already decoded.
- `write` is left out: it is I/O around `generate`. `CatalogDrift.RegeneratedCatalogIsCurrent` states what it promises about the result.
- `now()->utc()->format(...)` is the parameter `generatedAt`. `parse_url` is reduced to the scheme it would return, as a parameter.
- Floats are kept only as their text. PHP's float-to-string conversion is not modelled.
- The warning PHP raises when an array is cast to a string is not modelled; Laravel may turn it into an exception. The model uses PHP's result, the text `Array`.
- PHP arrays are modelled with string keys only. PHP casts a numeric-string key to an integer, and the model does not. In `registerEnabledPluginProviders` such a key would reach `registerProviderOnce(string $pluginId)` as an integer, which raises a `TypeError` under `strict_types=1` (src/Plugin/PluginManager.php:3, 47, 51). The model does not include that error; plugin ids contain `/`, so they are never numeric.
- `Plugin.PluginManager`: the host's autoloader queue is modelled as a map from prefix to source root. The order in which closures run and the closures of other code are not modelled. Requiring a file is modelled only as whether it defines the asked-for class.
- `Plugin.PluginManager`: the `app->register` and `logger()->warning` calls are modelled as logs appended to. The container's own behaviour is not modelled. A warning keeps the plugin id and the class its text interpolates; the text itself is not modelled.
- `Paths.Sanitize`: works on characters. PHP's `preg_replace` without the `u` flag replaces each byte of a multi-byte character with its own `-`.
- `Paths.PluginSearchRoots`: the `config()` value is given as a `Setting`. `TEST_TOKEN` is given as the raw text after `Request::server ?? Env::get ?? getenv`.
- `EditorRegistry.EditorDriverRegistry.Resolve`: the default fallback `'blocks'` is not built in; every caller passes the fallback.
- `EditorDriver.EditorDriverDefinition`: the field `label` is called `labelText`.
- `EditorRegistry.ListingSpec` does not state that equal drivers keep their registration order, although the stable sort it models keeps it.
- `Sorting.SortBy` does not state stability. The insertion sort is stable, but no lemma says so.
- `Catalog.GenerationSpec` does not state that entries with equal ids keep the manifests' order. The stable sort it models keeps it.
- `CatalogDrift.RegeneratedCatalogIsCurrent` requires distinct manifest ids. With two manifests of the same id, the stored index keeps only the last one.
- `CatalogDrift.RegeneratedCatalogIsCurrent` also requires every icon to be trimmed. An icon cut at 32 characters can end in a space (`Catalog.IconCutBeforeSpace`). Such an icon normalises to a shorter one when read back, so the written catalog would not be current.
- `SystemServiceProvider`, `CatalogCommand` and the asset publisher are not part of this model. They wire the core into Laravel.
