/**
 * `EditorDriverRegistry`: editor driver definitions keyed by trimmed id, with
 * a filtered and sorted listing per resource, a lookup, a fallback resolver,
 * and the legacy `page` driver that a listing registers on demand.
 *
 * The container calls `app()->bound`, `resolve()` and `view()->exists` are the
 * fields of `ViewHost`. The pure functions over `Table` specify the class
 * `EditorDriverRegistry` at the end of the module.
 */
module EditorRegistry {
  import opened Options
  import opened PhpString
  import opened Sorting
  import opened EditorDriver

  type Definition = EditorDriverDefinition

  /** What the registry asks of the framework. `resolve` is `None` when the binding does not resolve to a string. */
  datatype ViewHost = ViewHost(
    bound: string -> bool,
    resolve: string -> Option<string>,
    viewExists: string -> bool)

  /**
   * The `definitions` array. PHP arrays keep insertion order, and assigning to
   * a key already present keeps its position: `keys` is that order.
   */
  datatype Table = Table(keys: seq<string>, defs: map<string, Definition>)

  const EmptyTable: Table := Table([], map[])

  /** Each key has one slot in the order. */
  ghost predicate DistinctKeys(t: Table) {
    forall i, j :: 0 <= i < j < |t.keys| ==> t.keys[i] != t.keys[j]
  }

  /** The order lists exactly the stored keys. */
  ghost predicate KeysMatch(t: Table) {
    forall k :: k in t.defs <==> k in t.keys
  }

  /** Each stored definition sits under its own non-empty trimmed id. */
  ghost predicate KeyedById(t: Table) {
    forall k :: k in t.defs ==> k != "" && Trim(t.defs[k].id) == k
  }

  ghost predicate WellFormed(t: Table) {
    DistinctKeys(t) && KeysMatch(t) && KeyedById(t)
  }

  /** `register($definition)`. */
  function Registered(t: Table, d: Definition): (r: Table)
    ensures Trim(d.id) == "" ==> r == t
    ensures Trim(d.id) != "" ==> r.defs == t.defs[Trim(d.id) := d]
    ensures Trim(d.id) in t.defs ==> r.keys == t.keys
    ensures Trim(d.id) != "" && Trim(d.id) !in t.defs ==> r.keys == t.keys + [Trim(d.id)]
  {
    var id := Trim(d.id);
    if id == "" then t
    else Table(if id in t.defs then t.keys else t.keys + [id], t.defs[id := d])
  }

  /** A registration under a non-empty trimmed id, spelled out, and the table it leaves well formed. */
  lemma RegisteredStep(t: Table, d: Definition, id: string)
    requires WellFormed(t) && id == Trim(d.id) && id != ""
    ensures Registered(t, d) == Table(if id in t.defs then t.keys else t.keys + [id], t.defs[id := d])
    ensures WellFormed(Registered(t, d))
  {
    RegisteredKeeps(t, d);
  }

  /** Registering keeps the table well formed: one slot per key, each key the trimmed id of its definition. */
  lemma RegisteredKeeps(t: Table, d: Definition)
    requires WellFormed(t)
    ensures WellFormed(Registered(t, d))
  {
    RegisteredKeepsKeys(t, d);
    RegisteredKeepsIds(t, d);
  }

  lemma RegisteredKeepsKeys(t: Table, d: Definition)
    requires DistinctKeys(t) && KeysMatch(t)
    ensures DistinctKeys(Registered(t, d)) && KeysMatch(Registered(t, d))
  {
    var id := Trim(d.id);
    var r := Registered(t, d);
    if id != "" && id !in t.defs {
      assert id !in t.keys;
      assert r.keys == t.keys + [id];
      forall i, j | 0 <= i < j < |r.keys| ensures r.keys[i] != r.keys[j] {
        if j == |t.keys| { assert r.keys[i] == t.keys[i]; }
      }
      forall k ensures k in r.defs <==> k in r.keys {
        assert k in r.keys <==> k in t.keys || k == id;
      }
    }
  }

  lemma RegisteredKeepsIds(t: Table, d: Definition)
    requires KeyedById(t)
    ensures KeyedById(Registered(t, d))
  {
    var id := Trim(d.id);
    if id != "" {
      TrimIsTrimmed(d.id);
      TrimOfTrimmed(id);
      var r := Registered(t, d);
      forall k | k in r.defs ensures k != "" && Trim(r.defs[k].id) == k {
        if k != id { assert r.defs[k] == t.defs[k]; }
      }
    }
  }

  /** `array_values(array_filter($this->definitions, availableFor))`, in key order. */
  function Available(keys: seq<string>, defs: map<string, Definition>, resource: string, viewExists: string -> bool): (r: seq<Definition>)
    ensures |r| <= |keys|
    ensures forall x :: x in r ==> AvailableFor(x, resource, viewExists)
  {
    if keys == [] then []
    else
      var rest := Available(keys[1..], defs, resource, viewExists);
      if keys[0] in defs && AvailableFor(defs[keys[0]], resource, viewExists) then [defs[keys[0]]] + rest else rest
  }

  /** A definition is listed exactly when it is stored under one of the keys and is available for the resource. */
  lemma {:induction false} AvailableMembers(keys: seq<string>, defs: map<string, Definition>, resource: string, viewExists: string -> bool, x: Definition)
    ensures x in Available(keys, defs, resource, viewExists) <==>
      exists i :: 0 <= i < |keys| && keys[i] in defs && defs[keys[i]] == x && AvailableFor(x, resource, viewExists)
  {
    if keys != [] {
      AvailableMembers(keys[1..], defs, resource, viewExists, x);
      if exists i :: 0 <= i < |keys| && keys[i] in defs && defs[keys[i]] == x && AvailableFor(x, resource, viewExists) {
        var i :| 0 <= i < |keys| && keys[i] in defs && defs[keys[i]] == x && AvailableFor(x, resource, viewExists);
        if i > 0 { assert keys[1..][i - 1] == keys[i]; }
      }
      if exists i :: 0 <= i < |keys| - 1 && keys[1..][i] in defs && defs[keys[1..][i]] == x && AvailableFor(x, resource, viewExists) {
        var i :| 0 <= i < |keys| - 1 && keys[1..][i] in defs && defs[keys[1..][i]] == x && AvailableFor(x, resource, viewExists);
        assert keys[i + 1] == keys[1..][i];
      }
    }
  }

  /** The `usort` comparator: `sortOrder` first, then `strcasecmp` of the labels. */
  predicate DriverLeq(a: Definition, b: Definition) {
    a.sortOrder < b.sortOrder || (a.sortOrder == b.sortOrder && CaseLeq(a.labelText, b.labelText))
  }

  lemma DriverLeqTotalPreorder()
    ensures TotalPreorder(DriverLeq)
  {
    forall a: Definition, b: Definition ensures DriverLeq(a, b) || DriverLeq(b, a) {
      LexLeqTotal(Lower(a.labelText), Lower(b.labelText));
    }
    forall a: Definition, b: Definition, c: Definition | DriverLeq(a, b) && DriverLeq(b, c) ensures DriverLeq(a, c) {
      if a.sortOrder == b.sortOrder == c.sortOrder {
        LexLeqTransitive(Lower(a.labelText), Lower(b.labelText), Lower(c.labelText));
      }
    }
  }

  /** The definitions of `allFor($resource)` on a given table. */
  function Listing(t: Table, resource: string, viewExists: string -> bool): (r: seq<Definition>)
    ensures |r| <= |t.keys|
    ensures forall x :: x in r ==> AvailableFor(x, resource, viewExists)
  {
    var a := Available(t.keys, t.defs, resource, viewExists);
    var r := SortBy(a, DriverLeq);
    assert forall x :: x in r ==> x in multiset(a);
    r
  }

  /**
   * `allFor` lists exactly the stored definitions available for the resource,
   * each as often as the filter keeps it, ordered by `sortOrder` and then by
   * case-insensitive label.
   */
  lemma ListingSpec(t: Table, resource: string, viewExists: string -> bool)
    ensures var l := Listing(t, resource, viewExists);
      && multiset(l) == multiset(Available(t.keys, t.defs, resource, viewExists))
      && (forall x :: x in l <==> exists k :: k in t.keys && k in t.defs && t.defs[k] == x && AvailableFor(x, resource, viewExists))
      && (forall i, j :: 0 <= i < j < |l| ==> l[i].sortOrder <= l[j].sortOrder)
      && (forall i, j :: 0 <= i < j < |l| && l[i].sortOrder == l[j].sortOrder ==> CaseLeq(l[i].labelText, l[j].labelText))
  {
    var a := Available(t.keys, t.defs, resource, viewExists);
    var l := Listing(t, resource, viewExists);
    DriverLeqTotalPreorder();
    SortBySorted(a, DriverLeq);
    forall x ensures x in l <==> exists k :: k in t.keys && k in t.defs && t.defs[k] == x && AvailableFor(x, resource, viewExists) {
      SortByMembers(a, DriverLeq, x);
      AvailableMembers(t.keys, t.defs, resource, viewExists, x);
      if x in a {
        var i :| 0 <= i < |t.keys| && t.keys[i] in t.defs && t.defs[t.keys[i]] == x && AvailableFor(x, resource, viewExists);
        assert t.keys[i] in t.keys;
      }
      if exists k :: k in t.keys && k in t.defs && t.defs[k] == x && AvailableFor(x, resource, viewExists) {
        var k :| k in t.keys && k in t.defs && t.defs[k] == x && AvailableFor(x, resource, viewExists);
        var i :| 0 <= i < |t.keys| && t.keys[i] == k;
      }
    }
    forall i, j | 0 <= i < j < |l| ensures l[i].sortOrder <= l[j].sortOrder {
      assert DriverLeq(l[i], l[j]);
    }
    forall i, j | 0 <= i < j < |l| && l[i].sortOrder == l[j].sortOrder ensures CaseLeq(l[i].labelText, l[j].labelText) {
      assert DriverLeq(l[i], l[j]);
    }
  }

  /** `array_map(fn ($d) => $d->id, ...)`. */
  function Ids(ds: seq<Definition>): (ids: seq<string>)
    ensures |ids| == |ds|
    ensures forall i :: 0 <= i < |ds| ==> ids[i] == ds[i].id
  {
    seq(|ds|, i requires 0 <= i < |ds| => ds[i].id)
  }

  /** `get($id, $resource)` on a table. */
  function Lookup(t: Table, id: string, resource: string, viewExists: string -> bool): (r: Option<Definition>)
    ensures r.Some? <==> Trim(id) != "" && Trim(id) in t.defs && AvailableFor(t.defs[Trim(id)], resource, viewExists)
    ensures r.Some? ==> r.value == t.defs[Trim(id)]
  {
    var key := Trim(id);
    if key == "" then None
    else if key !in t.defs then None
    else if AvailableFor(t.defs[key], resource, viewExists) then Some(t.defs[key]) else None
  }

  /** What `get` finds is also what `allFor` lists, and every listed id is found again by `get`. */
  lemma LookupAgreesWithListing(t: Table, resource: string, viewExists: string -> bool)
    requires WellFormed(t)
    ensures forall id :: Lookup(t, id, resource, viewExists).Some? ==>
      Lookup(t, id, resource, viewExists).value in Listing(t, resource, viewExists)
    ensures forall d :: d in Listing(t, resource, viewExists) ==> Lookup(t, d.id, resource, viewExists) == Some(d)
  {
    ListingSpec(t, resource, viewExists);
    forall id | Lookup(t, id, resource, viewExists).Some?
      ensures Lookup(t, id, resource, viewExists).value in Listing(t, resource, viewExists)
    {
      var k := Trim(id);
      assert k in t.keys && k in t.defs && t.defs[k] == Lookup(t, id, resource, viewExists).value;
    }
  }

  /** The view binding a resource's legacy page editor is published under, if any. */
  function LegacyBinding(resource: string): (b: Option<string>)
    ensures b.Some? <==> resource == "pages" || resource == "posts"
  {
    match resource
    case "pages" => Some("tp.pages.editor.view")
    case "posts" => Some("tp.posts.editor.view")
    case _ => None
  }

  /** The legacy `page` driver for one resource and its view. */
  function PageDriver(resource: string, view: string): (d: Definition)
    ensures d.id == "page" && d.sortOrder == 20 && !d.usesBlocksEditor
    ensures d.labelText == "Page Editor" && d.description == "Continuous writing surface." && d.storage == "content"
    ensures ViewFor(d, resource) == if resource == "pages" || resource == "posts" then Some(view) else None
    ensures resource != "pages" ==> d.pagesView == None
    ensures resource != "posts" ==> d.postsView == None
  {
    EditorDriverDefinition(
      id := "page",
      labelText := "Page Editor",
      description := "Continuous writing surface.",
      storage := "content",
      pagesView := if resource == "pages" then Some(view) else None,
      postsView := if resource == "posts" then Some(view) else None,
      usesBlocksEditor := false,
      sortOrder := 20)
  }

  /** The view the legacy driver would use, when every condition for adding it holds. */
  function LegacyView(t: Table, resource: string, host: ViewHost): (v: Option<string>)
    ensures v.Some? ==> && "page" !in t.defs
                        && LegacyBinding(resource).Some?
                        && host.bound(LegacyBinding(resource).value)
                        && host.resolve(LegacyBinding(resource).value) == Some(v.value)
                        && v.value != "" && host.viewExists(v.value)
    ensures ("page" !in t.defs && LegacyBinding(resource).Some? && host.bound(LegacyBinding(resource).value)
             && host.resolve(LegacyBinding(resource).value).Some?
             && host.resolve(LegacyBinding(resource).value).value != ""
             && host.viewExists(host.resolve(LegacyBinding(resource).value).value)) ==> v.Some?
  {
    if "page" in t.defs then None
    else
      var binding := LegacyBinding(resource);
      if binding.None? || !host.bound(binding.value) then None
      else
        match host.resolve(binding.value)
        case None => None
        case Some(view) => if view == "" || !host.viewExists(view) then None else Some(view)
  }

  lemma PageIsTrimmed()
    ensures Trim("page") == "page"
  {
    assert IsTrimmed("page");
    TrimOfTrimmed("page");
  }

  /** `registerLegacyPageDriver($resource)`. */
  function RegisterLegacyPage(t: Table, resource: string, host: ViewHost): (r: Table)
    requires WellFormed(t)
    ensures WellFormed(r)
    ensures LegacyView(t, resource, host).None? ==> r == t
    ensures LegacyView(t, resource, host).Some? ==>
      && r.defs == t.defs["page" := PageDriver(resource, LegacyView(t, resource, host).value)]
      && r.keys == t.keys + ["page"]
  {
    match LegacyView(t, resource, host)
    case None => t
    case Some(view) =>
      PageIsTrimmed();
      RegisteredKeeps(t, PageDriver(resource, view));
      Registered(t, PageDriver(resource, view))
  }

  /**
   * The legacy driver never replaces a `page` entry; when it is added it is
   * the `page` driver with sort order 20, and it is available for the
   * resource it was added for.
   */
  lemma LegacyPageSpec(t: Table, resource: string, host: ViewHost)
    requires WellFormed(t)
    ensures "page" in t.defs ==> RegisterLegacyPage(t, resource, host) == t
    ensures resource != "pages" && resource != "posts" ==> RegisterLegacyPage(t, resource, host) == t
    ensures var r := RegisterLegacyPage(t, resource, host);
      r != t ==> && "page" in r.defs && r.defs["page"].id == "page" && r.defs["page"].sortOrder == 20
                 && AvailableFor(r.defs["page"], resource, host.viewExists)
                 && (forall k :: k in t.defs ==> k in r.defs && r.defs[k] == t.defs[k])
  {
    var r := RegisterLegacyPage(t, resource, host);
    var v := LegacyView(t, resource, host);
    if v.Some? {
      PageDriverAvailable(resource, v.value, host.viewExists);
      assert r.defs == t.defs["page" := PageDriver(resource, v.value)];
    }
  }

  /** The legacy driver, given an existing non-empty view, is available for `pages` and `posts`. */
  lemma PageDriverAvailable(resource: string, view: string, viewExists: string -> bool)
    requires resource == "pages" || resource == "posts"
    requires view != "" && viewExists(view)
    ensures AvailableFor(PageDriver(resource, view), resource, viewExists)
  {
    var d := PageDriver(resource, view);
    assert ViewFor(d, resource) == Some(view);
  }

  /** `resolve($requested, $resource, $fallback)` on a table: the driver id an editor should open with. */
  function ResolveId(t: Table, requested: string, resource: string, fallback: string, host: ViewHost): (id: string)
    requires WellFormed(t)
    ensures id == Trim(requested) || id == fallback
      || id in Ids(Listing(RegisterLegacyPage(t, resource, host), resource, host.viewExists))
  {
    var req := Trim(requested);
    if req != "" && Lookup(t, req, resource, host.viewExists).Some? then req
    else if Lookup(t, fallback, resource, host.viewExists).Some? then fallback
    else
      var ids := Ids(Listing(RegisterLegacyPage(t, resource, host), resource, host.viewExists));
      if ids != [] then ids[0] else fallback
  }

  /**
   * The resolver's rule: the trimmed request when `get` finds it, else the
   * fallback when `get` finds that, else the first listed id, else the
   * fallback. So the answer is always the trimmed request, the fallback, or an
   * id of the listing, and a request naming an available driver always wins.
   */
  lemma ResolveIdSpec(t: Table, requested: string, resource: string, fallback: string, host: ViewHost)
    requires WellFormed(t)
    ensures var id := ResolveId(t, requested, resource, fallback, host);
      var listed := Ids(Listing(RegisterLegacyPage(t, resource, host), resource, host.viewExists));
      && (id == Trim(requested) || id == fallback || id in listed)
      && (Lookup(t, requested, resource, host.viewExists).Some? ==> id == Trim(requested))
      && (Lookup(t, requested, resource, host.viewExists).None? && Lookup(t, fallback, resource, host.viewExists).Some? ==>
            id == fallback)
      && (Lookup(t, requested, resource, host.viewExists).None? && Lookup(t, fallback, resource, host.viewExists).None? ==>
            id == if listed != [] then listed[0] else fallback)
      && (id != fallback ==> Lookup(RegisterLegacyPage(t, resource, host), id, resource, host.viewExists).Some?)
  {
    if Lookup(t, requested, resource, host.viewExists).Some? {
      ResolveIdOfFound(t, requested, resource, fallback, host);
    } else {
      ResolveIdOfMissing(t, requested, resource, fallback, host);
    }
    ResolveIdFound(t, requested, resource, fallback, host);
  }

  /** A request `get` does not find falls through to the fallback, and then to the first listed id. */
  lemma ResolveIdOfMissing(t: Table, requested: string, resource: string, fallback: string, host: ViewHost)
    requires WellFormed(t)
    requires Lookup(t, requested, resource, host.viewExists).None?
    ensures var id := ResolveId(t, requested, resource, fallback, host);
      var listed := Ids(Listing(RegisterLegacyPage(t, resource, host), resource, host.viewExists));
      && (Lookup(t, fallback, resource, host.viewExists).Some? ==> id == fallback)
      && (Lookup(t, fallback, resource, host.viewExists).None? ==> id == if listed != [] then listed[0] else fallback)
  {
    LookupTrimmed(t, requested, resource, host.viewExists);
  }

  /** Trimming is idempotent, so looking up a trimmed request finds what looking up the raw request finds. */
  lemma LookupTrimmed(t: Table, requested: string, resource: string, viewExists: string -> bool)
    ensures Lookup(t, Trim(requested), resource, viewExists) == Lookup(t, requested, resource, viewExists)
  {
    TrimIsTrimmed(requested);
    TrimOfTrimmed(Trim(requested));
  }

  lemma ResolveIdOfFound(t: Table, requested: string, resource: string, fallback: string, host: ViewHost)
    requires WellFormed(t)
    requires Lookup(t, requested, resource, host.viewExists).Some?
    ensures ResolveId(t, requested, resource, fallback, host) == Trim(requested)
  {
    LookupTrimmed(t, requested, resource, host.viewExists);
  }

  lemma ResolveIdFound(t: Table, requested: string, resource: string, fallback: string, host: ViewHost)
    requires WellFormed(t)
    ensures var id := ResolveId(t, requested, resource, fallback, host);
      id != fallback ==> Lookup(RegisterLegacyPage(t, resource, host), id, resource, host.viewExists).Some?
  {
    var t2 := RegisterLegacyPage(t, resource, host);
    var id := ResolveId(t, requested, resource, fallback, host);
    var req := Trim(requested);
    if id != fallback {
      LegacyPageSpec(t, resource, host);
      if req != "" && Lookup(t, req, resource, host.viewExists).Some? {
        LookupTrimmed(t, requested, resource, host.viewExists);
        LookupTrimmed(t2, requested, resource, host.viewExists);
        assert t2.defs[req] == t.defs[req];
      } else {
        var l := Listing(t2, resource, host.viewExists);
        assert l != [] && id == l[0].id;
        LookupAgreesWithListing(t2, resource, host.viewExists);
        assert l[0] in l;
      }
    }
  }

  /** The registry object: the `definitions` array as its key order and its map. */
  class EditorDriverRegistry {
    var keys: seq<string>
    var definitions: map<string, Definition>

    function Contents(): Table
      reads this
    {
      Table(keys, definitions)
    }

    ghost predicate Valid()
      reads this
    {
      WellFormed(Contents())
    }

    constructor ()
      ensures Valid() && Contents() == EmptyTable
    {
      keys, definitions := [], map[];
    }

    method Register(definition: Definition)
      requires Valid()
      modifies this
      ensures Valid() && Contents() == Registered(old(Contents()), definition)
    {
      var id := Trim(definition.id);
      if id == "" {
        return;
      }
      RegisteredStep(Contents(), definition, id);
      if id !in definitions {
        keys := keys + [id];
      }
      definitions := definitions[id := definition];
    }

    method AllFor(resource: string, host: ViewHost) returns (list: seq<Definition>)
      requires Valid()
      modifies this
      ensures Valid() && Contents() == RegisterLegacyPage(old(Contents()), resource, host)
      ensures list == Listing(Contents(), resource, host.viewExists)
    {
      RegisterLegacyPageDriver(resource, host);
      var available := Available(keys, definitions, resource, host.viewExists);
      list := SortBy(available, DriverLeq);
    }

    method IdsFor(resource: string, host: ViewHost) returns (ids: seq<string>)
      requires Valid()
      modifies this
      ensures Valid() && Contents() == RegisterLegacyPage(old(Contents()), resource, host)
      ensures ids == Ids(Listing(Contents(), resource, host.viewExists))
      ensures |ids| == |Listing(Contents(), resource, host.viewExists)|
    {
      var list := AllFor(resource, host);
      ids := Ids(list);
    }

    method Get(id: string, resource: string, viewExists: string -> bool) returns (found: Option<Definition>)
      requires Valid()
      ensures found == Lookup(Contents(), id, resource, viewExists)
    {
      var key := Trim(id);
      if key == "" {
        return None;
      }
      if key !in definitions {
        return None;
      }
      var definition := definitions[key];
      found := if AvailableFor(definition, resource, viewExists) then Some(definition) else None;
    }

    method Resolve(requested: string, resource: string, fallback: string, host: ViewHost) returns (id: string)
      requires Valid()
      modifies this
      ensures Valid()
      ensures id == ResolveId(old(Contents()), requested, resource, fallback, host)
      ensures var req := Trim(requested);
        Contents() == if (req != "" && Lookup(old(Contents()), req, resource, host.viewExists).Some?)
                         || Lookup(old(Contents()), fallback, resource, host.viewExists).Some?
                      then old(Contents()) else RegisterLegacyPage(old(Contents()), resource, host)
    {
      var req := Trim(requested);
      if req != "" {
        var byRequest := Get(req, resource, host.viewExists);
        if byRequest != None {
          return req;
        }
      }
      var byFallback := Get(fallback, resource, host.viewExists);
      if byFallback != None {
        return fallback;
      }
      var ids := IdsFor(resource, host);
      id := if ids != [] then ids[0] else fallback;
    }

    method RegisterLegacyPageDriver(resource: string, host: ViewHost)
      requires Valid()
      modifies this
      ensures Valid() && Contents() == RegisterLegacyPage(old(Contents()), resource, host)
    {
      if "page" in definitions {
        return;
      }
      var binding := LegacyBinding(resource);
      if binding.None? || !host.bound(binding.value) {
        return;
      }
      var view := host.resolve(binding.value);
      if view.None? || view.value == "" || !host.viewExists(view.value) {
        return;
      }
      PageIsTrimmed();
      Register(PageDriver(resource, view.value));
    }
  }
}
