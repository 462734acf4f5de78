/**
 * `EditorDriverDefinition`: a read-only record describing one editor driver
 * (an editing surface for pages or posts). `view()->exists` is the parameter
 * `viewExists`.
 */
module EditorDriver {
  import opened Options

  /** The record, with the constructor's defaults (`labelText` is the field `label`, a keyword here). */
  datatype EditorDriverDefinition = EditorDriverDefinition(
    id: string,
    labelText: string,
    description: string,
    storage: string,
    pagesView: Option<string> := None,
    postsView: Option<string> := None,
    usesBlocksEditor: bool := false,
    sortOrder: int := 100)

  /** A definition built from the four required fields only. */
  function Definition(id: string, labelText: string, description: string, storage: string): (d: EditorDriverDefinition)
    ensures d.id == id && d.labelText == labelText && d.description == description && d.storage == storage
    ensures d.pagesView == None && d.postsView == None
    ensures !d.usesBlocksEditor && d.sortOrder == 100
  {
    EditorDriverDefinition(id, labelText, description, storage)
  }

  /** `viewFor($resource)`. */
  function ViewFor(d: EditorDriverDefinition, resource: string): (v: Option<string>)
    ensures resource == "pages" ==> v == d.pagesView
    ensures resource == "posts" ==> v == d.postsView
    ensures v.Some? ==> resource == "pages" || resource == "posts"
  {
    match resource
    case "pages" => d.pagesView
    case "posts" => d.postsView
    case _ => None
  }

  /** `availableFor($resource)`. */
  predicate AvailableFor(d: EditorDriverDefinition, resource: string, viewExists: string -> bool)
    ensures d.usesBlocksEditor ==> AvailableFor(d, resource, viewExists)
    ensures !d.usesBlocksEditor && resource != "pages" && resource != "posts" ==> !AvailableFor(d, resource, viewExists)
  {
    if d.usesBlocksEditor then true
    else
      var view := ViewFor(d, resource);
      view.Some? && view.value != "" && viewExists(view.value)
  }

  /**
   * A block-editor driver is available everywhere; any other driver is
   * available exactly for `pages` or `posts`, and only when its view for that
   * resource is a non-empty name of an existing view.
   */
  lemma AvailableForMeaning(d: EditorDriverDefinition, resource: string, viewExists: string -> bool)
    ensures d.usesBlocksEditor ==> AvailableFor(d, resource, viewExists)
    ensures !d.usesBlocksEditor && resource != "pages" && resource != "posts" ==> !AvailableFor(d, resource, viewExists)
    ensures !d.usesBlocksEditor && resource == "pages" ==>
      (AvailableFor(d, resource, viewExists) <==> d.pagesView.Some? && d.pagesView.value != "" && viewExists(d.pagesView.value))
    ensures !d.usesBlocksEditor && resource == "posts" ==>
      (AvailableFor(d, resource, viewExists) <==> d.postsView.Some? && d.postsView.value != "" && viewExists(d.postsView.value))
  {
  }

  /** The array `toArray($resource)` returns. */
  datatype DriverArray = DriverArray(
    id: string,
    labelText: string,
    description: string,
    storage: string,
    view: Option<string>,
    usesBlocksEditor: bool,
    sortOrder: int)

  /** `toArray($resource)`. */
  function ToArray(d: EditorDriverDefinition, resource: string): (a: DriverArray)
    ensures a.id == d.id && a.labelText == d.labelText && a.description == d.description && a.storage == d.storage
    ensures a.usesBlocksEditor == d.usesBlocksEditor && a.sortOrder == d.sortOrder
    ensures a.view == ViewFor(d, resource)
  {
    DriverArray(d.id, d.labelText, d.description, d.storage, ViewFor(d, resource), d.usesBlocksEditor, d.sortOrder)
  }

  /** The array of a driver available through its view names that view, non-empty and existing. */
  lemma ToArrayOfAvailable(d: EditorDriverDefinition, resource: string, viewExists: string -> bool)
    requires AvailableFor(d, resource, viewExists) && !d.usesBlocksEditor
    ensures ToArray(d, resource).view.Some?
    ensures ToArray(d, resource).view.value != "" && viewExists(ToArray(d, resource).view.value)
    ensures resource == "pages" || resource == "posts"
  {
  }
}
