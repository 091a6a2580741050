/**
 * The site generator's navigation helper `nav_class(item, entry)`: the CSS
 * class for a navigation entry when rendering `item`, `"current"` when the
 * entry's URL is the item's path or (except for the root URL `/`) a prefix of
 * it, and `""` otherwise.
 */
module LenskitNavigation {
  import opened Common

  /** The class given to the entry of the section being viewed. */
  const Current: string := "current"

  /** The class given to every other entry. */
  const NotCurrent: string := ""

  /** The site root, the one URL that never matches by prefix. */
  const Root: string := "/"

  /** A page of the site; `path` is absent (`nil`) for an item that is not written out. */
  datatype Item = Item(identifier: string, path: Option<string>, attributes: map<string, string>)

  /** A navigation entry: a hash from key names (`url`, `title`, ...) to values. */
  type Entry = map<string, string>

  /** `entry[:url]`: `nil` when the entry has no `url` key. */
  function Url(entry: Entry): Option<string>
  {
    if "url" in entry then Some(entry["url"]) else None
  }

  /** The two exceptions the Ruby expression can raise on `nil` operands. */
  datatype RubyError =
    | NoMethodError  // `nil.start_with?(url)`: the item has no path
    | TypeError      // `path.start_with?(nil)`: the entry has no URL

  datatype Result<T> = Ok(value: T) | Err(error: RubyError)

  /** The rule on a present path and URL. */
  function ClassFor(path: string, url: string): (r: string)
    ensures r == Current || r == NotCurrent
  {
    if path == url || (url != Root && StartsWith(path, url)) then Current else NotCurrent
  }

  /**
   * `nav_class(item, entry)`, with Ruby's `nil` operands: `==` compares them
   * like any value, and `start_with?` raises when either side is `nil`.
   */
  function NavClass(item: Item, entry: Entry): (r: Result<string>)
    ensures item.path.Some? && Url(entry).Some? ==>
      r == Ok(ClassFor(item.path.value, Url(entry).value))
    ensures r.Err? <==>
      item.path != Url(entry) && Url(entry) != Some(Root) && (item.path.None? || Url(entry).None?)
    ensures r.Err? ==> (r.error == NoMethodError <==> item.path.None?)
    ensures item.path == Url(entry) ==> r == Ok(Current)
    ensures item.path != Url(entry) && Url(entry) == Some(Root) ==> r == Ok(NotCurrent)
    ensures r.Ok? ==> r.value == Current || r.value == NotCurrent
  {
    var url := Url(entry);
    if item.path == url then Ok(Current)
    else if url == Some(Root) then Ok(NotCurrent)
    else if item.path.None? then Err(NoMethodError)
    else if url.None? then Err(TypeError)
    else Ok(if StartsWith(item.path.value, url.value) then Current else NotCurrent)
  }

  // ---------------------------------------------------------------------
  // Properties of the rule

  /** An item whose path equals the URL is current, the root included. */
  lemma EqualPathIsCurrent(path: string)
    ensures ClassFor(path, path) == Current
  {
  }

  /** The root URL marks only the root page: it never matches other pages by prefix. */
  lemma RootMatchesOnlyItself(path: string)
    ensures ClassFor(path, Root) == Current <==> path == Root
  {
  }

  /** Any URL other than the root is current exactly on the pages whose path it prefixes. */
  lemma NonRootIsPrefixRule(path: string, url: string)
    requires url != Root
    ensures ClassFor(path, url) == Current <==> StartsWith(path, url)
  {
  }

  /** Outside the two cases the class is empty. */
  lemma OtherwiseNotCurrent(path: string, url: string)
    requires path != url
    requires url == Root || !StartsWith(path, url)
    ensures ClassFor(path, url) == NotCurrent
  {
  }

  /** An empty URL is not the root and prefixes every path, so every item is current. */
  lemma EmptyUrlAlwaysCurrent(path: string)
    ensures ClassFor(path, "") == Current
  {
  }

  /** The class depends on the item's path and the entry's URL and on nothing else in either. */
  lemma OnlyPathAndUrlMatter(i1: Item, i2: Item, e1: Entry, e2: Entry)
    requires i1.path == i2.path && Url(e1) == Url(e2)
    ensures NavClass(i1, e1) == NavClass(i2, e2)
  {
  }

  /** With the section `/docs/` in the navigation, its pages are current and others are not. */
  lemma SectionExample()
    ensures ClassFor("/docs/guide/", "/docs/") == Current
    ensures ClassFor("/news/", "/docs/") == NotCurrent
    ensures ClassFor("/docs/guide/", Root) == NotCurrent
  {
  }
}
