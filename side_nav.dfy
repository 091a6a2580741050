/**
 * The side-navigation matcher of the site script: for every `li` of the
 * side navigation it reads the link's `href` and `data-match` attributes and
 * marks the entry `active` when it matches the current page path.
 *
 * The page (the DOM and `window.location.pathname`) is an input here: an
 * entry is its two attribute values and the path is a string; the `active`
 * classes are a boolean array.
 */
module SideNav {
  import opened Common

  /** One side-nav `li`: the `href` and `data-match` of its link, each possibly absent. */
  datatype NavEntry = NavEntry(href: Option<string>, mode: Option<string>)

  /** The value of `data-match` that asks for string equality. */
  const ExactMode: string := "exact"

  /**
   * The guard `^(https?:)?\/\/`: an absolute `http:`/`https:` URL or a
   * protocol-relative one, which never denotes a page of this site.
   */
  predicate IsExternal(url: string)
  {
    StartsWith(url, "http://") || StartsWith(url, "https://") || StartsWith(url, "//")
  }

  /** Where a prefix-mode pattern may begin: `^` only, or `(^|/)`. */
  datatype Anchor = StartOfPath | StartOrAfterSlash

  /** The regular expression built from an href: an anchor followed by the href as a literal. */
  datatype Pattern = Pattern(anchor: Anchor, literal: string)

  /** The pattern built from `url`: `'^' + url` for an href starting with `/`, else `'(^|/)' + url`. */
  function CompilePattern(url: string): Pattern
  {
    if |url| > 0 && url[0] == '/' then Pattern(StartOfPath, url)
    else Pattern(StartOrAfterSlash, url)
  }

  /** The pattern matches with its match starting at index `k` of `path`. */
  predicate MatchAt(p: Pattern, path: string, k: nat)
    requires k <= |path|
  {
    match p.anchor
    case StartOfPath => k == 0 && StartsWith(path, p.literal)
    case StartOrAfterSlash =>
      (k == 0 && StartsWith(path, p.literal))
      || (k < |path| && path[k] == '/' && StartsWith(path[k + 1..], p.literal))
  }

  /** Unanchored regular-expression search: try every start index from `k` up to `|path|`. */
  predicate SearchFrom(p: Pattern, path: string, k: nat)
    decreases |path| - k
  {
    k <= |path| && (MatchAt(p, path, k) || SearchFrom(p, path, k + 1))
  }

  /** `pathname.match(regex)` is non-null. */
  predicate Search(p: Pattern, path: string)
  {
    SearchFrom(p, path, 0)
  }

  /** `h` occurs in `path` at index `i`, and `i` is the start of the path or follows a `/`. */
  predicate SegmentStartAt(path: string, h: string, i: nat)
  {
    i + |h| <= |path| && (i == 0 || path[i - 1] == '/') && path[i..i + |h|] == h
  }

  /** `h` occurs at the start of `path` or immediately after some `/` in it. */
  ghost predicate OccursAtSegmentStart(path: string, h: string)
  {
    exists i: nat :: SegmentStartAt(path, h, i)
  }

  /**
   * Whether the entry with this `href` and `data-match` is active on the page
   * at `path`. An `href` is read literally (see README, "Left out").
   */
  function IsActive(href: Option<string>, mode: Option<string>, path: string): (r: bool)
    ensures r ==> href.Some? && !IsExternal(href.value)
    ensures mode == Some(ExactMode) ==> (r <==> href == Some(path) && !IsExternal(path))
  {
    match href
    case None => false
    case Some(url) =>
      if IsExternal(url) then false
      else if mode == Some(ExactMode) then url == path
      else Search(CompilePattern(url), path)
  }

  /** The entry as the script sees it. */
  function EntryIsActive(e: NavEntry, path: string): bool
  {
    IsActive(e.href, e.mode, path)
  }

  /**
   * The `.each` loop: every entry that matches gets the `active` class; a class
   * already present stays, and no entry's decision depends on another's.
   */
  method MarkActive(entries: seq<NavEntry>, path: string, active: array<bool>)
    requires active.Length == |entries|
    modifies active
    ensures forall i :: 0 <= i < active.Length ==>
      active[i] == (old(active[i]) || EntryIsActive(entries[i], path))
  {
    var n := 0;
    while n < active.Length
      invariant 0 <= n <= active.Length
      invariant forall i :: 0 <= i < n ==>
        active[i] == (old(active[i]) || EntryIsActive(entries[i], path))
      invariant forall i :: n <= i < active.Length ==> active[i] == old(active[i])
    {
      if EntryIsActive(entries[n], path) {
        active[n] := true;
      }
      n := n + 1;
    }
  }

  // ---------------------------------------------------------------------
  // The regular-expression search against its declarative reading

  /** Search from `k` succeeds exactly when the pattern matches at some start index at or after `k`. */
  lemma {:induction false} SearchFromIff(p: Pattern, path: string, k: nat)
    requires k <= |path|
    ensures SearchFrom(p, path, k) <==> exists j: nat :: k <= j <= |path| && MatchAt(p, path, j)
    decreases |path| - k
  {
    if k < |path| {
      SearchFromIff(p, path, k + 1);
      if SearchFrom(p, path, k) && !MatchAt(p, path, k) {
        var j: nat :| k + 1 <= j <= |path| && MatchAt(p, path, j);
      }
      if exists j: nat :: k <= j <= |path| && MatchAt(p, path, j) {
        var j: nat :| k <= j <= |path| && MatchAt(p, path, j);
        if j != k {
          assert SearchFrom(p, path, k + 1);
        }
      }
    } else {
      assert SearchFrom(p, path, k) <==> MatchAt(p, path, k) by {
        assert !SearchFrom(p, path, k + 1);
      }
    }
  }

  /** A path-absolute `href` whose second character is not `/` is not external. */
  lemma SitePathNotExternal(url: string)
    requires |url| >= 2 && url[0] == '/' && url[1] != '/'
    ensures !IsExternal(url)
  {
  }

  /** A `^`-anchored pattern is found exactly when the path starts with its literal. */
  lemma AnchoredSearch(h: string, path: string)
    ensures Search(Pattern(StartOfPath, h), path) <==> StartsWith(path, h)
  {
    var p := Pattern(StartOfPath, h);
    SearchFromIff(p, path, 0);
    if StartsWith(path, h) {
      assert MatchAt(p, path, 0);
    }
  }

  /** Slicing arithmetic: a literal after the slash at `k` is the literal at `k + 1`. */
  lemma StartsWithAfter(path: string, h: string, k: nat)
    requires k <= |path|
    ensures StartsWith(path[k..], h) <==> (k + |h| <= |path| && path[k..k + |h|] == h)
  {
  }

  /** A `(^|/)`-anchored pattern is found exactly when its literal starts a path segment. */
  lemma SegmentSearch(h: string, path: string)
    ensures Search(Pattern(StartOrAfterSlash, h), path) <==> OccursAtSegmentStart(path, h)
  {
    var p := Pattern(StartOrAfterSlash, h);
    SearchFromIff(p, path, 0);
    if Search(p, path) {
      var k: nat :| k <= |path| && MatchAt(p, path, k);
      if k == 0 && StartsWith(path, h) {
        StartsWithAfter(path, h, 0);
        assert SegmentStartAt(path, h, 0);
      } else {
        StartsWithAfter(path, h, k + 1);
        assert SegmentStartAt(path, h, k + 1);
      }
    }
    if OccursAtSegmentStart(path, h) {
      var i: nat :| SegmentStartAt(path, h, i);
      StartsWithAfter(path, h, i);
      if i == 0 {
        assert MatchAt(p, path, 0);
      } else {
        assert path[i..] == path[i - 1 + 1..];
        assert MatchAt(p, path, i - 1);
      }
    }
  }

  // ---------------------------------------------------------------------
  // Properties of the matcher

  /** An entry without an `href` is never active, whatever the path and mode. */
  lemma MissingHrefNeverActive(mode: Option<string>, path: string)
    ensures !IsActive(None, mode, path)
  {
  }

  /** An absolute or protocol-relative `href` is never active, whatever the path and mode. */
  lemma ExternalNeverActive(url: string, mode: Option<string>, path: string)
    requires StartsWith(url, "http://") || StartsWith(url, "https://") || StartsWith(url, "//")
    ensures !IsActive(Some(url), mode, path)
  {
  }

  /** Exact mode: active exactly when the `href` equals the path, with no normalisation. */
  lemma ExactModeIff(url: string, path: string)
    requires !IsExternal(url)
    ensures IsActive(Some(url), Some(ExactMode), path) <==> url == path
  {
  }

  /** Every mode other than `exact`, absent included, gives the same answer. */
  lemma NonExactModesAgree(href: Option<string>, m1: Option<string>, m2: Option<string>, path: string)
    requires m1 != Some(ExactMode) && m2 != Some(ExactMode)
    ensures IsActive(href, m1, path) == IsActive(href, m2, path)
    ensures IsActive(href, m1, path) == IsActive(href, None, path)
  {
  }

  /** Prefix mode, `href` starting with `/`: active exactly when the path starts with `href`. */
  lemma AbsolutePrefixIff(url: string, mode: Option<string>, path: string)
    requires |url| > 0 && url[0] == '/' && !IsExternal(url)
    requires mode != Some(ExactMode)
    ensures IsActive(Some(url), mode, path) <==> StartsWith(path, url)
  {
    AnchoredSearch(url, path);
  }

  /** Prefix mode, relative `href`: active exactly when `href` starts a segment of the path. */
  lemma RelativeSegmentIff(url: string, mode: Option<string>, path: string)
    requires !(|url| > 0 && url[0] == '/') && !IsExternal(url)
    requires mode != Some(ExactMode)
    ensures IsActive(Some(url), mode, path) <==> OccursAtSegmentStart(path, url)
  {
    SegmentSearch(url, path);
  }

  /** Prefix mode accepts every path exact mode accepts: the `href` itself. */
  lemma ExactImpliesPrefix(url: string, mode: Option<string>, path: string)
    requires mode != Some(ExactMode)
    requires IsActive(Some(url), Some(ExactMode), path)
    ensures IsActive(Some(url), mode, path)
  {
  }

  /** `/docs` is active under `/docs/page` but not under `/other/docs`. */
  lemma AbsoluteExamples()
    ensures IsActive(Some("/docs"), None, "/docs/page")
    ensures !IsActive(Some("/docs"), None, "/other/docs")
  {
    SitePathNotExternal("/docs");
    AbsolutePrefixIff("/docs", None, "/docs/page");
    AbsolutePrefixIff("/docs", None, "/other/docs");
  }

  /** `guide` is active under `/site/guide/intro`: it follows the `/` at index 5. */
  lemma RelativeMatchExample()
    ensures IsActive(Some("guide"), None, "/site/guide/intro")
  {
    var path := "/site/guide/intro";
    RelativeSegmentIff("guide", None, path);
    assert path[6..11] == "guide";
    assert SegmentStartAt(path, "guide", 6);
  }

  /** `guide` is not active under `/siteguide`: there it does not begin a segment. */
  lemma RelativeMismatchExample()
    ensures !IsActive(Some("guide"), None, "/siteguide")
  {
  }

  /** An empty `href` is relative and so is active on every page. */
  lemma EmptyHrefAlwaysActive(mode: Option<string>, path: string)
    requires mode != Some(ExactMode)
    ensures IsActive(Some(""), mode, path)
  {
  }

  /** The site root `/` in prefix mode is active on every page whose path starts with `/`. */
  lemma RootPrefixMatchesEveryPage(mode: Option<string>, path: string)
    requires mode != Some(ExactMode) && StartsWith(path, "/")
    ensures IsActive(Some("/"), mode, path)
  {
  }

  /** Several entries can be active at once: a section link and a page link under it. */
  lemma SeveralActiveAtOnce()
    ensures IsActive(Some("/docs"), None, "/docs/guide")
    ensures IsActive(Some("/docs/guide"), Some(ExactMode), "/docs/guide")
  {
    SitePathNotExternal("/docs");
    SitePathNotExternal("/docs/guide");
    AbsolutePrefixIff("/docs", None, "/docs/guide");
  }
}
