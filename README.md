# LensKit website: the two "current navigation entry" rules

The LensKit project website decides in two places which navigation link
belongs to the page being viewed:

- the browser script `s/lenskit.js` walks the side navigation, reads each
  link's `href` and optional `data-match` attribute, and adds the `active`
  class to every entry that matches `window.location.pathname`;
- the site generator's helper `nav_class(item, entry)` in
  `lib/helpers/nav.rb` returns the class `"current"` or `""` for a top
  navigation entry while rendering a page.

The project models both, in three modules:

- `Common` (`common.dfy`): `Option` and `StartsWith`.
- `SideNav` (`side_nav.dfy`): the per-entry decision `IsActive` as a function,
  the regular expression the script builds as a `Pattern` with a search
  (`Search`) that tries every start index as a JavaScript regular-expression
  match does, the proof that this search means "the path starts with the
  href" or "the href begins a path segment", and the marking loop
  `MarkActive` as a method over a boolean array (the `active` classes).
- `LenskitNavigation` (`nav_helper.dfy`): `ClassFor` on a present path and
  URL, and `NavClass` on an item and an entry hash, including the exceptions
  Ruby raises when the path or the URL is `nil`.

The page, the DOM and `window.location` are parameters: an entry is its
`href` and `data-match` values (`None` for an absent attribute or a `li`
without a link), the path is a string, and the `active` classes are an
`array<bool>`.

The script knows one `data-match` value, `exact`. Every other value,
including one of the form `re:<pattern>`, falls through to prefix matching,
and the model does the same.

## Model

| member | source | states |
|---|---|---|
| `SideNav.IsActive` | s/lenskit.js:5-22 | an active entry has an `href` that is neither absolute nor protocol-relative; in `exact` mode it is active iff the href equals the path |
| `SideNav.MarkActive` | s/lenskit.js:4-26 | every entry ends up marked iff it was already marked or it matches the path on its own; unmatched entries are unchanged |
| `SideNav.SearchFromIff` | s/lenskit.js:20-21 | the regular-expression search from index k succeeds iff the pattern matches at some start index between k and the end of the path |
| `SideNav.AnchoredSearch` | s/lenskit.js:15-16 | the pattern `'^' + url` is found iff the path starts with `url` |
| `SideNav.SegmentSearch` | s/lenskit.js:17-18 | the pattern `'(^\|/)' + url` is found iff `url` occurs at index 0 of the path or right after a `/` |
| `SideNav.SitePathNotExternal` | s/lenskit.js:6 | an href that starts with one `/` followed by a character other than `/` passes the external-URL guard |
| `SideNav.MissingHrefNeverActive` | s/lenskit.js:5-7 | an entry without an `href` is never active, whatever the mode and path |
| `SideNav.ExternalNeverActive` | s/lenskit.js:6-7 | an href starting with `http://`, `https://` or `//` is never active, whatever the mode and path |
| `SideNav.ExactModeIff` | s/lenskit.js:11-12 | with `data-match="exact"` the entry is active iff the href equals the path, with no normalisation |
| `SideNav.NonExactModesAgree` | s/lenskit.js:9-21 | every `data-match` value other than `exact` gives the same result as an absent attribute |
| `SideNav.AbsolutePrefixIff` | s/lenskit.js:15-21 | in prefix mode an href starting with `/` is active iff the path starts with the href |
| `SideNav.RelativeSegmentIff` | s/lenskit.js:17-21 | in prefix mode a relative href is active iff it occurs at the start of the path or immediately after a `/` |
| `SideNav.ExactImpliesPrefix` | s/lenskit.js:11-21 | whatever exact mode accepts, prefix mode accepts too |
| `SideNav.AbsoluteExamples` | s/lenskit.js:15-21 | `/docs` is active under `/docs/page` and not under `/other/docs` |
| `SideNav.RelativeMatchExample` | s/lenskit.js:17-21 | `guide` is active under `/site/guide/intro` |
| `SideNav.RelativeMismatchExample` | s/lenskit.js:17-21 | `guide` is not active under `/siteguide` |
| `SideNav.EmptyHrefAlwaysActive` | s/lenskit.js:15-21 | an empty href counts as relative and is active on every page in prefix mode |
| `SideNav.RootPrefixMatchesEveryPage` | s/lenskit.js:15-16 | an href of `/` in prefix mode is active on every page whose path starts with `/` |
| `SideNav.SeveralActiveAtOnce` | s/lenskit.js:4-25 | a section link and an exact link to a page inside it are both active on that page |
| `LenskitNavigation.ClassFor` | lib/helpers/nav.rb:4-8 | the class is always one of exactly two strings, `"current"` or `""` |
| `LenskitNavigation.NavClass` | lib/helpers/nav.rb:2-9 | on a present path and URL the class is `ClassFor` of them; equal path and URL (`nil` and `nil` included) give `"current"`; a path other than the URL `/` (a `nil` path included) gives `""`; it raises exactly when path and URL differ, the URL is not `/`, and one of them is `nil` (`NoMethodError` for a `nil` path, `TypeError` for a `nil` URL) |
| `LenskitNavigation.EqualPathIsCurrent` | lib/helpers/nav.rb:4-5 | an item whose path equals the URL is `"current"`, also when the URL is `/` |
| `LenskitNavigation.RootMatchesOnlyItself` | lib/helpers/nav.rb:4 | for the URL `/` the class is `"current"` iff the path is exactly `/` |
| `LenskitNavigation.NonRootIsPrefixRule` | lib/helpers/nav.rb:4-5 | for any URL other than `/` the class is `"current"` iff the path starts with the URL |
| `LenskitNavigation.OtherwiseNotCurrent` | lib/helpers/nav.rb:4-8 | when the path differs from the URL and the URL is `/` or no prefix of the path, the class is `""` |
| `LenskitNavigation.EmptyUrlAlwaysCurrent` | lib/helpers/nav.rb:4 | an empty URL makes every item `"current"` |
| `LenskitNavigation.OnlyPathAndUrlMatter` | lib/helpers/nav.rb:2-4 | two calls whose items have equal paths and whose entries have equal URLs give the same result, whatever the other fields |
| `LenskitNavigation.SectionExample` | lib/helpers/nav.rb:4-8 | `/docs/` marks `/docs/guide/` and not `/news/`; `/` does not mark `/docs/guide/` |

## Left out

- `IsActive`: reads the href as a literal string. The script splices the href into a `RegExp` without escaping it (s/lenskit.js:16-20). For an href without regular-expression metacharacters (`\ ^ $ . | ? * + ( ) [ ] { }`) the model and the script agree. For any other href the script's pattern means something else: `.` in `index.html` matches any character, for example, and an unbalanced `(` throws. General regular-expression semantics are not modelled.
- MarkActive: assumes every entry's decision completes. In the script an `href` that is not a valid regular expression makes `new RegExp` throw inside the `.each` callback (s/lenskit.js:20), which stops the loop, so the entries after it are never marked; the model decides every entry.
- A regular-expression match mode (`data-match="re:..."`) and a viewport-width layout toggle: `s/lenskit.js` has neither, so neither is modelled.
- `$(document).foundation()` and `hljs.initHighlighting()` (s/lenskit.js:1-2): calls into UI and syntax-highlighting libraries, with no logic of their own.
- DOM access: the `$('.side-nav li')` query, `$('a', this).attr(...)` (the first link inside the `li`, `undefined` when there is none) and `addClass` are replaced by the `NavEntry` list and the boolean array.
- Strings are sequences of `char`; JavaScript's UTF-16 code units and Ruby's encodings are not distinguished.
- `nav_class` assumes `entry[:url]` and `item.path` are strings or `nil`; other Ruby values (a `Regexp` passed to `start_with?`, say) are not modelled.
- The build configurations (`Gulpfile.js`, `gulpfile.js`, `Gruntfile.js`), the footer-injecting stream `_lib/addfooter.js` and the constants in `lib/helpers/lenskit.rb` invoke external tools or hold fixed values, with no decision logic to verify.
