# react-markdown-github, modelled in Dafny

`react-markdown-github` wraps a Markdown renderer for documents hosted on
GitHub. It does three things. It gives every heading a GitHub-style anchor
id. It rewrites the document's relative links against the document's own
GitHub URL. It lets the page supply callbacks that override link and image
URLs.

This project models the parts of it that compute something:

- **The heading slugger** (`GithubSlugify`, `gh_slugify.dfy`).
  `replace` is a pure function: lower-case, trim, drop everything outside
  `[A-Za-z0-9_\- ]`, and turn each space into `-`. Heading content is a tree of
  text leaves and inline elements, flattened before slugging. A class with a
  map field counts repeats: a base slug seen `k` times before gets `base-k`.
  `reset` clears the counts.
- **URL handling** (`url.dfy`, `links.dfy`). The package `url-parse` is
  replaced by URI reference resolution as section 5.2 of RFC 3986 defines it:
  split into scheme, authority, path and fragment; merge paths; remove dot
  segments. On top of it sit the positional reading of a GitHub blob URL
  (`/org/repo/blob/branch/path...`), the three-way link normalisation (with
  absolute-path links taken from the repository root; see Findings), and the
  "a truthy callback answer wins" rule.
- **The current component** (`component.dfy`, `src/component.js`). A class
  holds props, state and a `GithubSlugify`. State is re-derived only when the
  `sourceUri` prop changes. Links and images go through the override
  callbacks. Each heading gets `id == slug` and `href == "#" + slug`. The
  slugger is reset at the start of every render, and the model proves that a
  second render gives the same ids.
- **The older component** (`legacy_component.dfy`, `src/index.js`). It has no
  `branch` field, and its link callback is called `resolver`, which receives
  the link under the key `url`. The heading title is built child by child.
  The `slugify` package is an uninterpreted function. Repeats get the bare
  count (`header1`). The count table lives on the component and is never
  cleared, so re-rendering moves ids on (proved).
- **The slug table as JavaScript sees it** (`js_object_table.dfy`). Both
  components keep their counts in an object literal `{}`, whose lookups fall
  back to `Object.prototype`; see Findings.

Shared helpers: `wrappers.dfy` (`Option`) and `strings.dfy` (ASCII case
mapping, the ECMAScript white-space set, `split`/`join` on one character,
case-insensitive search, decimal numerals).

Operations that update state in place are Dafny methods with `modifies`
clauses on classes: `slug`, `slugNode`, `reset`, `renderHeading`, the render
pass and the prop update. Each is proved against a pure specification:

- `Suffixed` and `Counted` for one call;
- the pass functions `PassIds` and `CountsAfter` for a sequence of calls.

Loops that build a string with `+=` are methods with loop invariants:
`extractString`, `slugNode` and the older `renderHeading`. The URL functions
and the state derivation are pure functions.

## Model

| member | source | states |
|---|---|---|
| Strings.Lower | src/gh-slugify.js:44 | `toLowerCase` keeps the length and maps each character through ASCII lower-casing |
| Strings.Split | src/component.js:38 | `split('/')` gives at least one part, no part holds the separator, and joining the parts gives the input back |
| Strings.SplitJoin | src/component.js:38-40 | splitting a join of separator-free parts gives the parts back |
| Strings.JoinAt | src/component.js:40 | joining an array equals joining its two halves with one separator between |
| Strings.ContainsNonLetter | src/component.js:90 | a case-insensitive match of a non-letter character occurs literally (the `#` after the file name is present) |
| Strings.NatToStringInjective | src/gh-slugify.js:82 | distinct counts render as distinct numerals |
| Strings.DecimalRoundTrip | src/gh-slugify.js:82 | reading the numeral of a count back gives the count |
| GhSlugify.Trim | src/gh-slugify.js:44 | `trim` result is no longer than its input and neither starts nor ends with white space |
| GhSlugify.TrimStartIsSuffix | src/gh-slugify.js:44 | removing leading white space drops a prefix made only of white space |
| GhSlugify.TrimEndIsPrefix | src/gh-slugify.js:44 | removing trailing white space drops a suffix made only of white space |
| GhSlugify.StripPunctuation | src/gh-slugify.js:45 | what survives `/[^\w\- ]/g` consists only of word characters, `-` and space |
| GhSlugify.Hyphenate | src/gh-slugify.js:46 | each white-space character becomes one `-` at the same position, every other character stays |
| GhSlugify.Replace | src/gh-slugify.js:43-47 | lower-case, trim, filter, hyphenate; `ReplaceIsSlug`, `ReplaceIdempotent`, `ReplaceSpaces`, `ReplacePadding` and `ReplaceTrailingSymbol` state what it gives |
| GhSlugify.ReplaceIsSlug | src/gh-slugify.js:43-47 | every base slug consists only of `a-z`, `0-9`, `_` and `-` |
| GhSlugify.ReplaceIdempotent | src/gh-slugify.js:43-47 | `replace(replace(t)) == replace(t)` for every text |
| GhSlugify.ReplaceOfSlug | src/gh-slugify.js:43-47 | a string made only of slug characters is its own base slug |
| GhSlugify.ReplaceSpaces | src/gh-slugify.js:46 | the slug has exactly the filtered text's length; each surviving space is one `-` at the same position (runs are not collapsed) |
| GhSlugify.ReplacePadding | src/gh-slugify.js:44 | leading and trailing white space does not change the slug |
| GhSlugify.TrimPadding | src/gh-slugify.js:44 | `trim` removes exactly the white space added around a text |
| GhSlugify.ReplaceTrailingSymbol | src/gh-slugify.js:44-45 | because trimming precedes filtering, `text + " " + symbol` slugs to the slug of `text` plus `-` (`copy ©` gives `copy-`) |
| GhSlugify.ReplaceSlugThenSymbol | test/slug.test.js:35 | a slug followed by a space and a dropped symbol slugs to itself plus `-`: `copy ©` gives `copy-` |
| GhSlugify.StripAppend | src/gh-slugify.js:45 | the filter works character by character: it distributes over concatenation |
| GhSlugify.FlattenIsConcatOfLeaves | src/gh-slugify.js:55-69 | a node's text is its leaf texts, depth-first and left to right, with no separator |
| GhSlugify.FlattenAllIsConcatOfLeaves | src/gh-slugify.js:94-98 | the text of a child list is the concatenation of all its leaves in order |
| GhSlugify.ExtractString | src/gh-slugify.js:55-69 | the loop builds exactly the node's flattened text |
| GhSlugify.CountedOnlyBase | src/gh-slugify.js:80-84 | one use of a base raises that base's count by one and leaves every other count unchanged |
| GhSlugify.SuffixedInjective | src/gh-slugify.js:81-83 | different counts give different ids for one base; a suffixed id is never the bare base |
| GhSlugify.Counted | src/gh-slugify.js:80-84 | the table with one more use of a base; `CountedOnlyBase` states it |
| GhSlugify.Suffixed | src/gh-slugify.js:81-83 | the base, with `-k` when it was used `k > 0` times; `SuffixedInjective` states it |
| GhSlugify.PassIds | src/gh-slugify.js:77-86 | the ids of a pass from a given table; `PassIdAt`, `FreshPassIdAt`, `SameBaseDistinctIds` state them |
| GhSlugify.GithubSlugify.constructor | src/gh-slugify.js:32-35 | a new slugger starts with an empty table |
| GhSlugify.GithubSlugify.Slug | src/gh-slugify.js:77-86 | the id is the base slug, suffixed `-k` when it was seen `k > 0` times before; the table afterwards is the old one with that base's count raised by one |
| GhSlugify.GithubSlugify.SlugNode | src/gh-slugify.js:94-100 | concatenates the text of all children, then slugs it exactly once, with the same id and table as `Slug` of that text |
| GhSlugify.GithubSlugify.Reset | src/gh-slugify.js:107-109 | the table is empty afterwards |
| GhSlugify.CountsAfterCounts | src/gh-slugify.js:80-84 | after a pass, each base's count is its old count plus its occurrences in the pass |
| GhSlugify.PassIdAt | src/gh-slugify.js:77-86 | the i-th id of a pass is its base suffixed with the count of earlier uses, in the table and earlier in the pass |
| GhSlugify.FreshPassIdAt | src/gh-slugify.js:107-109 | from an empty table (after `reset`) the first use of a base is bare and the k-th repeat is `base-k` |
| GhSlugify.FirstOccurrenceBare | test/slug.test.js:14-20 | a base not seen earlier in a fresh pass gets its bare slug, whatever other bases came before |
| GhSlugify.DistinctBasesStayBare | test/slug.test.js:59-69 | when no two headings of a fresh pass share a base, every id is the bare base |
| GhSlugify.SameBaseDistinctIds | src/gh-slugify.js:77-86 | two headings of one pass with the same base never get the same id |
| GhSlugify.RepeatsNumbered | test/slug.test.js:14-20 | for bases `a, b, a, a, b` the ids are `a, b, a-1, a-2, b-1` |
| GhSlugify.SuffixCanCollide | src/gh-slugify.js:82 | ids are not unique across bases: bases `x-1, x, x` give `x-1, x, x-1` |
| Url.FragmentOf | src/component.js:95 | a fragment exists exactly when there is a `#`, and is what follows the first one |
| Url.SplitScheme | src/component.js:91 | a split-off scheme satisfies the RFC 3986 `scheme` grammar, and nothing is lost |
| Url.SplitAuthority | src/component.js:91 | the authority holds no `/`, the path after it starts with `/`, and nothing is lost |
| Url.RecomposeParse | src/component.js:91 | recomposing a parsed reference gives the original text |
| Url.ParseFragment | src/component.js:37 | appending `#f` changes only the fragment component |
| Url.ParseAbsolute | src/component.js:37 | `scheme://host/path#f` parses into exactly those components |
| Links.ParseBlobUrl | src/component.js:37-38 | `scheme://host/p1/.../pn#f` parses into that scheme, host and path; its origin is `scheme://host` and `pathname.split('/')` gives back the segments written |
| Url.RemoveLast | src/component.js:91 | step 2C removes the output after its last `/` together with that `/`, or everything when there is none |
| Url.DotFreeUnchanged | src/component.js:91 | dot-segment removal leaves a path with no `.` or `..` segment unchanged |
| Url.Directory | src/component.js:91 | the base directory is a prefix of the path ending in `/` (or empty) |
| Url.ResolveKeepsFragment | src/component.js:91 | the resolved URL carries the link's fragment |
| Url.ResolveAbsolute | src/component.js:96 | an absolute link with a dot-free path resolves to itself whatever the base |
| Url.RdsSiblingDot | src/component.js:91 | a leading `./` is dropped in the resolved path |
| Url.ResolveSibling | src/component.js:91-96 | `q` or `./q` against `.../dir/file` has path `dir/q`, the base's scheme and host, and the link's fragment |
| Url.RemoveDotSegments | src/component.js:91 | section 5.2.4 of RFC 3986 by its steps 2A-2E; its properties are `DotFreeUnchanged`, `RdsSiblingDot`, `RdsParent` |
| Url.RemoveLastSegment | src/component.js:91 | step 2C drops exactly the last segment: `d/s` becomes `d` for a slash-free `s` |
| Url.RdsParent | src/component.js:91 | a `..` segment cancels the segment before it: `d/s/../q` becomes `d/q` |
| Url.ResolveParent | src/component.js:91-96 | `../q` against `.../dir/sub/file` has path `dir/q`, the base's scheme and host, and the link's fragment |
| Url.ParseAbsolutePath | src/component.js:91 | `/p` (no `#`, not `//`) parses as an absolute-path reference with path `/p` |
| Url.ResolveAbsolutePath | src/component.js:91 | an absolute-path reference keeps the base's scheme and authority and loses only its dot segments |
| Url.Parse | src/component.js:91 | splits a reference into scheme, authority, path and fragment; `RecomposeParse`, `ParseAbsolute` and `ParseFragment` state what it gives |
| Url.Recompose | src/component.js:96 | `href` of a parsed reference; `RecomposeParse` proves it the inverse of `Parse` |
| Url.Resolve | src/component.js:91 | section 5.2.2 of RFC 3986 without the query; `ResolveKeepsFragment`, `ResolveAbsolute`, `ResolveSibling`, `ResolveParent` and `ResolveAbsolutePath` state its cases |
| Links.Origin | src/component.js:37-45 | a non-`null` origin is `scheme://host` of the URL |
| Links.FilePathEndsWithFileName | src/component.js:40-41 | with at least six segments, `filepath` is longer than `filename` and ends with it |
| Links.FilePathIsTail | src/component.js:38-41 | the path is its first five segments joined, followed by `filepath` |
| Links.HashOf | src/component.js:95 | `hash` is `#` and the fragment when the link has a `#`, and empty otherwise |
| Links.IsPureHash | src/component.js:86-88 | `/^#/`: the link starts with `#`; `NormalizePureHash` gives its outcome |
| Links.MentionsFileAnchor | src/component.js:90-92 | a case-insensitive search for the file name followed by `#`; `NormalizeSameFile`, `SameNameElsewhereCollapses` and `ContainsNonLetter` state its consequences |
| Links.Href | src/component.js:91-96 | `new URL(uri, base).href`: `NormalizeAbsolute`, `NormalizeSibling` and `RootLinkLeavesRepo` give its results |
| Links.NormalizeLinkAsWritten | src/component.js:81-97 | `normalizeLinkUri` as written: pure hash, same-file `#fragment`, else `Href`; `RootLinkLeavesRepo` shows its absolute-path case (see Findings) |
| Links.RepoRoot | src/component.js:12-13 | the repository root exists exactly when the path has a leading empty segment and at least five segments, and is those five segments joined, starting with `/` |
| Links.RepoHref | src/component.js:12-13 | resolution with an absolute-path link put under the repository root; other links as `Href` |
| Links.NormalizeLink | src/component.js:81-97 | `normalizeLinkUri` with the correction of Findings; `NormalizeLinkElsewhere` shows it equals the code for every link that is not an absolute-path reference |
| Links.NormalizeLinkElsewhere | src/component.js:91 | for any link that is not an absolute-path reference the corrected normalisation equals the code's |
| Links.RootLinkLeavesRepo | src/component.js:91 | as written, `/p` against `scheme://host/org/repo/blob/branch/file` gives `scheme://host/p`, outside the repository |
| Links.NormalizeRootRelative | src/component.js:12-13 | corrected, `/p` gives `scheme://host` + repository root + `/p`, as the documented example `/foo/bar.md` says |
| Links.NormalizePureHash | src/component.js:86-88 | a link starting with `#` is returned unchanged |
| Links.NormalizeSameFile | src/component.js:90-95 | a link naming the current file before `#` (any case, any prefix) becomes `#` and what follows its first `#` |
| Links.SameNameElsewhereCollapses | src/component.js:90-92 | `dir/README.md#x` collapses to `#x` even when `dir` is another directory |
| Links.NormalizeAbsolute | src/component.js:94-96 | an absolute link with a dot-free path that does not name the current file comes back unchanged |
| Links.NormalizeSibling | src/component.js:91-96 | a relative link `q`, `./q` or `q#f` resolves next to the source file, keeping its fragment |
| Links.Choose | src/component.js:112 | no callback gives the fallback; a truthy answer wins; a falsy answer gives the fallback |
| Links.ChooseIsAnswerOrFallback | src/component.js:112 | the result is the fallback or the callback's own non-empty answer, nothing else |
| Component.NormalizeGithubUrl | src/component.js:36-52 | fields exist exactly for a URL with a scheme |
| Component.FieldsOf | src/component.js:37-51 | fields exist exactly for an absolute parsed URL |
| Component.GithubUrlFields | src/component.js:36-52 | for `scheme://host/org/repo/blob/branch/path...#f`: `github = scheme://host/`, `org`, `repo`, `branch` by position, `filename` the last segment, `filepath = "/" + segments[5..]` joined |
| Component.GithubUrlIgnoresHash | src/component.js:36-37 | a `#hash` on the source URL changes no field |
| Component.GetDerivedStateFromProps | src/component.js:62-70 | `null` exactly when `sourceUri` equals the cached one; otherwise a state for the new `sourceUri` carrying `normalizeGithubUrl(sourceUri)`'s fields |
| Component.DerivedStateIsCached | src/component.js:62-70 | once derived, the same prop yields `null` and the state stays as it is |
| Component.NextStateConsistent | src/component.js:62-70 | a consistent state stays consistent: its fields are always those of its own `sourceUri` |
| Component.MarkdownGithub.constructor | src/component.js:20-28 | a new component holds a fresh slugger with an empty table and the state derived from its props |
| Component.MarkdownGithub.ReceiveProps | src/component.js:62-70 | new props re-derive the state through `getDerivedStateFromProps`; the slugger is untouched |
| Component.MarkdownGithub.NormalizeLinkUri | src/component.js:81-97 | pure hash verbatim; same-file link its `#fragment`; anything else resolved against `sourceUri`, with absolute-path links under the repository root (see Findings) |
| Component.MarkdownGithub.TransformLinkUri | src/component.js:108-113 | the callback sees the state, `uri = normalized`, `children` and `title`; its truthy answer wins, otherwise `normalized` |
| Component.MarkdownGithub.TransformImageUri | src/component.js:122-126 | the callback sees the raw uri; its truthy answer wins, otherwise the raw uri |
| Component.MarkdownGithub.RenderHeading | src/component.js:139-150 | `id` is `slugNode` of the children and `href == "#" + id`; the slugger's table gains one use of the base |
| Component.MarkdownGithub.Render | src/component.js:161 | every render starts with an empty slug table |
| Component.MarkdownGithub.RenderPass | src/component.js:156-170 | a render gives the i-th heading the i-th id of a fresh pass over the headings' bases |
| Component.Headings | src/component.js:143-146 | each heading record has its level, its id and `href == "#" + id` |
| Component.RerenderIsStable | src/component.js:161 | rendering the same document twice gives the same headings |
| LegacyComponent.NormalizeGithubUrl | src/index.js:36-50 | fields exist exactly for a URL with a scheme |
| LegacyComponent.FieldsOf | src/index.js:37-49 | fields exist exactly for an absolute parsed URL |
| LegacyComponent.GithubUrlFields | src/index.js:36-50 | the same positional fields as the current component, with no `branch` |
| LegacyComponent.GetDerivedStateFromProps | src/index.js:60-68 | `null` exactly when `sourceUrl` equals the cached one; otherwise a state for the new `sourceUrl` carrying `normalizeGithubUrl(sourceUrl)`'s fields |
| LegacyComponent.DerivedStateIsCached | src/index.js:60-68 | once derived, the same prop yields `null` and the state stays |
| LegacyComponent.TitleAppend | src/index.js:140-146 | the title of a child list is the titles of its parts, concatenated |
| LegacyComponent.InlineThenText | src/index.js:141-145 | an inline element adds its text and one space, plain text adds itself |
| LegacyComponent.ChildText | src/index.js:141-145 | an inline element contributes its text and one space, a plain child itself; `InlineThenText` states it |
| LegacyComponent.Title | src/index.js:140-146 | the title of a child list; `TitleAppend` and `BuildTitle` state it |
| LegacyComponent.BuildTitle | src/index.js:138-146 | the loop builds exactly the title of the children |
| LegacyComponent.BareSuffixedInjective | src/index.js:152-154 | different counts give different ids for one slug |
| LegacyComponent.BareSuffixed | src/index.js:151-156 | the slug, followed by the bare count when it is not 0; `BareSuffixedInjective` states it |
| LegacyComponent.PassIds | src/index.js:148-156 | the ids of a pass from a given table; `PassIdAt`, `RepeatsNumbered`, `RerenderChangesIds` state them |
| LegacyComponent.PassIdAt | src/index.js:148-156 | the i-th id of a pass is its slug followed by the bare count of earlier uses, in the table and earlier in the pass |
| LegacyComponent.RepeatsNumbered | test/index.test.js:109-116 | three headings with one slug get `s`, `s1`, `s2` |
| LegacyComponent.BareSuffixCollides | src/index.js:153 | slugs `header, header, header1` give a duplicate id `header1` |
| LegacyComponent.RerenderChangesIds | src/index.js:26 | the table is never cleared, so a second pass gives the first heading a different id |
| LegacyComponent.LegacyMarkdownGithub.constructor | src/index.js:20-28 | a new component has an empty slug table |
| LegacyComponent.LegacyMarkdownGithub.ReceiveProps | src/index.js:60-68 | new props re-derive the state only through `getDerivedStateFromProps`; the slug table stays |
| LegacyComponent.LegacyMarkdownGithub.NormalizeLinkUri | src/index.js:79-95 | pure hash verbatim; same-file link its `#fragment`; anything else resolved against `sourceUrl`, with absolute-path links under the repository root (see Findings) |
| LegacyComponent.LegacyMarkdownGithub.TransformLinkUri | src/index.js:106-111 | `resolver` sees the state and `url = normalized`; its truthy answer wins, otherwise `normalized` |
| LegacyComponent.LegacyMarkdownGithub.TransformImageUri | src/index.js:120-124 | the callback sees the raw url; its truthy answer wins, otherwise the raw url |
| LegacyComponent.LegacyMarkdownGithub.RenderHeading | src/index.js:137-166 | `id` is `slugify(title)` followed by the bare count of earlier uses (none when 0), `href == "#" + id`; only that slug's count goes up |
| LegacyComponent.RenderPass | src/index.js:148-156 | one render continues numbering from the table left by earlier renders; props and state are left as they were |
| LegacyComponent.RerenderDrifts | src/index.js:151-156 | rendering the same headings twice on one instance changes the first id |
| JsObjectTable.ConstructorIsNeverBare | src/gh-slugify.js:80-83 | the first heading whose slug is `constructor` gets `constructor-function Object() { [native code] }` |
| JsObjectTable.ConstructorTwice | src/gh-slugify.js:80-84 | the second gets the function text with `1` appended |
| JsObjectTable.AgreesOffPrototype | src/gh-slugify.js:80-84 | for every other slug the object table and the model's own-key table give the same id and counts |
| JsObjectTable.AgreesOffPrototypeBare | src/index.js:151-156 | the same agreement for the older component's bare suffix |

## Left out

- React rendering (JSX, `ReactMarkdown`, `propTypes`, the `renderers` prop) is left out. A heading is only the record `(level, id, href)`. A render is the heading pass, run in document order.
- Query strings are left out. `url-parse` also lower-cases, percent-encodes, handles userinfo and ports in the origin, and handles protocol-relative URLs; none of this is modelled. The query stays in the path, and the origin is `scheme://authority`.
- Links.Href: a relative link with no absolute `sourceUri` is kept as written. `url-parse` would resolve it against the global `location`, which is the page's own URL in a browser and is empty only where there is no such location.
- Links.Href: dot segments (`.` and `..`) in absolute links and in absolute-path links are removed here, as section 5.2.2 of RFC 3986 prescribes. `url-parse` removes them only when it resolves a relative path that does not start with `/`, so `https://h/a/../b` and `/a/../b` keep their `..` in the code.
- Component.NormalizeGithubUrl: a `sourceUri` without a scheme gives no fields. `url-parse` would still return fields, resolving the text against the global `location` (the page's URL in a browser).
- LegacyComponent.NormalizeGithubUrl: a `sourceUrl` without a scheme gives no fields. `url-parse` would still return fields, resolving the text against the global `location` (the page's URL in a browser).
- Component.MarkdownGithub.NormalizeLinkUri: models the corrected resolution of absolute-path links. `/p` is taken from the repository root `/org/repo/blob/branch`, where src/component.js:91 takes it from the host root. TransformLinkUri passes the corrected link to the callback. The code's own behaviour is Links.NormalizeLinkAsWritten (see Findings).
- LegacyComponent.LegacyMarkdownGithub.NormalizeLinkUri: models the same corrected resolution, where src/index.js:89 takes `/p` from the host root. TransformLinkUri passes the corrected link to `resolver`.
- Links.MentionsFileAnchor: the regular expression `.?/?${filename}#(.*)$` is read as a literal, case-insensitive search for the file name followed by `#`. The code puts the file name into the pattern unescaped, so every regular-expression metacharacter in it changes the match: `.` matches any character, and `+`, `*`, `?`, `[...]`, `(...)`, `|`, `^`, `$` and `\` act as operators (`a+b.md` also matches `aab.md`). A name that is not a valid pattern (`c++.md`, `a(b.md`) makes `new RegExp` throw a `SyntaxError`, which escapes `normalizeLinkUri` for every link that is not a pure hash. The model assumes a file name free of metacharacters and returns a value in every case.
- Links.MentionsFileAnchor: a line terminator after the `#` stops the code's `(.*)$`; the model does not stop there.
- Strings.Lower: case mapping covers ASCII letters only. Unicode case mapping, and the characters the source's own comment calls a known gap, are out of scope. The white-space set is the full ECMAScript one.
- The literal slug examples of `test/slug.test.js` are not stated one string at a time. The general lemmas cover the patterns they show: `ReplaceSpaces` (one `-` per space), `ReplacePadding` (outer white space), `ReplaceTrailingSymbol` and `ReplaceSlugThenSymbol` (`copy ©` gives `copy-`, with the slug `copy`), and `RepeatsNumbered` (the numbering sequence).
- The concrete GitHub URL examples of the component tests are stated for a general URL, in `Component.GithubUrlFields`, instead of on literal URLs.
- GhSlugify.ExtractString: a non-array object or falsy `props.children` falls through to string conversion of the node. That case is left out. A node is a text leaf or an element with a child list.
- LegacyComponent.Title: children are plain text or inline elements whose `props.children` is a string. An array of children in an inline element (stringified with commas in the code) is not modelled. An inline element with an empty string contributes `[object Object]`.
- LegacyComponent.LegacyMarkdownGithub.slugify: the `slugify` package is an uninterpreted function. Only the counter around it is modelled.
- Override callbacks are pure function values returning an optional string. Exceptions they throw, their side effects, and non-string truthy answers are left out.
- The context handed to the callbacks carries the state record, not the state's fields spread into one object.
- `Object.prototype` is modelled only through `constructor`, in `JsObjectTable`. The key `__proto__` (a heading made of the code span `` `__proto__` ``) is left out. Its reads and writes go through the prototype accessor, which ignores the number written back, and the model does not capture that accessor.

## Findings

| source | as written | input that shows it | evidently intended | confidence | as-written member | corrected member |
|---|---|---|---|---|---|---|
| src/gh-slugify.js:80-84 | the count table is an object literal `{}`, and `this.slugs[slug] \|\| 0` reads inherited properties | a heading `Constructor`: its slug `constructor` reads the inherited `Object` function, which is truthy, so the id is `constructor-function Object() { [native code] }` | the first heading with slug `constructor` gets the id `constructor` (a table with own keys only, such as `Object.create(null)` or a `Map`) | not executed | JsObjectTable.ConstructorIsNeverBare | GhSlugify.GithubSlugify.Slug |
| src/index.js:151-156 | the same object-literal table in the older component | a heading whose slug is `constructor` gets `constructorfunction Object() { [native code] }` | the first such heading gets the id `constructor` | not executed | JsObjectTable.ConstructorIsNeverBare | LegacyComponent.LegacyMarkdownGithub.RenderHeading |
| src/component.js:91 | `new URL(uri, sourceUri)` resolves an absolute-path link against the host: only the source's scheme and host are kept | `/foo/bar.md` with `sourceUri` `https://github.mycorp.com/org/component/blob/master/README.md` gives `https://github.mycorp.com/foo/bar.md`, a page outside the repository | the component's own documentation (lines 12-13): `/foo/bar.md` becomes `https://github.mycorp.com/org/component/blob/master/foo/bar.md`, the link taken from the repository root, as GitHub itself renders it | not executed | Links.RootLinkLeavesRepo | Links.NormalizeRootRelative |
| src/index.js:89 | the same `new URL(url, sourceUrl)` in the older component | the same link and source URL give `https://github.mycorp.com/foo/bar.md` | the same documented example (lines 12-13) | not executed | Links.RootLinkLeavesRepo | LegacyComponent.LegacyMarkdownGithub.NormalizeLinkUri |

`JsObjectTable.AgreesOffPrototype` and `JsObjectTable.AgreesOffPrototypeBare` show that the correction changes nothing for any other slug. `GhSlugify.FirstOccurrenceBare` proves the intended property for the corrected table.

Both components normalise links with the corrected `Links.NormalizeLink`, which differs from the code (`Links.NormalizeLinkAsWritten`) only for absolute-path links such as `/foo/bar.md`, and only when the source URL has a repository root `/org/repo/blob/branch`; `Links.NormalizeLinkElsewhere` proves that every other link is treated as the code treats it.
