/**
 * The GitHub-specific link logic both components share: reading the fields of
 * a GitHub blob URL off its path by position, deciding what a markdown link
 * points at, and letting an optional callback override the result.
 */
module Links {
  import opened Wrappers
  import opened Strings
  import opened Url

  // ---------------------------------------------------------------------------
  // Fields of a GitHub source URL
  // ---------------------------------------------------------------------------

  /**
   * `origin` of a parsed URL: scheme, `://` and host for a URL with a host
   * (other than a `file` URL), and the string `null` otherwise.
   */
  function Origin(u: Uri): (o: string)
    ensures o != "null" ==> u.scheme.Some? && u.authority.Some? && o == u.scheme.value + "://" + u.authority.value
  {
    if u.scheme.Some? && u.authority.Some? && u.authority.value != "" && u.scheme.value != "file"
    then u.scheme.value + "://" + u.authority.value
    else "null"
  }

  /** `pathname.split('/')`. */
  function PathParts(u: Uri): (parts: seq<string>)
    ensures |parts| >= 1
  {
    Split(u.path, '/')
  }

  /** Array indexing: the `i`-th part, or `undefined` past the end. */
  function At(parts: seq<string>, i: nat): Option<string>
  {
    if i < |parts| then Some(parts[i]) else None
  }

  /** `parts.slice(5)`: the segments after `/org/repo/blob/branch`. */
  function FileSegments(parts: seq<string>): seq<string>
  {
    if |parts| <= 5 then [] else parts[5..]
  }

  /** `/${parts.slice(5).join('/')}`: the file's path inside the repository. */
  function FilePath(parts: seq<string>): string
  {
    "/" + Join(FileSegments(parts), '/')
  }

  /** `parts[parts.length - 1]`: the last segment. */
  function FileName(parts: seq<string>): string
    requires |parts| >= 1
  {
    parts[|parts| - 1]
  }

  /**
   * A GitHub blob URL `scheme://host/part1/.../partN#fragment` parses into that
   * scheme, host and path, and its origin and path segments are the ones written.
   */
  lemma ParseBlobUrl(scheme: string, host: string, parts: seq<string>, fragment: Option<string>)
    requires IsScheme(scheme) && scheme != "file"
    requires host != [] && '/' !in host && '#' !in host
    requires |parts| >= 2 && parts[0] == ""
    requires forall i :: 0 <= i < |parts| ==> '/' !in parts[i] && '#' !in parts[i]
    ensures var u := Uri(Some(scheme), Some(host), Join(parts, '/'), fragment);
            && Parse(scheme + "://" + host + Join(parts, '/') + FragmentText(fragment)) == u
            && Origin(u) == scheme + "://" + host
            && PathParts(u) == parts
  {
    var path := Join(parts, '/');
    JoinExcludes(parts, '/', '#');
    SplitJoin(parts, '/');
    assert path == "" + "/" + Join(parts[1..], '/');
    ParseAbsolute(scheme, host, path, fragment);
  }

  /** With a file below the branch, the file path ends with the file name. */
  lemma FilePathEndsWithFileName(parts: seq<string>)
    requires |parts| >= 6
    ensures var p, n := FilePath(parts), FileName(parts);
            |n| < |p| && p[|p| - |n|..] == n
  {
    JoinEndsWithLast(parts[5..], '/');
    assert parts[5..][|parts[5..]| - 1] == parts[|parts| - 1];
  }

  /** The file path is exactly what follows the first five segments of the path. */
  lemma FilePathIsTail(u: Uri)
    requires |PathParts(u)| >= 6
    ensures u.path == Join(PathParts(u)[..5], '/') + FilePath(PathParts(u))
  {
    var parts := PathParts(u);
    JoinAt(parts, '/', 5);
    AppendAssoc(Join(parts[..5], '/'), "/", Join(parts[5..], '/'));
  }

  // ---------------------------------------------------------------------------
  // Classifying and resolving a markdown link
  // ---------------------------------------------------------------------------

  /** `/^#/`: a link to an anchor of the current page. */
  predicate IsPureHash(uri: string)
  {
    uri != [] && uri[0] == '#'
  }

  /**
   * `new RegExp(`.?/?${filename}#(.*)$`, 'i').test(uri)`, read as a
   * case-insensitive search for the file name followed by `#`: the optional
   * prefix `.?/?` and the trailing `(.*)$` accept anything around it.
   */
  predicate MentionsFileAnchor(uri: string, filename: string)
  {
    ContainsIgnoringCase(uri, filename + "#")
  }

  /** `hash` of a parsed URL: `#` and the fragment, or empty without one. */
  function HashOf(uri: string): (h: string)
    ensures '#' in uri ==> h == "#" + Parse(uri).fragment.value
    ensures '#' !in uri ==> h == ""
  {
    FragmentText(Parse(uri).fragment)
  }

  /**
   * `new URL(uri, base).href`. A relative reference is resolved against the
   * base when the base is an absolute URL; with no usable base it is kept
   * as written.
   */
  function Href(uri: string, base: Option<string>): string
  {
    var ref := Parse(uri);
    if IsAbsolute(ref) then Recompose(Resolve(ref, ref))
    else if base.Some? && IsAbsolute(Parse(base.value)) then Recompose(Resolve(Parse(base.value), ref))
    else uri
  }

  /**
   * `normalizeLinkUri` as written: pure hashes as they are, same-file anchors
   * as `#fragment`, the rest resolved by `new URL(uri, base)`.
   */
  function NormalizeLinkAsWritten(uri: string, filename: string, base: Option<string>): string
  {
    if IsPureHash(uri) then uri
    else if MentionsFileAnchor(uri, filename) then HashOf(uri)
    else Href(uri, base)
  }

  /**
   * The repository root `/org/repo/blob/branch` of a source URL: its first
   * five path segments, when the path starts with `/` and has them.
   */
  function RepoRoot(u: Uri): (root: Option<string>)
    ensures root.Some? <==> |PathParts(u)| >= 5 && PathParts(u)[0] == ""
    ensures root.Some? ==> root.value == Join(PathParts(u)[..5], '/') && root.value != [] && root.value[0] == '/'
  {
    var parts := PathParts(u);
    if |parts| >= 5 && parts[0] == "" then
      assert Join(parts[..5], '/') == "" + "/" + Join(parts[..5][1..], '/');
      Some(Join(parts[..5], '/'))
    else None
  }

  /**
   * Link resolution as the component's documentation describes it: an
   * absolute-path link such as `/foo/bar.md` is taken relative to the
   * repository root of the source URL; every other link is resolved by
   * `new URL(uri, base)`.
   */
  function RepoHref(uri: string, base: Option<string>): string
  {
    var ref := Parse(uri);
    if IsAbsolutePathRef(ref) && base.Some? && IsAbsolute(Parse(base.value)) && RepoRoot(Parse(base.value)).Some? then
      var b := Parse(base.value);
      Recompose(Resolve(b, ref.(path := RepoRoot(b).value + ref.path)))
    else Href(uri, base)
  }

  /**
   * `normalizeLinkUri` with absolute-path links resolved inside the
   * repository: pure hashes as they are, same-file anchors as `#fragment`,
   * the rest resolved by `RepoHref`.
   */
  function NormalizeLink(uri: string, filename: string, base: Option<string>): string
  {
    if IsPureHash(uri) then uri
    else if MentionsFileAnchor(uri, filename) then HashOf(uri)
    else RepoHref(uri, base)
  }

  /** The correction changes nothing for a link that is not an absolute-path reference. */
  lemma NormalizeLinkElsewhere(uri: string, filename: string, base: Option<string>)
    requires !IsAbsolutePathRef(Parse(uri))
    ensures NormalizeLink(uri, filename, base) == NormalizeLinkAsWritten(uri, filename, base)
  {
  }

  /**
   * As written, `/p` against a source URL keeps only the source's scheme and
   * host: `/foo/bar.md` against `https://host/org/repo/blob/master/README.md`
   * gives `https://host/foo/bar.md`, outside the repository.
   */
  lemma RootLinkLeavesRepo(p: string, filename: string, source: string)
    requires !MentionsFileAnchor("/" + p, filename)
    requires IsAbsolute(Parse(source))
    requires '#' !in p && (p == [] || p[0] != '/') && DotFree("/" + p)
    ensures var b := Parse(source);
            NormalizeLinkAsWritten("/" + p, filename, Some(source)) == Recompose(Uri(b.scheme, b.authority, "/" + p, None))
  {
    var uri := "/" + p;
    ParseAbsolutePath(p);
    var ref := Parse(uri);
    assert !IsPureHash(uri) && IsAbsolutePathRef(ref) && !IsAbsolute(ref);
    assert NormalizeLinkAsWritten(uri, filename, Some(source)) == Recompose(Resolve(Parse(source), ref));
    ResolveAbsolutePath(Parse(source), ref);
    DotFreeUnchanged(uri);
  }

  /**
   * Corrected: `/p` against a source URL with repository root `root` gives
   * `root/p` on the source's scheme and host, as the documentation's example
   * `/foo/bar.md` to `.../org/component/blob/master/foo/bar.md` says.
   */
  lemma NormalizeRootRelative(p: string, filename: string, source: string, root: string)
    requires !MentionsFileAnchor("/" + p, filename)
    requires IsAbsolute(Parse(source)) && RepoRoot(Parse(source)) == Some(root) && DotFree(root)
    requires '#' !in p && (p == [] || p[0] != '/') && DotFree("/" + p)
    ensures var b := Parse(source);
            NormalizeLink("/" + p, filename, Some(source)) == Recompose(Uri(b.scheme, b.authority, root + "/" + p, None))
  {
    var uri := "/" + p;
    ParseAbsolutePath(p);
    assert !IsPureHash(uri);
    RepoHrefAbsolutePath(uri, source);
    var moved := Uri(None, None, root + uri, None);
    assert Parse(uri).(path := root + uri) == moved;
    ResolveAbsolutePath(Parse(source), moved);
    assert RemoveDotSegments(root + uri) == root + "/" + p by {
      RdsSibling(root, p);
      AppendAssoc(root, "/", p);
    }
  }

  /** An absolute-path link is resolved with the repository root put before its path. */
  lemma RepoHrefAbsolutePath(uri: string, source: string)
    requires IsAbsolutePathRef(Parse(uri)) && IsAbsolute(Parse(source)) && RepoRoot(Parse(source)).Some?
    ensures var b, ref := Parse(source), Parse(uri);
            RepoHref(uri, Some(source)) == Recompose(Resolve(b, ref.(path := RepoRoot(b).value + ref.path)))
  {
  }

  /** A link to an anchor of the current page comes back unchanged. */
  lemma NormalizePureHash(uri: string, filename: string, base: Option<string>)
    requires IsPureHash(uri)
    ensures NormalizeLink(uri, filename, base) == uri
  {
  }

  /**
   * A link that names the current file before `#` becomes just its fragment,
   * wherever it points: `README.md#x`, `./README.md#x`, `/readme.md#x` and a
   * full URL of the file all give `#x`.
   */
  lemma NormalizeSameFile(uri: string, filename: string, base: Option<string>)
    requires !IsPureHash(uri) && MentionsFileAnchor(uri, filename)
    ensures '#' in uri
    ensures NormalizeLink(uri, filename, base) == "#" + uri[IndexOf(uri, '#') + 1..]
  {
    ContainsNonLetter(uri, filename + "#", |filename|);
    assert Parse(uri).fragment == FragmentOf(uri);
  }

  /**
   * The same-file test looks at the name only: a link to a file of the same
   * name in another directory also collapses to its fragment.
   */
  lemma SameNameElsewhereCollapses(dir: string, filename: string, f: string, base: Option<string>)
    requires dir != [] && dir[0] != '#' && '#' !in dir && '#' !in filename
    ensures NormalizeLink(dir + "/" + filename + "#" + f, filename, base) == "#" + f
  {
    var pre := dir + "/";
    var named := pre + filename;
    var uri := named + "#" + f;
    AppendAssoc(pre, filename, "#");
    assert uri == pre + (filename + "#") + f;
    MatchesInMiddle(pre, filename + "#", f);
    NormalizeSameFile(uri, filename, base);
    assert '#' !in named;
    IndexOfSeparator(named, '#', f);
    assert uri[|named| + 1..] == f;
  }

  /** A string occurs, in any case, where it was put. */
  lemma MatchesInMiddle(pre: string, n: string, post: string)
    ensures MatchesAtIgnoringCase(pre + n + post, n, |pre|)
  {
    var s := pre + n + post;
    forall j | 0 <= j < |n| ensures s[|pre| + j] == n[j] { }
  }

  /**
   * A link that neither is a pure hash nor names the current file is
   * resolved against the base; an absolute link with a dot-free path comes
   * back as written.
   */
  lemma NormalizeAbsolute(uri: string, filename: string, base: Option<string>)
    requires !IsPureHash(uri) && !MentionsFileAnchor(uri, filename)
    requires IsAbsolute(Parse(uri)) && DotFree(Parse(uri).path)
    ensures NormalizeLink(uri, filename, base) == uri
  {
    ResolveAbsolute(Parse(uri), Parse(uri));
    RecomposeParse(uri);
  }

  /**
   * A relative link `q` or `./q` (with an optional fragment) against a source
   * URL `.../dir/file` gives `.../dir/q` with the link's own fragment.
   */
  lemma NormalizeSibling(uri: string, filename: string, source: string, dir: string, file: string, q: string)
    requires !IsPureHash(uri) && !MentionsFileAnchor(uri, filename)
    requires IsAbsolute(Parse(source))
    requires Parse(source).path == dir + "/" + file && '/' !in file && DotFree(dir)
    requires Parse(uri).scheme.None? && Parse(uri).authority.None?
    requires Parse(uri).path == q || Parse(uri).path == "./" + q
    requires q != [] && q[0] != '/' && DotFree("/" + q)
    ensures var b := Parse(source);
            NormalizeLink(uri, filename, Some(source))
            == Recompose(Uri(b.scheme, b.authority, dir + "/" + q, Parse(uri).fragment))
  {
    ResolveSibling(Parse(source), Parse(uri), dir, file, q);
  }

  // ---------------------------------------------------------------------------
  // Override callbacks
  // ---------------------------------------------------------------------------

  /** Whether a callback's return value is truthy: present and not the empty string. */
  predicate Truthy(v: Option<string>)
  {
    v.Some? && v.value != ""
  }

  /**
   * `override && override(ctx) || fallback`: the callback's answer when there
   * is a callback and its answer is truthy, the fallback otherwise.
   */
  function Choose<C>(override: Option<C -> Option<string>>, ctx: C, fallback: string): (r: string)
    ensures override.None? ==> r == fallback
    ensures override.Some? && Truthy(override.value(ctx)) ==> r == override.value(ctx).value
    ensures override.Some? && !Truthy(override.value(ctx)) ==> r == fallback
  {
    if override.Some? then
      var answer := override.value(ctx);
      if answer.Some? && answer.value != "" then answer.value else fallback
    else fallback
  }

  /** The result is either the callback's own answer or the fallback, never anything else. */
  lemma ChooseIsAnswerOrFallback<C>(override: Option<C -> Option<string>>, ctx: C, fallback: string)
    ensures var r := Choose(override, ctx, fallback);
            r == fallback || (override.Some? && override.value(ctx) == Some(r) && r != "")
  {
  }
}
