/**
 * The older `ReactMarkdownGithub` (`src/index.js`). The URL handling is the
 * same as in the current component, except that no branch is read off the
 * source URL, the source prop is `sourceUrl` and the link callback is
 * `resolver`, called with the link under the key `url`. Heading ids come
 * from the `slugify` package, kept abstract here, and repeats are numbered
 * by appending the bare count (`header`, `header1`, `header2`) from a table
 * that lives on the component and is never cleared.
 */
module LegacyComponent {
  import opened Wrappers
  import opened Strings
  import opened Url
  import opened Links
  import GhSlugify
  import Component

  /** What the older `normalizeGithubUrl` reads off a source URL: no branch. */
  datatype GithubUrl = GithubUrl(
    github: string,
    filepath: string,
    filename: string,
    org: Option<string>,
    repo: Option<string>)

  /** `normalizeGithubUrl`: the origin and the path segments by position; nothing for a non-URL. */
  function NormalizeGithubUrl(url: string): (g: Option<GithubUrl>)
    ensures g.Some? <==> IsAbsolute(Parse(url))
  {
    FieldsOf(Parse(url))
  }

  function FieldsOf(u: Uri): (g: Option<GithubUrl>)
    ensures g.Some? <==> IsAbsolute(u)
  {
    if !IsAbsolute(u) then None
    else
      var parts := PathParts(u);
      Some(GithubUrl(Origin(u) + "/", FilePath(parts), FileName(parts), At(parts, 1), At(parts, 2)))
  }

  /** The fields of a GitHub blob URL come back from the positions they were written at. */
  lemma GithubUrlFields(scheme: string, host: string, parts: seq<string>, fragment: Option<string>)
    requires IsScheme(scheme) && scheme != "file"
    requires host != [] && '/' !in host && '#' !in host
    requires |parts| >= 6 && parts[0] == ""
    requires forall i :: 0 <= i < |parts| ==> '/' !in parts[i] && '#' !in parts[i]
    ensures NormalizeGithubUrl(scheme + "://" + host + Join(parts, '/') + FragmentText(fragment))
            == Some(GithubUrl(scheme + "://" + host + "/", "/" + Join(parts[5..], '/'), parts[|parts| - 1],
                              Some(parts[1]), Some(parts[2])))
  {
    ParseBlobUrl(scheme, host, parts, fragment);
    var u := Uri(Some(scheme), Some(host), Join(parts, '/'), fragment);
    assert FieldsOf(u) == Some(GithubUrl(scheme + "://" + host + "/", "/" + Join(parts[5..], '/'), parts[|parts| - 1],
                                         Some(parts[1]), Some(parts[2])));
  }

  // ---------------------------------------------------------------------------
  // State and props
  // ---------------------------------------------------------------------------

  datatype State = State(sourceUrl: Option<string>, url: Option<GithubUrl>)

  const InitialState := State(None, None)

  function UrlFields(sourceUrl: Option<string>): Option<GithubUrl>
  {
    if sourceUrl.Some? then NormalizeGithubUrl(sourceUrl.value) else None
  }

  /** `getDerivedStateFromProps`: a new state when `sourceUrl` changed, and `null` otherwise. */
  function GetDerivedStateFromProps(sourceUrl: Option<string>, prevState: State): (r: Option<State>)
    ensures r.None? <==> sourceUrl == prevState.sourceUrl
    ensures r.Some? ==> r.value.sourceUrl == sourceUrl
    ensures r.Some? ==> r.value.url == UrlFields(sourceUrl)
  {
    if sourceUrl != prevState.sourceUrl then Some(State(sourceUrl, UrlFields(sourceUrl))) else None
  }

  function NextState(sourceUrl: Option<string>, prevState: State): State
  {
    var derived := GetDerivedStateFromProps(sourceUrl, prevState);
    if derived.Some? then derived.value else prevState
  }

  /** A state derived from `sourceUrl` is kept as long as the prop stays the same. */
  lemma DerivedStateIsCached(sourceUrl: Option<string>, prevState: State)
    ensures var s := NextState(sourceUrl, prevState);
            && s.sourceUrl == sourceUrl
            && GetDerivedStateFromProps(sourceUrl, s).None?
            && NextState(sourceUrl, s) == s
  {
  }

  function StateFilename(s: State): string
  {
    if s.url.Some? then s.url.value.filename else "undefined"
  }

  /** What the `resolver` callback is called with: the state's fields, and the link as `url`. */
  datatype LinkContext = LinkContext(state: State, url: string, children: seq<GhSlugify.Node>, title: Option<string>)

  datatype ImageContext = ImageContext(state: State, url: string)

  datatype Props = Props(
    sourceUrl: Option<string>,
    resolver: Option<LinkContext -> Option<string>>,
    transformImageUri: Option<ImageContext -> Option<string>>)

  // ---------------------------------------------------------------------------
  // Heading titles and numbering
  // ---------------------------------------------------------------------------

  /**
   * A child of a heading as the older `renderHeading` sees it: plain text,
   * or an inline element (code span, emphasis) whose `props.children` is a
   * string.
   */
  datatype Child = Text(text: string) | Inline(children: string)

  /**
   * What one child adds to the title: an inline element its text and a
   * space, plain text itself. An inline element with empty text fails the
   * `child.props.children` test and is added as an object: `[object Object]`.
   */
  function ChildText(c: Child): string
  {
    match c
    case Text(t) => t
    case Inline(s) => if s != "" then s + " " else "[object Object]"
  }

  /** The title of a heading: the children's contributions, in order. */
  function Title(children: seq<Child>): string
  {
    if children == [] then "" else Title(children[..|children| - 1]) + ChildText(children[|children| - 1])
  }

  lemma {:induction false} TitleAppend(a: seq<Child>, b: seq<Child>)
    ensures Title(a + b) == Title(a) + Title(b)
    decreases |b|
  {
    if b == [] {
      assert a + b == a;
    } else {
      var init, last := b[..|b| - 1], b[|b| - 1];
      assert (a + b)[..|a + b| - 1] == a + init && (a + b)[|a + b| - 1] == last;
      assert Title(a + b) == Title(a + init) + ChildText(last);
      TitleAppend(a, init);
      assert Title(b) == Title(init) + ChildText(last);
      AppendAssoc(Title(a), Title(init), ChildText(last));
    }
  }

  /** Every inline child adds exactly one space after its text, so `code` before text gets a separator. */
  lemma InlineThenText(code: string, text: string)
    requires code != ""
    ensures Title([Inline(code), Text(text)]) == code + " " + text
  {
    assert [Inline(code), Text(text)][..1] == [Inline(code)];
    assert Title([Inline(code)]) == Title([]) + ChildText(Inline(code));
  }

  /** The id for `slug` after `k` earlier uses of it: the count is appended with no separator. */
  function BareSuffixed(slug: string, k: nat): string
  {
    if k == 0 then slug else slug + NatToString(k)
  }

  lemma BareSuffixedInjective(slug: string, k: nat, k': nat)
    requires k != k'
    ensures BareSuffixed(slug, k) != BareSuffixed(slug, k')
  {
    if k != 0 && k' != 0 {
      NatToStringInjective(k, k');
      var id, id' := BareSuffixed(slug, k), BareSuffixed(slug, k');
      assert id[|slug|..] == NatToString(k);
      assert id'[|slug|..] == NatToString(k');
    }
  }

  /** The ids handed out for `slugs` in order, starting from the table `table`. */
  function PassIds(table: map<string, nat>, slugs: seq<string>): seq<string>
  {
    if slugs == [] then []
    else
      var before := GhSlugify.CountsAfter(table, slugs[..|slugs| - 1]);
      var slug := slugs[|slugs| - 1];
      PassIds(table, slugs[..|slugs| - 1]) + [BareSuffixed(slug, GhSlugify.CountOf(before, slug))]
  }

  lemma {:induction false} PassIdsLength(table: map<string, nat>, slugs: seq<string>)
    ensures |PassIds(table, slugs)| == |slugs|
  {
    if slugs != [] {
      PassIdsLength(table, slugs[..|slugs| - 1]);
    }
  }

  lemma PassSnoc(table: map<string, nat>, slugs: seq<string>, i: nat)
    requires i < |slugs|
    ensures var before := GhSlugify.CountsAfter(table, slugs[..i]);
            && PassIds(table, slugs[..i + 1])
               == PassIds(table, slugs[..i]) + [BareSuffixed(slugs[i], GhSlugify.CountOf(before, slugs[i]))]
            && GhSlugify.CountsAfter(table, slugs[..i + 1]) == GhSlugify.Counted(before, slugs[i])
  {
    assert slugs[..i + 1][..i] == slugs[..i];
  }

  /** The i-th heading gets its slug, with the count of earlier uses in the table and in the pass appended. */
  lemma {:induction false} PassIdAt(table: map<string, nat>, slugs: seq<string>, i: nat)
    requires i < |slugs|
    ensures |PassIds(table, slugs)| == |slugs|
    ensures PassIds(table, slugs)[i]
            == BareSuffixed(slugs[i], GhSlugify.CountOf(table, slugs[i]) + GhSlugify.Occurrences(slugs[..i], slugs[i]))
  {
    PassIdsLength(table, slugs);
    var init := slugs[..|slugs| - 1];
    PassIdsLength(table, init);
    if i == |slugs| - 1 {
      GhSlugify.CountsAfterCounts(table, init, slugs[i]);
    } else {
      PassIdAt(table, init, i);
      assert init[..i] == slugs[..i];
    }
  }

  /**
   * The table is never cleared, so rendering the same headings again moves
   * every id on: the first heading's id differs between two passes.
   */
  lemma RerenderChangesIds(table: map<string, nat>, slugs: seq<string>)
    requires slugs != []
    ensures var again := GhSlugify.CountsAfter(table, slugs);
            && |PassIds(again, slugs)| == |PassIds(table, slugs)| == |slugs|
            && PassIds(again, slugs)[0] != PassIds(table, slugs)[0]
  {
    var again := GhSlugify.CountsAfter(table, slugs);
    FirstPassId(table, slugs);
    FirstPassId(again, slugs);
    GhSlugify.CountsAfterCounts(table, slugs, slugs[0]);
    OccursAtStart(slugs);
    BareSuffixedInjective(slugs[0], GhSlugify.CountOf(again, slugs[0]), GhSlugify.CountOf(table, slugs[0]));
  }

  /** The first heading of a pass gets its slug numbered by the table alone. */
  lemma FirstPassId(table: map<string, nat>, slugs: seq<string>)
    requires slugs != []
    ensures |PassIds(table, slugs)| == |slugs|
    ensures PassIds(table, slugs)[0] == BareSuffixed(slugs[0], GhSlugify.CountOf(table, slugs[0]))
  {
    PassIdAt(table, slugs, 0);
    assert slugs[..0] == [];
  }

  lemma OccursAtStart(slugs: seq<string>)
    requires slugs != []
    ensures GhSlugify.Occurrences(slugs, slugs[0]) >= 1
  {
    GhSlugify.OccurrencesGrow(slugs, 0, |slugs|);
    assert slugs[..|slugs|] == slugs;
  }

  /** Three headings with one slug are numbered by the bare count: `header`, `header1`, `header2`. */
  lemma RepeatsNumbered(slug: string)
    ensures PassIds(map[], [slug, slug, slug]) == [slug, slug + "1", slug + "2"]
  {
    var slugs := [slug, slug, slug];
    PassIdAt(map[], slugs, 0);
    PassIdAt(map[], slugs, 1);
    PassIdAt(map[], slugs, 2);
    assert slugs[..1] == [slug] && [slug][..0] == [];
    assert slugs[..2] == [slug, slug] && [slug, slug][..1] == [slug];
    assert GhSlugify.Occurrences(slugs[..1], slug) == 1;
    assert GhSlugify.Occurrences(slugs[..2], slug) == 2;
    assert NatToString(1) == "1" && NatToString(2) == "2";
  }

  /**
   * Appending the bare count can collide with another heading's slug: a
   * second `header` and a heading whose slug is `header1` get the same id.
   */
  lemma BareSuffixCollides()
    ensures PassIds(map[], ["header", "header", "header1"]) == ["header", "header1", "header1"]
  {
    var slugs := ["header", "header", "header1"];
    PassIdAt(map[], slugs, 0);
    PassIdAt(map[], slugs, 1);
    PassIdAt(map[], slugs, 2);
    assert slugs[..1] == ["header"];
    assert GhSlugify.Occurrences(slugs[..1], "header") == 1 by {
      assert slugs[..1][..0] == [];
    }
    assert slugs[..2] == ["header", "header"];
    assert GhSlugify.Occurrences(slugs[..2], "header1") == 0 by {
      assert slugs[..2][..1] == ["header"];
      assert ["header"][..0] == [];
    }
    assert BareSuffixed("header", 1) == "header1";
  }

  // ---------------------------------------------------------------------------
  // The component
  // ---------------------------------------------------------------------------

  class LegacyMarkdownGithub {
    var props: Props
    var state: State
    /** `this.slugs`: uses of each slug since construction. */
    var slugs: map<string, nat>
    /** The `slugify` package, called as `slugify(title, { lower: true })`. */
    const slugify: string -> string

    constructor(p: Props, slugifyPackage: string -> string)
      ensures props == p && state == NextState(p.sourceUrl, InitialState)
      ensures slugs == map[] && slugify == slugifyPackage
    {
      props := p;
      slugs := map[];
      slugify := slugifyPackage;
      state := NextState(p.sourceUrl, InitialState);
    }

    /** New props: the state is re-derived only when `sourceUrl` changed; the slug table stays. */
    method ReceiveProps(p: Props)
      modifies this
      ensures props == p && state == NextState(p.sourceUrl, old(state)) && slugs == old(slugs)
    {
      props := p;
      state := NextState(p.sourceUrl, state);
    }

    /**
     * `normalizeLinkUri`, with the corrected resolution of absolute-path links:
     * `/p` is taken from the repository root `/org/repo/blob/branch`, as the
     * component's documentation describes, not from the host root.
     */
    function NormalizeLinkUri(url: string): (r: string)
      reads this
      ensures IsPureHash(url) ==> r == url
      ensures !IsPureHash(url) && MentionsFileAnchor(url, StateFilename(state)) ==> r == HashOf(url)
      ensures !IsPureHash(url) && !MentionsFileAnchor(url, StateFilename(state)) ==> r == RepoHref(url, props.sourceUrl)
    {
      NormalizeLink(url, StateFilename(state), props.sourceUrl)
    }

    /** `transformLinkUri`: the normalised link, unless `resolver` answers something truthy. */
    function TransformLinkUri(url: string, children: seq<GhSlugify.Node>, title: Option<string>): (r: string)
      reads this
      ensures var normalized := NormalizeLinkUri(url);
              var ctx := LinkContext(state, normalized, children, title);
              && (props.resolver.None? ==> r == normalized)
              && (props.resolver.Some? && Truthy(props.resolver.value(ctx)) ==> r == props.resolver.value(ctx).value)
              && (props.resolver.Some? && !Truthy(props.resolver.value(ctx)) ==> r == normalized)
    {
      var normalized := NormalizeLinkUri(url);
      Choose(props.resolver, LinkContext(state, normalized, children, title), normalized)
    }

    /** `transformImageUri`: the raw source, unless the callback answers something truthy. */
    function TransformImageUri(url: string): (r: string)
      reads this
      ensures props.transformImageUri.None? ==> r == url
      ensures props.transformImageUri.Some? && Truthy(props.transformImageUri.value(ImageContext(state, url)))
              ==> r == props.transformImageUri.value(ImageContext(state, url)).value
      ensures props.transformImageUri.Some? && !Truthy(props.transformImageUri.value(ImageContext(state, url)))
              ==> r == url
    {
      Choose(props.transformImageUri, ImageContext(state, url), url)
    }

    /** `renderHeading`: build the title, slug it, number repeats by the bare count, link to the id. */
    method RenderHeading(level: nat, children: seq<Child>) returns (h: Component.Heading)
      modifies this
      ensures var slug := slugify(Title(children));
              && h == Component.Heading(level, BareSuffixed(slug, GhSlugify.CountOf(old(slugs), slug)), "#" + h.id)
              && slugs == GhSlugify.Counted(old(slugs), slug)
      ensures props == old(props) && state == old(state)
    {
      var title := BuildTitle(children);
      var slug := slugify(title);
      var uniqueSlug := slug;
      slugs := slugs[slug := GhSlugify.CountOf(slugs, slug)];
      if slugs[slug] != 0 {
        uniqueSlug := slug + NatToString(slugs[slug]);
      }
      slugs := slugs[slug := slugs[slug] + 1];
      h := Component.Heading(level, uniqueSlug, "#" + uniqueSlug);
    }
  }

  /** The title loop of `renderHeading`: each child's contribution appended in turn. */
  method BuildTitle(children: seq<Child>) returns (title: string)
    ensures title == Title(children)
  {
    title := "";
    var i := 0;
    while i < |children|
      invariant 0 <= i <= |children|
      invariant title == Title(children[..i])
    {
      assert children[..i + 1][..i] == children[..i];
      match children[i] {
        case Text(t) =>
          title := title + t;
        case Inline(s) =>
          if s != "" {
            title := title + s + " ";
          } else {
            title := title + "[object Object]";
          }
      }
      i := i + 1;
    }
    assert children[..i] == children;
  }

  /** One render pass: `renderHeading` for each heading in order, counting on from the old table. */
  method RenderPass(c: LegacyMarkdownGithub, levels: seq<nat>, headings: seq<seq<Child>>) returns (hs: seq<Component.Heading>)
    requires |levels| == |headings|
    modifies c
    ensures var slugs := seq(|headings|, i requires 0 <= i < |headings| => c.slugify(Title(headings[i])));
            && |PassIds(old(c.slugs), slugs)| == |headings|
            && hs == Component.Headings(levels, PassIds(old(c.slugs), slugs))
            && c.slugs == GhSlugify.CountsAfter(old(c.slugs), slugs)
    ensures c.props == old(c.props) && c.state == old(c.state)
  {
    var slugs := seq(|headings|, i requires 0 <= i < |headings| => c.slugify(Title(headings[i])));
    hs := [];
    var i := 0;
    while i < |headings|
      invariant 0 <= i <= |headings|
      invariant |PassIds(old(c.slugs), slugs[..i])| == i
      invariant hs == Component.Headings(levels[..i], PassIds(old(c.slugs), slugs[..i]))
      invariant c.slugs == GhSlugify.CountsAfter(old(c.slugs), slugs[..i])
      invariant c.props == old(c.props) && c.state == old(c.state)
    {
      var before := GhSlugify.CountsAfter(old(c.slugs), slugs[..i]);
      var id := BareSuffixed(slugs[i], GhSlugify.CountOf(before, slugs[i]));
      var h := c.RenderHeading(levels[i], headings[i]);
      assert h == Component.Heading(levels[i], id, "#" + id);
      PassSnoc(old(c.slugs), slugs, i);
      var ids := PassIds(old(c.slugs), slugs[..i + 1]);
      assert ids[..i] == PassIds(old(c.slugs), slugs[..i]) && ids[i] == id;
      Component.HeadingsSnoc(levels, ids, i);
      PassIdsLength(old(c.slugs), slugs[..i + 1]);
      hs := hs + [h];
      i := i + 1;
    }
    assert slugs[..i] == slugs;
    assert levels[..i] == levels;
  }

  /**
   * Rendering the same document twice on one instance gives different ids:
   * nothing clears the table between passes.
   */
  method RerenderDrifts(c: LegacyMarkdownGithub, levels: seq<nat>, headings: seq<seq<Child>>)
      returns (first: seq<Component.Heading>, second: seq<Component.Heading>)
    requires |levels| == |headings| && headings != []
    modifies c
    ensures |first| == |second| == |headings|
    ensures first[0].id != second[0].id
  {
    var slugs := seq(|headings|, i requires 0 <= i < |headings| => c.slugify(Title(headings[i])));
    ghost var table := c.slugs;
    first := RenderPass(c, levels, headings);
    second := RenderPass(c, levels, headings);
    RerenderChangesIds(table, slugs);
  }
}
