/**
 * `ReactMarkdownGithub` (the current component): its state is the parsed
 * GitHub source URL, re-derived only when the `sourceUri` prop changes; it
 * turns markdown links and image sources into URLs through optional
 * callbacks; and it gives each heading an id from a `GithubSlugify` that is
 * reset at the start of every render.
 */
module Component {
  import opened Wrappers
  import opened Strings
  import opened Url
  import opened Links
  import opened GhSlugify

  /** What `normalizeGithubUrl` reads off a source URL. */
  datatype GithubUrl = GithubUrl(
    github: string,
    filepath: string,
    filename: string,
    org: Option<string>,
    repo: Option<string>,
    branch: Option<string>)

  /**
   * `normalizeGithubUrl`: the origin, and the path segments by position
   * (`/org/repo/blob/branch/file...`). The fragment plays no part. A string
   * without a scheme is not a source URL and gives nothing.
   */
  function NormalizeGithubUrl(uri: string): (g: Option<GithubUrl>)
    ensures g.Some? <==> IsAbsolute(Parse(uri))
  {
    FieldsOf(Parse(uri))
  }

  /** The fields of a parsed source URL. */
  function FieldsOf(u: Uri): (g: Option<GithubUrl>)
    ensures g.Some? <==> IsAbsolute(u)
  {
    if !IsAbsolute(u) then None
    else
      var parts := PathParts(u);
      Some(GithubUrl(Origin(u) + "/", FilePath(parts), FileName(parts), At(parts, 1), At(parts, 2), At(parts, 4)))
  }

  /** The fields of a GitHub blob URL come back from the positions they were written at. */
  lemma GithubUrlFields(scheme: string, host: string, parts: seq<string>, fragment: Option<string>)
    requires IsScheme(scheme) && scheme != "file"
    requires host != [] && '/' !in host && '#' !in host
    requires |parts| >= 6 && parts[0] == ""
    requires forall i :: 0 <= i < |parts| ==> '/' !in parts[i] && '#' !in parts[i]
    ensures NormalizeGithubUrl(scheme + "://" + host + Join(parts, '/') + FragmentText(fragment))
            == Some(GithubUrl(scheme + "://" + host + "/", "/" + Join(parts[5..], '/'), parts[|parts| - 1],
                              Some(parts[1]), Some(parts[2]), Some(parts[4])))
  {
    ParseBlobUrl(scheme, host, parts, fragment);
    var u := Uri(Some(scheme), Some(host), Join(parts, '/'), fragment);
    assert FieldsOf(u) == Some(GithubUrl(scheme + "://" + host + "/", "/" + Join(parts[5..], '/'), parts[|parts| - 1],
                                         Some(parts[1]), Some(parts[2]), Some(parts[4])));
  }

  /** A `#hash` on the source URL changes none of the fields. */
  lemma GithubUrlIgnoresHash(uri: string, f: string)
    requires '#' !in uri
    ensures NormalizeGithubUrl(uri + "#" + f) == NormalizeGithubUrl(uri)
  {
    ParseFragment(uri, f);
  }

  // ---------------------------------------------------------------------------
  // State and props
  // ---------------------------------------------------------------------------

  /** The component state: the source URL it was derived from and its parsed fields (`{}` at first). */
  datatype State = State(sourceUri: Option<string>, url: Option<GithubUrl>)

  const InitialState := State(None, None)

  /** The fields for a `sourceUri` prop (none when the prop is absent). */
  function UrlFields(sourceUri: Option<string>): Option<GithubUrl>
  {
    if sourceUri.Some? then NormalizeGithubUrl(sourceUri.value) else None
  }

  /** `getDerivedStateFromProps`: a new state when `sourceUri` changed, and `null` otherwise. */
  function GetDerivedStateFromProps(sourceUri: Option<string>, prevState: State): (r: Option<State>)
    ensures r.None? <==> sourceUri == prevState.sourceUri
    ensures r.Some? ==> r.value.sourceUri == sourceUri
    ensures r.Some? ==> r.value.url == UrlFields(sourceUri)
  {
    if sourceUri != prevState.sourceUri then Some(State(sourceUri, UrlFields(sourceUri))) else None
  }

  /** The state React keeps after asking `getDerivedStateFromProps`. */
  function NextState(sourceUri: Option<string>, prevState: State): State
  {
    var derived := GetDerivedStateFromProps(sourceUri, prevState);
    if derived.Some? then derived.value else prevState
  }

  /** A state derived from `sourceUri` is kept as long as the prop stays the same. */
  lemma DerivedStateIsCached(sourceUri: Option<string>, prevState: State)
    ensures var s := NextState(sourceUri, prevState);
            && s.sourceUri == sourceUri
            && GetDerivedStateFromProps(sourceUri, s).None?
            && NextState(sourceUri, s) == s
  {
  }

  /** Derived states are consistent: their fields are always those of their own `sourceUri`. */
  predicate Consistent(s: State)
  {
    s.url == UrlFields(s.sourceUri)
  }

  lemma NextStateConsistent(sourceUri: Option<string>, prevState: State)
    requires Consistent(prevState)
    ensures Consistent(NextState(sourceUri, prevState))
    ensures NextState(sourceUri, prevState) == State(sourceUri, UrlFields(sourceUri))
  {
  }

  /** The file name the same-file test uses: `this.state.filename`, the text `undefined` when unset. */
  function StateFilename(s: State): string
  {
    if s.url.Some? then s.url.value.filename else "undefined"
  }

  /** What a `transformLinkUri` callback is called with: the state's fields plus the link. */
  datatype LinkContext = LinkContext(state: State, uri: string, children: seq<Node>, title: Option<string>)

  /** What a `transformImageUri` callback is called with: the state's fields plus the raw source. */
  datatype ImageContext = ImageContext(state: State, uri: string)

  datatype Props = Props(
    sourceUri: Option<string>,
    transformLinkUri: Option<LinkContext -> Option<string>>,
    transformImageUri: Option<ImageContext -> Option<string>>)

  /** A rendered heading: `h{level}` with the slug as `id` and a link to `#` + slug. */
  datatype Heading = Heading(level: nat, id: string, href: string)

  /** The heading texts of a document, in order. */
  function Titles(headings: seq<seq<Node>>): seq<string>
  {
    seq(|headings|, i requires 0 <= i < |headings| => FlattenAll(headings[i]))
  }

  // ---------------------------------------------------------------------------
  // The component
  // ---------------------------------------------------------------------------

  class MarkdownGithub {
    var props: Props
    var state: State
    const slugify: GithubSlugify

    /** Construction and mounting: an empty state, a fresh slugger, then the state for the first props. */
    constructor(p: Props)
      ensures props == p
      ensures state == NextState(p.sourceUri, InitialState)
      ensures fresh(slugify) && slugify.slugs == map[]
    {
      props := p;
      state := InitialState;
      slugify := new GithubSlugify();
      new;
      state := NextState(p.sourceUri, state);
    }

    /** New props: the state is re-derived only when `sourceUri` changed. */
    method ReceiveProps(p: Props)
      modifies this
      ensures props == p
      ensures state == NextState(p.sourceUri, old(state))
    {
      props := p;
      state := NextState(p.sourceUri, state);
    }

    /**
     * `normalizeLinkUri`, against the current state and `sourceUri` prop, with
     * the corrected resolution of absolute-path links: `/p` is taken from the
     * repository root `/org/repo/blob/branch`, as the component's documentation
     * describes, not from the host root (see `Links.NormalizeLinkAsWritten`).
     */
    function NormalizeLinkUri(uri: string): (r: string)
      reads this
      ensures IsPureHash(uri) ==> r == uri
      ensures !IsPureHash(uri) && MentionsFileAnchor(uri, StateFilename(state)) ==> r == HashOf(uri)
      ensures !IsPureHash(uri) && !MentionsFileAnchor(uri, StateFilename(state)) ==> r == RepoHref(uri, props.sourceUri)
    {
      NormalizeLink(uri, StateFilename(state), props.sourceUri)
    }

    /** `transformLinkUri`: the normalised link, unless the callback answers something truthy. */
    function TransformLinkUri(uri: string, children: seq<Node>, title: Option<string>): (r: string)
      reads this
      ensures var normalized := NormalizeLinkUri(uri);
              var ctx := LinkContext(state, normalized, children, title);
              && (props.transformLinkUri.None? ==> r == normalized)
              && (props.transformLinkUri.Some? && Truthy(props.transformLinkUri.value(ctx))
                  ==> r == props.transformLinkUri.value(ctx).value)
              && (props.transformLinkUri.Some? && !Truthy(props.transformLinkUri.value(ctx)) ==> r == normalized)
    {
      var normalized := NormalizeLinkUri(uri);
      Choose(props.transformLinkUri, LinkContext(state, normalized, children, title), normalized)
    }

    /** `transformImageUri`: the raw source, unless the callback answers something truthy. */
    function TransformImageUri(uri: string): (r: string)
      reads this
      ensures props.transformImageUri.None? ==> r == uri
      ensures props.transformImageUri.Some? && Truthy(props.transformImageUri.value(ImageContext(state, uri)))
              ==> r == props.transformImageUri.value(ImageContext(state, uri)).value
      ensures props.transformImageUri.Some? && !Truthy(props.transformImageUri.value(ImageContext(state, uri)))
              ==> r == uri
    {
      Choose(props.transformImageUri, ImageContext(state, uri), uri)
    }

    /** `renderHeading`: one `slugNode` call; the id is the slug and the link points at it. */
    method RenderHeading(level: nat, children: seq<Node>) returns (h: Heading)
      modifies slugify
      ensures var base := Replace(FlattenAll(children));
              && h == Heading(level, Suffixed(base, CountOf(old(slugify.slugs), base)), "#" + h.id)
              && slugify.slugs == Counted(old(slugify.slugs), base)
    {
      var uniqueSlug := slugify.SlugNode(children);
      h := Heading(level, uniqueSlug, "#" + uniqueSlug);
    }

    /** The part of `render` that touches the slugger: it starts every pass from an empty table. */
    method Render()
      modifies slugify
      ensures slugify.slugs == map[]
    {
      slugify.Reset();
    }

    /**
     * One render pass over a document's headings (each given by its heading
     * level and children), in document order: `render`, then `renderHeading`
     * once per heading as the markdown renderer calls it.
     */
    method RenderPass(levels: seq<nat>, headings: seq<seq<Node>>) returns (hs: seq<Heading>)
      requires |levels| == |headings|
      modifies slugify
      ensures var bases := Bases(Titles(headings));
              && |PassIds(map[], bases)| == |levels|
              && hs == Headings(levels, PassIds(map[], bases))
              && slugify.slugs == CountsAfter(map[], bases)
    {
      Render();
      var bases := Bases(Titles(headings));
      hs := [];
      var i := 0;
      while i < |headings|
        invariant 0 <= i <= |headings|
        invariant |PassIds(map[], bases[..i])| == i
        invariant hs == Headings(levels[..i], PassIds(map[], bases[..i]))
        invariant slugify.slugs == CountsAfter(map[], bases[..i])
      {
        var before := CountsAfter(map[], bases[..i]);
        var id := Suffixed(bases[i], CountOf(before, bases[i]));
        assert bases[i] == Replace(FlattenAll(headings[i]));
        var h := RenderHeading(levels[i], headings[i]);
        assert h == Heading(levels[i], id, "#" + id);
        PassSnoc(map[], bases, i);
        var ids := PassIds(map[], bases[..i + 1]);
        assert ids == PassIds(map[], bases[..i]) + [id];
        assert ids[..i] == PassIds(map[], bases[..i]) && ids[i] == id;
        HeadingsSnoc(levels, ids, i);
        assert hs + [h] == Headings(levels[..i + 1], ids);
        assert slugify.slugs == CountsAfter(map[], bases[..i + 1]);
        PassIdsLength(map[], bases[..i + 1]);
        hs := hs + [h];
        i := i + 1;
      }
      assert bases[..i] == bases;
      assert levels[..i] == levels;
    }
  }

  /** The headings of a pass: each level with its id, linked to `#` + id. */
  function Headings(levels: seq<nat>, ids: seq<string>): (hs: seq<Heading>)
    requires |levels| == |ids|
    ensures |hs| == |ids|
    ensures forall i :: 0 <= i < |ids| ==> hs[i] == Heading(levels[i], ids[i], "#" + ids[i])
  {
    if ids == [] then []
    else Headings(levels[..|ids| - 1], ids[..|ids| - 1]) + [Heading(levels[|ids| - 1], ids[|ids| - 1], "#" + ids[|ids| - 1])]
  }

  lemma HeadingsSnoc(levels: seq<nat>, ids: seq<string>, i: nat)
    requires i < |levels| && |ids| == i + 1
    ensures Headings(levels[..i + 1], ids)
            == Headings(levels[..i], ids[..i]) + [Heading(levels[i], ids[i], "#" + ids[i])]
  {
    assert levels[..i + 1][..i] == levels[..i];
  }

  /**
   * Rendering the same document twice gives the same headings: `render`
   * resets the slugger, so ids are not bumped by the second pass.
   */
  method RerenderIsStable(c: MarkdownGithub, levels: seq<nat>, headings: seq<seq<Node>>)
      returns (first: seq<Heading>, second: seq<Heading>)
    requires |levels| == |headings|
    modifies c.slugify
    ensures first == second
  {
    first := c.RenderPass(levels, headings);
    second := c.RenderPass(levels, headings);
  }
}
