/**
 * The GitHub-style heading slugger: `replace` turns heading text into an
 * anchor-safe base slug, and a `GithubSlugify` object numbers repeated bases
 * (`base`, `base-1`, `base-2`, ...) until it is reset.
 *
 * Characters are modelled with ASCII case mapping; the whitespace set is the
 * ECMAScript one.
 */
module GhSlugify {
  import opened Strings

  /** What the filter `/[^\w\- ]/g` lets through: word characters, `-` and space. */
  predicate IsKept(c: char)
  {
    IsLower(c) || IsUpper(c) || IsDigit(c) || c == '_' || c == '-' || c == ' '
  }

  /** The characters a slug is made of. */
  predicate IsSlugChar(c: char)
  {
    IsLower(c) || IsDigit(c) || c == '_' || c == '-'
  }

  predicate IsSlug(s: string)
  {
    forall i :: 0 <= i < |s| ==> IsSlugChar(s[i])
  }

  // ---------------------------------------------------------------------------
  // The stages of `replace`
  // ---------------------------------------------------------------------------

  /** The leading-whitespace half of `trim`: `s` after its leading white space. */
  function TrimStart(s: string): (r: string)
    ensures |r| <= |s|
    ensures r == [] || !IsJsWhitespace(r[0])
  {
    if s == [] || !IsJsWhitespace(s[0]) then s else TrimStart(s[1..])
  }

  /** The trailing-whitespace half of `trim`: `s` before its trailing white space. */
  function TrimEnd(s: string): (r: string)
    ensures |r| <= |s|
    ensures r == [] || !IsJsWhitespace(r[|r| - 1])
  {
    if s == [] || !IsJsWhitespace(s[|s| - 1]) then s else TrimEnd(s[..|s| - 1])
  }

  /** `TrimStart` removes a prefix, and only white space. */
  lemma {:induction false} TrimStartIsSuffix(s: string)
    ensures var r := TrimStart(s);
            && r == s[|s| - |r|..]
            && AllWhitespace(s[..|s| - |r|])
  {
    if s != [] && IsJsWhitespace(s[0]) {
      TrimStartIsSuffix(s[1..]);
      var r := TrimStart(s[1..]);
      assert s[..|s| - |r|] == [s[0]] + s[1..][..|s| - 1 - |r|];
    }
  }

  /** `TrimEnd` removes a suffix, and only white space. */
  lemma {:induction false} TrimEndIsPrefix(s: string)
    ensures var r := TrimEnd(s);
            && r == s[..|r|]
            && AllWhitespace(s[|r|..])
  {
    if s != [] && IsJsWhitespace(s[|s| - 1]) {
      TrimEndIsPrefix(s[..|s| - 1]);
      var r := TrimEnd(s[..|s| - 1]);
      assert s[|r|..] == s[..|s| - 1][|r|..] + [s[|s| - 1]];
    }
  }

  /** `String.prototype.trim`: `s` without its leading and trailing white space. */
  function Trim(s: string): (r: string)
    ensures |r| <= |s|
    ensures r == [] || (!IsJsWhitespace(r[0]) && !IsJsWhitespace(r[|r| - 1]))
  {
    TrimEndIsPrefix(TrimStart(s));
    TrimEnd(TrimStart(s))
  }

  /** `.replace(/[^\w\- ]/g, '')`: drop every character that is not kept. */
  function StripPunctuation(s: string): (r: string)
    ensures |r| <= |s|
    ensures forall i :: 0 <= i < |r| ==> IsKept(r[i])
  {
    if s == [] then []
    else (if IsKept(s[0]) then [s[0]] else []) + StripPunctuation(s[1..])
  }

  /** `.replace(/\s/g, '-')`: every white-space character becomes one `-`. */
  function Hyphenate(s: string): (r: string)
    ensures |r| == |s|
    ensures forall i :: 0 <= i < |s| ==> r[i] == if IsJsWhitespace(s[i]) then '-' else s[i]
  {
    if s == [] then [] else [if IsJsWhitespace(s[0]) then '-' else s[0]] + Hyphenate(s[1..])
  }

  /** `GithubSlugify.replace`: heading text to its base slug. */
  function Replace(text: string): string
  {
    Hyphenate(StripPunctuation(Trim(Lower(text))))
  }

  // ---------------------------------------------------------------------------
  // Properties of `replace`
  // ---------------------------------------------------------------------------

  predicate NoUpper(s: string)
  {
    forall i :: 0 <= i < |s| ==> !IsUpper(s[i])
  }

  lemma TrimKeepsNoUpper(s: string)
    requires NoUpper(s)
    ensures NoUpper(Trim(s))
  {
    var t := TrimStart(s);
    TrimStartIsSuffix(s);
    assert NoUpper(t) by {
      forall i | 0 <= i < |t| ensures !IsUpper(t[i]) {
        assert t[i] == s[|s| - |t| + i];
      }
    }
    var r := TrimEnd(t);
    TrimEndIsPrefix(t);
    forall i | 0 <= i < |r| ensures !IsUpper(r[i]) {
      assert r[i] == t[i];
    }
  }

  lemma {:induction false} StripKeepsNoUpper(s: string)
    requires NoUpper(s)
    ensures NoUpper(StripPunctuation(s))
  {
    if s != [] {
      StripKeepsNoUpper(s[1..]);
    }
  }

  /**
   * A base slug is made only of lower-case ASCII letters, digits, `_` and `-`
   * (under ASCII case mapping).
   */
  lemma ReplaceIsSlug(text: string)
    ensures IsSlug(Replace(text))
  {
    var lowered := Lower(text);
    TrimKeepsNoUpper(lowered);
    var kept := StripPunctuation(Trim(lowered));
    StripKeepsNoUpper(Trim(lowered));
    var slug := Hyphenate(kept);
    forall i | 0 <= i < |slug| ensures IsSlugChar(slug[i]) {
      assert IsKept(kept[i]) && !IsUpper(kept[i]);
    }
  }

  lemma {:induction false} StripAppend(a: string, b: string)
    ensures StripPunctuation(a + b) == StripPunctuation(a) + StripPunctuation(b)
  {
    if a != [] {
      assert (a + b)[0] == a[0];
      assert (a + b)[1..] == a[1..] + b;
      StripAppend(a[1..], b);
    } else {
      assert a + b == b;
    }
  }

  lemma {:induction false} StripKeepsKept(s: string)
    requires forall i :: 0 <= i < |s| ==> IsKept(s[i])
    ensures StripPunctuation(s) == s
  {
    if s != [] {
      StripKeepsKept(s[1..]);
    }
  }

  lemma {:induction false} TrimStartAppend(a: string, b: string)
    ensures TrimStart(a) != [] ==> TrimStart(a + b) == TrimStart(a) + b
    ensures TrimStart(a) == [] ==> TrimStart(a + b) == TrimStart(b)
    decreases |a|
  {
    if a != [] {
      assert (a + b)[0] == a[0];
      if IsJsWhitespace(a[0]) {
        assert (a + b)[1..] == a[1..] + b;
        TrimStartAppend(a[1..], b);
      }
    } else {
      assert a + b == b;
    }
  }

  lemma {:induction false} TrimEndPrepend(a: string, b: string)
    ensures TrimEnd(b) != [] ==> TrimEnd(a + b) == a + TrimEnd(b)
    ensures TrimEnd(b) == [] ==> TrimEnd(a + b) == TrimEnd(a)
    decreases |b|
  {
    if b != [] {
      assert (a + b)[|a + b| - 1] == b[|b| - 1];
      if IsJsWhitespace(b[|b| - 1]) {
        assert (a + b)[..|a + b| - 1] == a + b[..|b| - 1];
        TrimEndPrepend(a, b[..|b| - 1]);
      }
    } else {
      assert a + b == a;
    }
  }

  lemma {:induction false} TrimStartOfWhitespace(w: string)
    requires AllWhitespace(w)
    ensures TrimStart(w) == []
  {
    if w != [] {
      TrimStartOfWhitespace(w[1..]);
    }
  }

  lemma {:induction false} TrimEndOfWhitespace(w: string)
    requires AllWhitespace(w)
    ensures TrimEnd(w) == []
  {
    if w != [] {
      TrimEndOfWhitespace(w[..|w| - 1]);
    }
  }

  /** White space added before or after a text is removed again by `trim`. */
  lemma TrimPadding(w: string, s: string, w': string)
    requires AllWhitespace(w) && AllWhitespace(w')
    ensures Trim(w + s + w') == Trim(s)
  {
    TrimStartOfWhitespace(w);
    TrimStartAppend(w, s + w');
    assert w + s + w' == w + (s + w');
    TrimStartAppend(s, w');
    TrimStartOfWhitespace(w');
    var t := TrimStart(s);
    if t != [] {
      TrimEndOfWhitespace(w');
      TrimEndPrepend(t, w');
      assert t + w' == t + w';
    } else {
      TrimEndOfWhitespace(w');
    }
  }

  lemma {:induction false} TrimNoop(s: string)
    requires s == [] || (!IsJsWhitespace(s[0]) && !IsJsWhitespace(s[|s| - 1]))
    ensures Trim(s) == s
  {
  }

  lemma {:induction false} LowerAppend(a: string, b: string)
    ensures Lower(a + b) == Lower(a) + Lower(b)
  {
    if a != [] {
      assert (a + b)[1..] == a[1..] + b;
      LowerAppend(a[1..], b);
    } else {
      assert a + b == b;
    }
  }

  lemma {:induction false} HyphenateAppend(a: string, b: string)
    ensures Hyphenate(a + b) == Hyphenate(a) + Hyphenate(b)
  {
    if a != [] {
      assert (a + b)[1..] == a[1..] + b;
      HyphenateAppend(a[1..], b);
    } else {
      assert a + b == b;
    }
  }

  lemma {:induction false} LowerNoop(s: string)
    requires NoUpper(s)
    ensures Lower(s) == s
  {
    if s != [] {
      LowerNoop(s[1..]);
    }
  }

  lemma {:induction false} HyphenateNoop(s: string)
    requires forall i :: 0 <= i < |s| ==> !IsJsWhitespace(s[i])
    ensures Hyphenate(s) == s
  {
    if s != [] {
      HyphenateNoop(s[1..]);
    }
  }

  /** `replace` leaves a slug as it is: applying it to its own output changes nothing. */
  lemma ReplaceIdempotent(text: string)
    ensures Replace(Replace(text)) == Replace(text)
  {
    ReplaceIsSlug(text);
    ReplaceOfSlug(Replace(text));
  }

  /** A slug is its own base slug. */
  lemma ReplaceOfSlug(s: string)
    requires IsSlug(s)
    ensures Replace(s) == s
  {
    assert NoUpper(s) && forall i :: 0 <= i < |s| ==> IsKept(s[i]) && !IsJsWhitespace(s[i]);
    LowerNoop(s);
    assert s == [] || (!IsJsWhitespace(s[0]) && !IsJsWhitespace(s[|s| - 1]));
    TrimNoop(s);
    StripKeepsKept(s);
    HyphenateNoop(s);
  }

  /**
   * Each space that survives the filter turns into exactly one `-` at the same
   * position: runs of spaces are not collapsed, and no other character changes.
   */
  lemma ReplaceSpaces(text: string)
    ensures var kept := StripPunctuation(Trim(Lower(text)));
            && |Replace(text)| == |kept|
            && forall i :: 0 <= i < |kept| ==> Replace(text)[i] == if kept[i] == ' ' then '-' else kept[i]
  {
    HyphenateKept(StripPunctuation(Trim(Lower(text))));
  }

  /** On kept characters, `Hyphenate` turns exactly the spaces into `-`. */
  lemma HyphenateKept(kept: string)
    requires forall i :: 0 <= i < |kept| ==> IsKept(kept[i])
    ensures forall i :: 0 <= i < |kept| ==> Hyphenate(kept)[i] == if kept[i] == ' ' then '-' else kept[i]
  {
  }

  /** Leading and trailing white space does not change the slug. */
  lemma ReplacePadding(w: string, text: string, w': string)
    requires AllWhitespace(w) && AllWhitespace(w')
    ensures Replace(w + text + w') == Replace(text)
  {
    LowerAppend(w + text, w');
    LowerAppend(w, text);
    LowerNoop(w);
    LowerNoop(w');
    TrimPadding(w, Lower(text), w');
  }

  /**
   * `trim` runs before the filter: a heading ending in a space and a dropped
   * symbol keeps the space, so its slug ends in `-` (`copy ©` gives `copy-`).
   */
  lemma ReplaceTrailingSymbol(text: string, symbol: char)
    requires text != [] && !IsJsWhitespace(text[0])
    requires IsKept(text[|text| - 1]) && text[|text| - 1] != ' '
    requires !IsKept(symbol) && !IsJsWhitespace(symbol)
    ensures Replace(text + " " + [symbol]) == Replace(text) + "-"
  {
    var low := Lower(text);
    var padded := low + " " + [symbol];
    LowerCharKeepsWhitespace(text[0]);
    LowerAppend(text + " ", [symbol]);
    LowerAppend(text, " ");
    assert Lower([symbol]) == [symbol];
    assert Lower(text + " " + [symbol]) == padded;
    assert padded[0] == low[0] && padded[|padded| - 1] == symbol;
    TrimNoop(padded);
    TrimNoop(low);
    StripAppend(low + " ", [symbol]);
    StripAppend(low, " ");
    assert StripPunctuation(" ") == " ";
    assert StripPunctuation([symbol]) == [];
    var kept := StripPunctuation(low);
    assert StripPunctuation(padded) == kept + " ";
    HyphenateAppend(kept, " ");
    assert Hyphenate(" ") == "-";
  }

  /**
   * A slug followed by a space and a dropped symbol gets a trailing `-`: the
   * heading `copy ©` has the slug `copy-`, and `ampersand &` has `ampersand-`.
   */
  lemma ReplaceSlugThenSymbol(slug: string, symbol: char)
    requires slug != [] && IsSlug(slug)
    requires !IsKept(symbol) && !IsJsWhitespace(symbol)
    ensures Replace(slug + " " + [symbol]) == slug + "-"
  {
    assert IsSlugChar(slug[0]) && IsSlugChar(slug[|slug| - 1]);
    ReplaceOfSlug(slug);
    ReplaceTrailingSymbol(slug, symbol);
  }

  // ---------------------------------------------------------------------------
  // Heading content
  // ---------------------------------------------------------------------------

  /**
   * Heading content as the renderer hands it over: a text leaf, or an inline
   * element (code span, emphasis, link, ...) with its ordered children. An
   * element whose `props.children` is a single string `s` is `Element([Leaf(s)])`.
   */
  datatype Node = Leaf(text: string) | Element(children: seq<Node>)

  /** The text of a node: its leaves depth-first, left to right, with no separator. */
  function Flatten(node: Node): string
    decreases node, 1
  {
    match node
    case Leaf(t) => t
    case Element(cs) => FlattenAll(cs)
  }

  /** The texts of a sequence of nodes, concatenated in order. */
  function FlattenAll(nodes: seq<Node>): string
    decreases nodes, 0
  {
    if nodes == [] then "" else FlattenAll(nodes[..|nodes| - 1]) + Flatten(nodes[|nodes| - 1])
  }

  /** The leaf texts of a node in depth-first, left-to-right order. */
  function Leaves(node: Node): seq<string>
    decreases node, 1
  {
    match node
    case Leaf(t) => [t]
    case Element(cs) => LeavesAll(cs)
  }

  function LeavesAll(nodes: seq<Node>): seq<string>
    decreases nodes, 0
  {
    if nodes == [] then [] else LeavesAll(nodes[..|nodes| - 1]) + Leaves(nodes[|nodes| - 1])
  }

  /** Concatenation of a list of strings with no separator. */
  function Concat(parts: seq<string>): string
  {
    if parts == [] then "" else Concat(parts[..|parts| - 1]) + parts[|parts| - 1]
  }

  lemma {:induction false} ConcatAppend(a: seq<string>, b: seq<string>)
    ensures Concat(a + b) == Concat(a) + Concat(b)
    decreases |b|
  {
    if b != [] {
      assert (a + b)[..|a + b| - 1] == a + b[..|b| - 1];
      ConcatAppend(a, b[..|b| - 1]);
    } else {
      assert a + b == a;
    }
  }

  /** The flattened text of a node is exactly its leaves, concatenated in order. */
  lemma {:induction false} FlattenIsConcatOfLeaves(node: Node)
    ensures Flatten(node) == Concat(Leaves(node))
    decreases node, 1
  {
    match node
    case Leaf(t) =>
      assert Concat([t]) == Concat([]) + t;
    case Element(cs) =>
      FlattenAllIsConcatOfLeaves(cs);
  }

  lemma {:induction false} FlattenAllIsConcatOfLeaves(nodes: seq<Node>)
    ensures FlattenAll(nodes) == Concat(LeavesAll(nodes))
    decreases nodes, 0
  {
    if nodes != [] {
      var init, last := nodes[..|nodes| - 1], nodes[|nodes| - 1];
      FlattenAllIsConcatOfLeaves(init);
      FlattenIsConcatOfLeaves(last);
      ConcatAppend(LeavesAll(init), Leaves(last));
    }
  }

  lemma FlattenAllSnoc(nodes: seq<Node>, i: nat)
    requires i < |nodes|
    ensures FlattenAll(nodes[..i + 1]) == FlattenAll(nodes[..i]) + Flatten(nodes[i])
  {
    assert nodes[..i + 1][..i] == nodes[..i];
  }

  /** `extractString`: the text of one heading child, built up child by child. */
  method ExtractString(node: Node) returns (title: string)
    ensures title == Flatten(node)
    decreases node
  {
    title := "";
    match node {
      case Leaf(t) =>
        title := title + t;
      case Element(cs) =>
        var i := 0;
        while i < |cs|
          invariant 0 <= i <= |cs|
          invariant title == FlattenAll(cs[..i])
        {
          var part := ExtractString(cs[i]);
          FlattenAllSnoc(cs, i);
          title := title + part;
          i := i + 1;
        }
        assert cs[..i] == cs;
    }
  }

  // ---------------------------------------------------------------------------
  // Duplicate numbering
  // ---------------------------------------------------------------------------

  /** The count stored for `base`; a base never seen reads as 0 (`this.slugs[slug] || 0`). */
  function CountOf(slugs: map<string, nat>, base: string): nat
  {
    if base in slugs then slugs[base] else 0
  }

  /** The table after one more use of `base`. */
  function Counted(slugs: map<string, nat>, base: string): map<string, nat>
  {
    slugs[base := CountOf(slugs, base) + 1]
  }

  /** Counting a base raises its own count by one and leaves every other count as it was. */
  lemma CountedOnlyBase(slugs: map<string, nat>, base: string, other: string)
    ensures CountOf(Counted(slugs, base), base) == CountOf(slugs, base) + 1
    ensures other != base ==> CountOf(Counted(slugs, base), other) == CountOf(slugs, other)
    ensures base in Counted(slugs, base) && Counted(slugs, base).Keys == slugs.Keys + {base}
  {
  }

  /** The id handed out for `base` after `k` earlier occurrences of it. */
  function Suffixed(base: string, k: nat): string
  {
    if k == 0 then base else base + "-" + NatToString(k)
  }

  /** Different counts give different ids for the same base, and a suffixed id is never bare. */
  lemma SuffixedInjective(base: string, k: nat, k': nat)
    requires k != k'
    ensures Suffixed(base, k) != Suffixed(base, k')
  {
    if k != 0 && k' != 0 {
      NatToStringInjective(k, k');
      var id, id' := Suffixed(base, k), Suffixed(base, k');
      assert id[|base| + 1..] == NatToString(k);
      assert id'[|base| + 1..] == NatToString(k');
    }
  }

  /**
   * The slug table of one document pass (`this.slugs`): the number of times
   * each base slug has been handed out since construction or the last `reset`.
   */
  class GithubSlugify {
    var slugs: map<string, nat>

    constructor()
      ensures slugs == map[]
    {
      slugs := map[];
    }

    /** `slug`: the base slug of `text`, numbered by how often that base was seen before. */
    method Slug(text: string) returns (uniqueSlug: string)
      modifies this
      ensures uniqueSlug == Suffixed(Replace(text), CountOf(old(slugs), Replace(text)))
      ensures slugs == Counted(old(slugs), Replace(text))
    {
      var slug := Replace(text);
      uniqueSlug := slug;
      slugs := slugs[slug := CountOf(slugs, slug)];
      if slugs[slug] != 0 {
        uniqueSlug := slug + "-" + NatToString(slugs[slug]);
      }
      slugs := slugs[slug := slugs[slug] + 1];
    }

    /** `slugNode`: concatenate the text of all heading children, then slug it once. */
    method SlugNode(nodes: seq<Node>) returns (uniqueSlug: string)
      modifies this
      ensures var base := Replace(FlattenAll(nodes));
              && uniqueSlug == Suffixed(base, CountOf(old(slugs), base))
              && slugs == Counted(old(slugs), base)
    {
      var title := "";
      var i := 0;
      while i < |nodes|
        invariant 0 <= i <= |nodes|
        invariant title == FlattenAll(nodes[..i])
        invariant slugs == old(slugs)
      {
        var part := ExtractString(nodes[i]);
        FlattenAllSnoc(nodes, i);
        title := title + part;
        i := i + 1;
      }
      assert nodes[..i] == nodes;
      uniqueSlug := Slug(title);
    }

    /** `reset`: forget every count. */
    method Reset()
      modifies this
      ensures slugs == map[]
    {
      slugs := map[];
    }
  }

  // ---------------------------------------------------------------------------
  // A whole pass: the ids handed out for a sequence of base slugs
  // ---------------------------------------------------------------------------

  /** The base slugs of a sequence of heading texts. */
  function Bases(texts: seq<string>): seq<string>
  {
    seq(|texts|, i requires 0 <= i < |texts| => Replace(texts[i]))
  }

  /** The table after handing out ids for `bases` in order, starting from `slugs`. */
  function CountsAfter(slugs: map<string, nat>, bases: seq<string>): map<string, nat>
  {
    if bases == [] then slugs
    else
      var before := CountsAfter(slugs, bases[..|bases| - 1]);
      var base := bases[|bases| - 1];
      Counted(before, base)
  }

  /** The ids handed out for `bases` in order, starting from `slugs`: a chain of `slug` calls. */
  function PassIds(slugs: map<string, nat>, bases: seq<string>): seq<string>
  {
    if bases == [] then []
    else
      var before := CountsAfter(slugs, bases[..|bases| - 1]);
      var base := bases[|bases| - 1];
      PassIds(slugs, bases[..|bases| - 1]) + [Suffixed(base, CountOf(before, base))]
  }

  /** One more heading at the end of a pass: its id comes from the table the earlier ones left. */
  lemma PassSnoc(slugs: map<string, nat>, bases: seq<string>, i: nat)
    requires i < |bases|
    ensures var before := CountsAfter(slugs, bases[..i]);
            && PassIds(slugs, bases[..i + 1])
               == PassIds(slugs, bases[..i]) + [Suffixed(bases[i], CountOf(before, bases[i]))]
            && CountsAfter(slugs, bases[..i + 1]) == Counted(before, bases[i])
  {
    assert bases[..i + 1][..i] == bases[..i];
  }

  /** How many entries of `bases` equal `base`. */
  function Occurrences(bases: seq<string>, base: string): nat
  {
    if bases == [] then 0
    else Occurrences(bases[..|bases| - 1], base) + if bases[|bases| - 1] == base then 1 else 0
  }

  /** After a pass, the table holds for each base its old count plus its occurrences in the pass. */
  lemma {:induction false} CountsAfterCounts(slugs: map<string, nat>, bases: seq<string>, base: string)
    ensures CountOf(CountsAfter(slugs, bases), base) == CountOf(slugs, base) + Occurrences(bases, base)
  {
    if bases != [] {
      CountsAfterCounts(slugs, bases[..|bases| - 1], base);
    }
  }

  lemma {:induction false} PassIdsLength(slugs: map<string, nat>, bases: seq<string>)
    ensures |PassIds(slugs, bases)| == |bases|
  {
    if bases != [] {
      PassIdsLength(slugs, bases[..|bases| - 1]);
    }
  }

  /**
   * The i-th heading of a pass gets its base slug, suffixed with the number of
   * earlier occurrences of that base in the table or in the pass.
   */
  lemma {:induction false} PassIdAt(slugs: map<string, nat>, bases: seq<string>, i: nat)
    requires i < |bases|
    ensures |PassIds(slugs, bases)| == |bases|
    ensures PassIds(slugs, bases)[i]
            == Suffixed(bases[i], CountOf(slugs, bases[i]) + Occurrences(bases[..i], bases[i]))
  {
    PassIdsLength(slugs, bases);
    var init := bases[..|bases| - 1];
    PassIdsLength(slugs, init);
    if i == |bases| - 1 {
      CountsAfterCounts(slugs, init, bases[i]);
    } else {
      PassIdAt(slugs, init, i);
      assert init[..i] == bases[..i];
    }
  }

  /**
   * In a pass that starts from an empty table (right after `reset`), the first
   * heading with a base gets the bare base and the k-th repeat gets `base-k`;
   * headings with other bases in between make no difference.
   */
  lemma FreshPassIdAt(bases: seq<string>, i: nat)
    requires i < |bases|
    ensures |PassIds(map[], bases)| == |bases|
    ensures var k := Occurrences(bases[..i], bases[i]);
            PassIds(map[], bases)[i] == if k == 0 then bases[i] else bases[i] + "-" + NatToString(k)
  {
    PassIdAt(map[], bases, i);
  }

  lemma {:induction false} OccurrencesAbsent(bases: seq<string>, n: nat, base: string)
    requires n <= |bases|
    requires forall p :: 0 <= p < n ==> bases[p] != base
    ensures Occurrences(bases[..n], base) == 0
  {
    if n > 0 {
      OccurrencesAbsent(bases, n - 1, base);
      assert bases[..n][..n - 1] == bases[..n - 1];
    }
  }

  /** A heading whose base did not occur earlier in a fresh pass gets the bare base. */
  lemma FirstOccurrenceBare(bases: seq<string>, i: nat)
    requires i < |bases|
    requires forall p :: 0 <= p < i ==> bases[p] != bases[i]
    ensures |PassIds(map[], bases)| == |bases|
    ensures PassIds(map[], bases)[i] == bases[i]
  {
    PassIdAt(map[], bases, i);
    OccurrencesAbsent(bases, i, bases[i]);
  }

  /** When no two headings of a fresh pass share a base, every heading gets its bare base slug. */
  lemma DistinctBasesStayBare(bases: seq<string>)
    requires forall i, j :: 0 <= i < j < |bases| ==> bases[i] != bases[j]
    ensures PassIds(map[], bases) == bases
  {
    PassIdsLength(map[], bases);
    var ids := PassIds(map[], bases);
    forall i | 0 <= i < |bases| ensures ids[i] == bases[i] {
      FirstOccurrenceBare(bases, i);
    }
  }

  lemma {:induction false} OccurrencesGrow(bases: seq<string>, i: nat, j: nat)
    requires i < j <= |bases|
    ensures Occurrences(bases[..j], bases[i]) > Occurrences(bases[..i], bases[i])
  {
    assert bases[..j][..j - 1] == bases[..j - 1];
    if j > i + 1 {
      OccurrencesGrow(bases, i, j - 1);
    }
  }

  /** Two headings of one pass that share a base slug never get the same id. */
  lemma SameBaseDistinctIds(slugs: map<string, nat>, bases: seq<string>, i: nat, j: nat)
    requires i < j < |bases| && bases[i] == bases[j]
    ensures |PassIds(slugs, bases)| == |bases|
    ensures PassIds(slugs, bases)[i] != PassIds(slugs, bases)[j]
  {
    PassIdAt(slugs, bases, i);
    PassIdAt(slugs, bases, j);
    OccurrencesGrow(bases, i, j);
    SuffixedInjective(bases[i], CountOf(slugs, bases[i]) + Occurrences(bases[..i], bases[i]),
                      CountOf(slugs, bases[i]) + Occurrences(bases[..j], bases[i]));
  }

  /**
   * Numbering does not make ids unique across bases: a heading whose base is
   * already `base-1` and a second heading with base `base` get the same id.
   */
  lemma SuffixCanCollide(base: string)
    ensures PassIds(map[], [base + "-1", base, base]) == [base + "-1", base, base + "-1"]
  {
    var bases := [base + "-1", base, base];
    assert base + "-1" != base by {
      assert |base + "-1"| != |base|;
    }
    PassIdAt(map[], bases, 0);
    PassIdAt(map[], bases, 1);
    PassIdAt(map[], bases, 2);
    assert bases[..1] == [base + "-1"] && [base + "-1"][..0] == [];
    assert bases[..2] == [base + "-1", base] && bases[..2][..1] == [base + "-1"];
    assert Occurrences(bases[..1], base) == 0;
    assert Occurrences(bases[..2], base) == 1;
    assert NatToString(1) == "1";
    var ids := PassIds(map[], bases);
    assert base + "-" + "1" == base + "-1";
    assert |ids| == 3 && ids[0] == base + "-1" && ids[1] == base && ids[2] == base + "-1";
  }

  /**
   * The numbering of the slugger's own examples, for any two different bases:
   * repeats of the first are numbered `-1`, `-2` whatever comes in between.
   */
  lemma RepeatsNumbered(a: string, b: string)
    requires a != b
    ensures PassIds(map[], [a, b, a, a, b]) == [a, b, a + "-1", a + "-2", b + "-1"]
  {
    var bases := [a, b, a, a, b];
    RepeatsCounted(a, b);
    FreshPassIdAt(bases, 0);
    FreshPassIdAt(bases, 1);
    FreshPassIdAt(bases, 2);
    FreshPassIdAt(bases, 3);
    FreshPassIdAt(bases, 4);
    assert NatToString(1) == "1" && NatToString(2) == "2";
    assert a + "-" + "1" == a + "-1" && a + "-" + "2" == a + "-2" && b + "-" + "1" == b + "-1";
  }

  /** How often each heading's base occurs before it in `a, b, a, a, b`. */
  lemma RepeatsCounted(a: string, b: string)
    requires a != b
    ensures var bases := [a, b, a, a, b];
            && Occurrences(bases[..0], a) == 0 && Occurrences(bases[..1], b) == 0
            && Occurrences(bases[..2], a) == 1 && Occurrences(bases[..3], a) == 2
            && Occurrences(bases[..4], b) == 1
  {
    var bases := [a, b, a, a, b];
    assert bases[..1] == [a] && [a][..0] == [];
    assert bases[..2] == [a, b] && [a, b][..1] == [a];
    assert bases[..3] == [a, b, a] && [a, b, a][..2] == [a, b];
    assert bases[..4] == [a, b, a, a] && [a, b, a, a][..3] == [a, b, a];
    assert Occurrences([a], a) == 1 && Occurrences([a], b) == 0;
    assert Occurrences([a, b], a) == 1 && Occurrences([a, b], b) == 1;
    assert Occurrences([a, b, a], a) == 2 && Occurrences([a, b, a], b) == 1;
    assert Occurrences([a, b, a, a], b) == 1;
  }
}
