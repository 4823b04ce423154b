/**
 * URI references and their resolution against a base, after section 5.2 of
 * RFC 3986. This is the part of `url-parse` the component relies on: split a
 * reference into scheme, authority, path and fragment, put the pieces back
 * together, merge a relative path into a base path and remove dot segments.
 * Query strings are not split off (they stay in the path).
 */
module Url {
  import opened Wrappers
  import opened Strings

  /** A parsed URI reference (section 4.1 of RFC 3986, query omitted). */
  datatype Uri = Uri(scheme: Option<string>, authority: Option<string>, path: string, fragment: Option<string>)

  predicate IsLetter(c: char)
  {
    IsUpper(c) || IsLower(c)
  }

  /** `scheme = ALPHA *( ALPHA / DIGIT / "+" / "-" / "." )`, section 3.1 of RFC 3986. */
  predicate IsScheme(s: string)
  {
    && s != []
    && IsLetter(s[0])
    && forall i :: 0 <= i < |s| ==> IsLetter(s[i]) || IsDigit(s[i]) || s[i] in "+-."
  }

  predicate StartsWith(s: string, p: string)
  {
    |p| <= |s| && s[..|p|] == p
  }

  /** A reference with a scheme is absolute; everything else is relative. */
  predicate IsAbsolute(u: Uri)
  {
    u.scheme.Some?
  }

  /** The fragment: everything after the first `#`. */
  function FragmentOf(s: string): (f: Option<string>)
    ensures f.Some? <==> '#' in s
    ensures f.Some? ==> s == s[..IndexOf(s, '#')] + "#" + f.value
  {
    var h := IndexOf(s, '#');
    if h == |s| then None
    else
      assert s == s[..h] + "#" + s[h + 1..];
      Some(s[h + 1..])
  }

  /** The reference before its fragment. */
  function BeforeFragment(s: string): (b: string)
    ensures '#' !in b
  {
    var h := IndexOf(s, '#');
    assert forall j :: 0 <= j < h ==> s[..h][j] != '#';
    s[..h]
  }

  /** Split off a leading scheme and its `:`, when the text before the first `:` is one. */
  function SplitScheme(body: string): (r: (Option<string>, string))
    ensures SchemeText(r.0) + r.1 == body
    ensures r.0.Some? ==> IsScheme(r.0.value)
  {
    var colon := IndexOf(body, ':');
    if colon < |body| && IsScheme(body[..colon]) then
      assert body == body[..colon] + ":" + body[colon + 1..];
      (Some(body[..colon]), body[colon + 1..])
    else (None, body)
  }

  /** Split off an authority: what follows a leading `//` up to the next `/`. */
  function SplitAuthority(rest: string): (r: (Option<string>, string))
    ensures AuthorityText(r.0) + r.1 == rest
    ensures r.0.Some? ==> '/' !in r.0.value && (r.1 == [] || r.1[0] == '/')
  {
    if StartsWith(rest, "//") then
      var slash := 2 + IndexOf(rest[2..], '/');
      assert rest == "//" + rest[2..slash] + rest[slash..];
      assert forall j :: 0 <= j < slash - 2 ==> rest[2..slash][j] == rest[2..][j];
      (Some(rest[2..slash]), rest[slash..])
    else (None, rest)
  }

  /** Split a reference into its components. */
  function Parse(s: string): Uri
  {
    var schemeAndRest := SplitScheme(BeforeFragment(s));
    var authorityAndPath := SplitAuthority(schemeAndRest.1);
    Uri(schemeAndRest.0, authorityAndPath.0, authorityAndPath.1, FragmentOf(s))
  }

  function SchemeText(scheme: Option<string>): string
  {
    if scheme.Some? then scheme.value + ":" else ""
  }

  function AuthorityText(authority: Option<string>): string
  {
    if authority.Some? then "//" + authority.value else ""
  }

  function FragmentText(fragment: Option<string>): string
  {
    if fragment.Some? then "#" + fragment.value else ""
  }

  /** Component recomposition, section 5.3 of RFC 3986 (the `href` of a parsed reference). */
  function Recompose(u: Uri): string
  {
    SchemeText(u.scheme) + AuthorityText(u.authority) + u.path + FragmentText(u.fragment)
  }

  lemma AppendAssoc(a: string, b: string, c: string)
    ensures a + b + c == a + (b + c)
  {
  }

  lemma BeforeFragmentThenFragment(s: string)
    ensures s == BeforeFragment(s) + FragmentText(FragmentOf(s))
  {
    var h := IndexOf(s, '#');
    if h == |s| {
      assert s[..|s|] == s && s + "" == s;
    } else {
      var f := s[h + 1..];
      assert FragmentOf(s) == Some(f) && BeforeFragment(s) == s[..h];
      assert s == s[..h] + "#" + f;
      AppendAssoc(s[..h], "#", f);
    }
  }

  /** Parsing loses nothing: recomposing the parsed reference gives the original text. */
  lemma RecomposeParse(s: string)
    ensures Recompose(Parse(s)) == s
  {
    var body := BeforeFragment(s);
    var r1 := SplitScheme(body);
    var r2 := SplitAuthority(r1.1);
    AppendAssoc(SchemeText(r1.0), AuthorityText(r2.0), r2.1);
    assert SchemeText(r1.0) + AuthorityText(r2.0) + r2.1 == body;
    BeforeFragmentThenFragment(s);
  }

  /**
   * An absolute-path reference (section 4.2): a path starting with one `/`
   * and no scheme or authority before it.
   */
  predicate IsAbsolutePathRef(ref: Uri)
  {
    ref.scheme.None? && ref.authority.None? && ref.path != [] && ref.path[0] == '/'
  }

  /** A path `/p` without `#` and not starting `//` parses as an absolute-path reference. */
  lemma ParseAbsolutePath(p: string)
    requires '#' !in p && (p == [] || p[0] != '/')
    ensures Parse("/" + p) == Uri(None, None, "/" + p, None)
  {
    var s := "/" + p;
    NoFragment(s);
    var colon := IndexOf(s, ':');
    assert colon < |s| ==> !IsScheme(s[..colon]) by {
      if colon < |s| {
        assert colon > 0 && s[..colon][0] == '/';
      }
    }
    assert SplitScheme(s) == (None, s);
    assert !StartsWith(s, "//") by {
      if |s| >= 2 {
        assert s[..2][1] == s[1];
      }
    }
  }

  /** The fragment of a reference is what follows its first `#`, whatever the rest holds. */
  lemma ParseFragment(s: string, f: string)
    requires '#' !in s
    ensures Parse(s + "#" + f) == Parse(s).(fragment := Some(f))
  {
    IndexOfSeparator(s, '#', f);
    assert IndexOf(s, '#') == |s|;
    assert (s + "#" + f)[..|s|] == s;
    assert BeforeFragment(s + "#" + f) == BeforeFragment(s);
    assert (s + "#" + f)[|s| + 1..] == f;
  }

  lemma NoFragment(s: string)
    requires '#' !in s
    ensures BeforeFragment(s) == s && FragmentOf(s).None?
  {
    assert IndexOf(s, '#') == |s|;
    assert s[..|s|] == s;
  }

  lemma SplitSchemeOf(scheme: string, rest: string)
    requires IsScheme(scheme)
    ensures SplitScheme(scheme + ":" + rest) == (Some(scheme), rest)
  {
    assert ':' !in scheme by {
      forall i | 0 <= i < |scheme| ensures scheme[i] != ':' {
        assert IsLetter(scheme[i]) || IsDigit(scheme[i]) || scheme[i] in "+-.";
      }
    }
    var body := scheme + ":" + rest;
    IndexOfSeparator(scheme, ':', rest);
    assert body[..|scheme|] == scheme;
    assert body[|scheme| + 1..] == rest;
  }

  lemma SplitAuthorityOf(host: string, path: string)
    requires '/' !in host && (path == [] || path[0] == '/')
    ensures SplitAuthority("//" + host + path) == (Some(host), path)
  {
    var rest := "//" + host + path;
    assert StartsWith(rest, "//");
    assert rest[2..] == host + path;
    if path == [] {
      assert host + path == host;
      assert IndexOf(host, '/') == |host|;
    } else {
      assert host + path == host + ['/'] + path[1..];
      IndexOfSeparator(host, '/', path[1..]);
    }
    assert rest[2..2 + |host|] == host && rest[2 + |host|..] == path;
  }

  /** How `scheme://host/path` splits into its components. */
  lemma ParseShape(scheme: string, host: string, path: string)
    requires IsScheme(scheme)
    requires '/' !in host && (path == [] || path[0] == '/')
    requires '#' !in scheme + "://" + host + path
    ensures Parse(scheme + "://" + host + path) == Uri(Some(scheme), Some(host), path, None)
  {
    var s := scheme + "://" + host + path;
    var rest := "//" + host + path;
    SchemeColon(scheme, host, path);
    NoFragment(s);
    SplitSchemeOf(scheme, rest);
    assert SplitScheme(BeforeFragment(s)) == (Some(scheme), rest);
    SplitAuthorityOf(host, path);
  }

  /** `scheme://host/path` is the scheme, a colon, and `//host/path`. */
  lemma SchemeColon(scheme: string, host: string, path: string)
    ensures scheme + "://" + host + path == scheme + ":" + ("//" + host + path)
  {
    assert "://" == ":" + "//";
    AppendAssoc(scheme, ":", "//");
    AppendAssoc(scheme + ":", "//", host);
    AppendAssoc(scheme + ":", "//" + host, path);
  }

  /** `scheme://host/path#fragment` parses back into exactly those components. */
  lemma ParseAbsolute(scheme: string, host: string, path: string, fragment: Option<string>)
    requires IsScheme(scheme)
    requires '/' !in host && '#' !in host && (path == [] || path[0] == '/') && '#' !in path
    ensures Parse(scheme + "://" + host + path + FragmentText(fragment)) == Uri(Some(scheme), Some(host), path, fragment)
  {
    var s := scheme + "://" + host + path;
    assert '#' !in scheme by {
      forall i | 0 <= i < |scheme| ensures scheme[i] != '#' {
        assert IsLetter(scheme[i]) || IsDigit(scheme[i]) || scheme[i] in "+-.";
      }
    }
    assert '#' !in s by {
      AppendAssoc(scheme + "://", host, path);
    }
    ParseShape(scheme, host, path);
    if fragment.Some? {
      ParseFragment(s, fragment.value);
      AppendAssoc(s, "#", fragment.value);
    } else {
      assert s + FragmentText(fragment) == s;
    }
  }

  // ---------------------------------------------------------------------------
  // Dot-segment removal, section 5.2.4 of RFC 3986
  // ---------------------------------------------------------------------------

  /** Where the first segment of `s` ends: at the first `/` after position 0, or at the end. */
  function SegEnd(s: string): (e: nat)
    ensures s != [] ==> 1 <= e
    ensures e <= |s|
    ensures forall j :: 1 <= j < e ==> s[j] != '/'
    ensures e < |s| ==> s[e] == '/'
  {
    if s == [] then 0 else 1 + IndexOf(s[1..], '/')
  }

  /**
   * `out` without its last segment and the `/` before it (step 2C): the
   * prefix before the last `/`, or nothing when there is no `/`.
   */
  function RemoveLast(out: string): (r: string)
    ensures |r| <= |out| && r == out[..|r|]
    ensures '/' !in out ==> r == []
    ensures '/' in out ==> |r| < |out| && out[|r|] == '/' && '/' !in out[|r| + 1..]
  {
    if out == [] then []
    else if out[|out| - 1] == '/' then out[..|out| - 1]
    else
      var r := RemoveLast(out[..|out| - 1]);
      assert '/' in out ==> '/' in out[..|out| - 1];
      assert '/' in out ==> out[|r| + 1..] == out[..|out| - 1][|r| + 1..] + [out[|out| - 1]];
      r
  }

  /** Step 2C drops exactly the last segment: `d/s` becomes `d`. */
  lemma RemoveLastSegment(d: string, s: string)
    requires '/' !in s
    ensures RemoveLast(d + "/" + s) == d
  {
    var out := d + "/" + s;
    assert out[|d|] == '/';
    var r := RemoveLast(out);
    assert out[|d| + 1..] == s;
    assert |r| == |d|;
    assert out[..|d|] == d;
  }

  /**
   * One pass of the loop in section 5.2.4 of RFC 3986: the first of steps
   * 2A to 2E that applies, as the new input and output buffers.
   */
  function Next(input: string, out: string): (r: (string, string))
    requires input != []
    ensures |r.0| < |input|
  {
    // 2A: a leading "../" or "./" is dropped
    if |input| >= 3 && input[0] == '.' && input[1] == '.' && input[2] == '/' then (input[3..], out)
    else if |input| >= 2 && input[0] == '.' && input[1] == '/' then (input[2..], out)
    // 2B: a leading "/./" or a complete "/." becomes "/"
    else if |input| >= 3 && input[0] == '/' && input[1] == '.' && input[2] == '/' then (input[2..], out)
    else if |input| == 2 && input[0] == '/' && input[1] == '.' then ("/", out)
    // 2C: a leading "/../" or a complete "/.." becomes "/" and drops the last output segment
    else if |input| >= 4 && input[0] == '/' && input[1] == '.' && input[2] == '.' && input[3] == '/'
    then (input[3..], RemoveLast(out))
    else if |input| == 3 && input[0] == '/' && input[1] == '.' && input[2] == '.' then ("/", RemoveLast(out))
    // 2D: a complete "." or ".." is dropped
    else if (|input| == 1 && input[0] == '.') || (|input| == 2 && input[0] == '.' && input[1] == '.') then ("", out)
    // 2E: the first segment moves to the output
    else
      var e := SegEnd(input);
      (input[e..], out + input[..e])
  }

  /** Whether one of steps 2A to 2D applies to `s`. */
  predicate DotRuleApplies(s: string)
  {
    || (|s| >= 3 && s[0] == '.' && s[1] == '.' && s[2] == '/')
    || (|s| >= 2 && s[0] == '.' && s[1] == '/')
    || (|s| >= 3 && s[0] == '/' && s[1] == '.' && s[2] == '/')
    || (|s| == 2 && s[0] == '/' && s[1] == '.')
    || (|s| >= 4 && s[0] == '/' && s[1] == '.' && s[2] == '.' && s[3] == '/')
    || (|s| == 3 && s[0] == '/' && s[1] == '.' && s[2] == '.')
    || (|s| == 1 && s[0] == '.')
    || (|s| == 2 && s[0] == '.' && s[1] == '.')
  }

  /** Steps 2A to 2E applied until the input buffer is empty; the output buffer is the result. */
  function Rds(input: string, out: string): string
    decreases |input|
  {
    if input == [] then out
    else
      var next := Next(input, out);
      Rds(next.0, next.1)
  }

  function RemoveDotSegments(path: string): string
  {
    Rds(path, "")
  }

  /** A first segment that one of steps 2A to 2D acts on: `.`, `..`, `/.` or `/..`. */
  predicate IsDotSegment(seg: string)
  {
    || (|seg| == 1 && seg[0] == '.')
    || (|seg| == 2 && seg[0] == '.' && seg[1] == '.')
    || (|seg| == 2 && seg[0] == '/' && seg[1] == '.')
    || (|seg| == 3 && seg[0] == '/' && seg[1] == '.' && seg[2] == '.')
  }

  /** A path none of whose segments is `.` or `..`. */
  predicate DotFree(s: string)
    decreases |s|
  {
    s == [] || (!IsDotSegment(s[..SegEnd(s)]) && DotFree(s[SegEnd(s)..]))
  }

  /** Each of steps 2A to 2D needs the first segment to be a dot segment. */
  lemma DotStepSegment(s: string)
    ensures DotRuleApplies(s) ==> IsDotSegment(s[..SegEnd(s)])
  {
    if DotRuleApplies(s) {
      var e := SegEnd(s);
      if s[0] == '.' && |s| >= 2 && s[1] == '/' {
        assert e == 1;
      } else if |s| >= 3 && s[1] == '.' && s[2] == '/' {
        assert e == 2;
      } else if |s| >= 4 && s[0] == '/' && s[3] == '/' {
        assert e == 3;
      } else {
        assert e == |s|;
      }
    }
  }

  /** When the first segment is not a dot segment, step 2E moves it to the output. */
  lemma RdsStep(s: string, out: string)
    requires s != [] && !IsDotSegment(s[..SegEnd(s)])
    ensures Next(s, out) == (s[SegEnd(s)..], out + s[..SegEnd(s)])
    ensures Rds(s, out) == Rds(s[SegEnd(s)..], out + s[..SegEnd(s)])
  {
    DotStepSegment(s);
  }

  /** The first segment of `a + b` is that of `a` when `b` is empty or starts a new segment. */
  lemma SegEndAppend(a: string, b: string)
    requires a != []
    requires b == [] || b[0] == '/'
    ensures SegEnd(a + b) == SegEnd(a)
    ensures (a + b)[..SegEnd(a)] == a[..SegEnd(a)]
    ensures (a + b)[SegEnd(a)..] == a[SegEnd(a)..] + b
  {
    var s := a + b;
    var e := SegEnd(a);
    assert forall j :: 1 <= j < e ==> s[j] == a[j];
    if e < |a| {
      assert s[e] == '/';
    } else if b != [] {
      assert s[e] == b[0];
    }
    IndexOfPrefix(s[1..], e - 1);
  }

  lemma IndexOfPrefix(s: string, k: nat)
    requires k <= |s|
    requires forall j :: 0 <= j < k ==> s[j] != '/'
    requires k == |s| || s[k] == '/'
    ensures IndexOf(s, '/') == k
  {
  }

  /** A dot-free prefix passes through step 2E unchanged, one segment at a time. */
  lemma {:induction false} RdsAppend(a: string, b: string, out: string)
    requires DotFree(a)
    requires b == [] || b[0] == '/'
    ensures Rds(a + b, out) == Rds(b, out + a)
    decreases |a|
  {
    if a == [] {
      assert a + b == b && out + a == out;
    } else {
      var e := SegEnd(a);
      var head, tail := a[..e], a[e..];
      RdsAppendStep(a, b, out);
      RdsAppend(tail, b, out + head);
    }
  }

  /** One step of `RdsAppend`: the first segment of `a` moves to the output. */
  lemma RdsAppendStep(a: string, b: string, out: string)
    requires a != [] && DotFree(a)
    requires b == [] || b[0] == '/'
    ensures DotFree(a[SegEnd(a)..])
    ensures Rds(a + b, out) == Rds(a[SegEnd(a)..] + b, out + a[..SegEnd(a)])
    ensures out + a[..SegEnd(a)] + a[SegEnd(a)..] == out + a
  {
    var e := SegEnd(a);
    assert a[..e] + a[e..] == a;
    AppendAssoc(out, a[..e], a[e..]);
    SegEndAppend(a, b);
    assert (a + b)[..SegEnd(a + b)] == a[..e] && (a + b)[SegEnd(a + b)..] == a[e..] + b;
    RdsStep(a + b, out);
  }

  /** Dot segment removal leaves a dot-free path as it is. */
  lemma DotFreeUnchanged(path: string)
    requires DotFree(path)
    ensures RemoveDotSegments(path) == path
  {
    RdsAppend(path, "", "");
    assert path + "" == path && "" + path == path;
  }

  // ---------------------------------------------------------------------------
  // Merging and resolution, sections 5.2.2 and 5.2.3 of RFC 3986
  // ---------------------------------------------------------------------------

  /** `path` up to and including its last `/`, or empty when it has none. */
  function Directory(path: string): (d: string)
    ensures |d| <= |path| && d == path[..|d|]
    ensures d == [] || d[|d| - 1] == '/'
  {
    if path == [] then []
    else if path[|path| - 1] == '/' then path
    else Directory(path[..|path| - 1])
  }

  /** Section 5.2.3: a relative path goes after the base's directory. */
  function Merge(base: Uri, path: string): string
  {
    if base.authority.Some? && base.path == [] then "/" + path
    else Directory(base.path) + path
  }

  /** Section 5.2.2 (strict), without the query: the target of `ref` against `base`. */
  function Resolve(base: Uri, ref: Uri): Uri
  {
    if ref.scheme.Some? then
      Uri(ref.scheme, ref.authority, RemoveDotSegments(ref.path), ref.fragment)
    else if ref.authority.Some? then
      Uri(base.scheme, ref.authority, RemoveDotSegments(ref.path), ref.fragment)
    else if ref.path == [] then
      Uri(base.scheme, base.authority, base.path, ref.fragment)
    else if ref.path[0] == '/' then
      Uri(base.scheme, base.authority, RemoveDotSegments(ref.path), ref.fragment)
    else
      Uri(base.scheme, base.authority, RemoveDotSegments(Merge(base, ref.path)), ref.fragment)
  }

  /** An absolute-path reference keeps the base's scheme and authority and only loses its dot segments. */
  lemma ResolveAbsolutePath(base: Uri, ref: Uri)
    requires IsAbsolutePathRef(ref)
    ensures Resolve(base, ref) == Uri(base.scheme, base.authority, RemoveDotSegments(ref.path), ref.fragment)
  {
  }

  /** The target always carries the reference's fragment, never the base's. */
  lemma ResolveKeepsFragment(base: Uri, ref: Uri)
    ensures Resolve(base, ref).fragment == ref.fragment
  {
  }

  /** An absolute reference with a dot-free path resolves to itself, whatever the base. */
  lemma ResolveAbsolute(base: Uri, ref: Uri)
    requires IsAbsolute(ref) && DotFree(ref.path)
    ensures Resolve(base, ref) == ref
  {
    DotFreeUnchanged(ref.path);
  }

  lemma DirectoryOfFile(dir: string, file: string)
    requires '/' !in file
    ensures Directory(dir + "/" + file) == dir + "/"
    decreases |file|
  {
    if file != [] {
      var p := dir + "/" + file;
      assert p[|p| - 1] == file[|file| - 1];
      assert p[..|p| - 1] == dir + "/" + file[..|file| - 1];
      DirectoryOfFile(dir, file[..|file| - 1]);
    } else {
      assert dir + "/" + file == dir + "/";
    }
  }

  /** A dot-free relative path after a dot-free directory comes out of dot removal as it is. */
  lemma RdsSibling(dir: string, q: string)
    requires DotFree(dir) && DotFree("/" + q)
    ensures RemoveDotSegments(dir + "/" + q) == dir + "/" + q
  {
    RdsDotFreePrefix(dir, "/" + q);
    RdsDotFreeRest("/" + q, dir);
    AppendAssoc(dir, "/", q);
  }

  /** A leading `./` in the relative part is dropped by step 2B. */
  lemma RdsSiblingDot(dir: string, q: string)
    requires DotFree(dir) && DotFree("/" + q)
    ensures RemoveDotSegments(dir + "/./" + q) == dir + "/" + q
  {
    RdsDotFreePrefix(dir, "/./" + q);
    RdsSlashDot(q, dir);
    RdsDotFreeRest("/" + q, dir);
    AppendAssoc(dir, "/./", q);
    AppendAssoc(dir, "/", q);
  }

  /** Step 2C: a leading `/../` becomes `/` and drops the last output segment. */
  lemma RdsSlashDotDot(q: string, out: string)
    ensures Rds("/../" + q, out) == Rds("/" + q, RemoveLast(out))
  {
    var rest := "/../" + q;
    assert rest[0] == '/' && rest[1] == '.' && rest[2] == '.' && rest[3] == '/';
    assert rest[3..] == "/" + q;
    assert Next(rest, out) == ("/" + q, RemoveLast(out));
  }

  /** A `..` segment cancels the segment before it: `d/s/../q` becomes `d/q`. */
  lemma RdsParent(d: string, s: string, q: string)
    requires DotFree(d + "/" + s) && '/' !in s && DotFree("/" + q)
    ensures RemoveDotSegments(d + "/" + s + "/../" + q) == d + "/" + q
  {
    var a := d + "/" + s;
    RdsDotFreePrefix(a, "/../" + q);
    RdsSlashDotDot(q, a);
    RemoveLastSegment(d, s);
    RdsDotFreeRest("/" + q, d);
    AppendAssoc(a, "/../", q);
    AppendAssoc(d, "/", q);
  }

  /** A dot-free prefix of the input goes to the output as it is. */
  lemma RdsDotFreePrefix(a: string, rest: string)
    requires DotFree(a) && rest != [] && rest[0] == '/'
    ensures RemoveDotSegments(a + rest) == Rds(rest, a)
  {
    RdsAppend(a, rest, "");
    assert "" + a == a;
  }

  /** A dot-free remaining input is appended to the output as it is. */
  lemma RdsDotFreeRest(t: string, out: string)
    requires DotFree(t) && (t == [] || t[0] == '/')
    ensures Rds(t, out) == out + t
  {
    RdsAppend(t, "", out);
    assert t + "" == t;
  }

  /** Step 2B: a leading `/./` becomes `/`. */
  lemma RdsSlashDot(q: string, out: string)
    ensures Rds("/./" + q, out) == Rds("/" + q, out)
  {
    var rest := "/./" + q;
    assert rest[0] == '/' && rest[1] == '.' && rest[2] == '/';
    assert rest[2..] == "/" + q;
    assert Next(rest, out) == ("/" + q, out);
  }

  /**
   * A relative path `q` (or `./q`) against a base whose path is `dir/file`
   * lands next to the file: the target path is `dir/q`, with the base's
   * scheme and authority and the reference's own fragment.
   */
  lemma ResolveSibling(base: Uri, ref: Uri, dir: string, file: string, q: string)
    requires base.path == dir + "/" + file && '/' !in file && DotFree(dir)
    requires ref.scheme.None? && ref.authority.None?
    requires ref.path == q || ref.path == "./" + q
    requires q != [] && q[0] != '/' && DotFree("/" + q)
    ensures Resolve(base, ref) == Uri(base.scheme, base.authority, dir + "/" + q, ref.fragment)
  {
    var merged := Merge(base, ref.path);
    MergeSibling(base, dir, file, ref.path);
    assert ref.path != [] && ref.path[0] != '/';
    assert Resolve(base, ref) == Uri(base.scheme, base.authority, RemoveDotSegments(merged), ref.fragment);
    if ref.path == q {
      RdsSibling(dir, q);
    } else {
      SlashDotAssoc(dir, q);
      RdsSiblingDot(dir, q);
    }
  }

  /** A relative path is merged after the directory of a base path `dir/file`. */
  lemma MergeSibling(base: Uri, dir: string, file: string, p: string)
    requires base.path == dir + "/" + file && '/' !in file
    ensures Merge(base, p) == dir + "/" + p
  {
    DirectoryOfFile(dir, file);
    assert base.path != [];
  }

  /**
   * A relative path `../q` against a base whose path is `dir/sub/file` goes
   * up one directory: the target path is `dir/q`.
   */
  lemma ResolveParent(base: Uri, ref: Uri, dir: string, sub: string, file: string, q: string)
    requires base.path == dir + "/" + sub + "/" + file && '/' !in file
    requires DotFree(dir + "/" + sub) && '/' !in sub
    requires ref.scheme.None? && ref.authority.None? && ref.path == "../" + q
    requires DotFree("/" + q)
    ensures Resolve(base, ref) == Uri(base.scheme, base.authority, dir + "/" + q, ref.fragment)
  {
    var a := dir + "/" + sub;
    MergeSibling(base, a, file, ref.path);
    assert ref.path[0] != '/';
    assert Resolve(base, ref) == Uri(base.scheme, base.authority, RemoveDotSegments(Merge(base, ref.path)), ref.fragment);
    AppendAssoc(a + "/", "../", q);
    AppendAssoc(a, "/", "../");
    assert "/" + "../" == "/../";
    RdsParent(dir, sub, q);
  }

  lemma SlashDotAssoc(dir: string, q: string)
    ensures dir + "/" + ("./" + q) == dir + "/./" + q
  {
    AppendAssoc(dir + "/", "./", q);
    AppendAssoc(dir, "/", "./");
    assert "/" + "./" == "/./";
  }
}
