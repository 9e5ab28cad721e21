/** URL handling: the five-component decomposition of a URL reference
    (RFC 3986 Appendix B, the component syntax of RFC 3986 section 3), its
    recomposition, and the helpers the downloader builds on it —
    `strip_document_from_url`, `get_first_folder_from_url`, the `hostname`
    of a parsed URL, percent-decoding (RFC 3986 section 2.1) and
    `clean_url_path_component`. */
module Urls {
  import opened Results
  import opened Strings

  /** A URL split into its components; `None` means the delimiter is absent. */
  datatype Url = Url(
    scheme: Option<string>,
    authority: Option<string>,
    path: string,
    query: Option<string>,
    fragment: Option<string>)

  const SchemeEnd: set<char> := {':', '/', '?', '#'}
  const AuthorityEnd: set<char> := {'/', '?', '#'}
  const PathEnd: set<char> := {'?', '#'}
  const QueryEnd: set<char> := {'#'}

  // ---------------------------------------------------------------------------
  // Decomposition, stage by stage, following `^(([^:/?#]+):)?(//([^/?#]*))?([^?#]*)(\?([^#]*))?(#(.*))?`

  function SplitScheme(s: string): (Option<string>, string) {
    var i := FirstIn(s, SchemeEnd);
    if 0 < i < |s| && s[i] == ':' then (Some(s[..i]), s[i + 1..]) else (None, s)
  }

  function SplitAuthority(s: string): (Option<string>, string) {
    if |s| >= 2 && s[0] == '/' && s[1] == '/' then
      var j := FirstIn(s[2..], AuthorityEnd);
      (Some(s[2..2 + j]), s[2 + j..])
    else (None, s)
  }

  function SplitPath(s: string): (string, string) {
    var k := FirstIn(s, PathEnd);
    (s[..k], s[k..])
  }

  function SplitQuery(s: string): (Option<string>, string) {
    if |s| > 0 && s[0] == '?' then
      var m := FirstIn(s[1..], QueryEnd);
      (Some(s[1..1 + m]), s[1 + m..])
    else (None, s)
  }

  function SplitFragment(s: string): Option<string> {
    if |s| > 0 && s[0] == '#' then Some(s[1..]) else None
  }

  /** `urlparse`: every string decomposes (the Appendix B expression always matches). */
  function Parse(s: string): Url {
    var sch := SplitScheme(s);
    var auth := SplitAuthority(sch.1);
    var pth := SplitPath(auth.1);
    var qry := SplitQuery(pth.1);
    Url(sch.0, auth.0, pth.0, qry.0, SplitFragment(qry.1))
  }

  function SchemeText(o: Option<string>): string {
    match o
    case Some(x) => x + ":"
    case None => ""
  }

  function AuthorityText(o: Option<string>): string {
    match o
    case Some(x) => "//" + x
    case None => ""
  }

  function QueryText(o: Option<string>): string {
    match o
    case Some(x) => "?" + x
    case None => ""
  }

  function FragmentText(o: Option<string>): string {
    match o
    case Some(x) => "#" + x
    case None => ""
  }

  /** `urlunparse`: recomposition of the components (RFC 3986 section 5.3). */
  function Unparse(u: Url): string {
    SchemeText(u.scheme) + (AuthorityText(u.authority) + (u.path + (QueryText(u.query) + FragmentText(u.fragment))))
  }

  /** The first delimiter of `p` is not a `:` that would read as a scheme. */
  predicate NoSchemePrefix(p: string) {
    var i := FirstIn(p, SchemeEnd);
    !(0 < i < |p| && p[i] == ':')
  }

  /** The component values that `Parse` can produce and `Unparse` can recompose unambiguously. */
  predicate WellFormed(u: Url) {
    && (u.scheme.Some? ==> |u.scheme.value| > 0 && NoneIn(u.scheme.value, SchemeEnd))
    && (u.authority.Some? ==> NoneIn(u.authority.value, AuthorityEnd))
    && NoneIn(u.path, PathEnd)
    && (u.authority.Some? ==> u.path == [] || u.path[0] == '/')
    && (u.authority.None? ==> !StartsWith(u.path, "//"))
    && (u.scheme.None? && u.authority.None? ==> NoSchemePrefix(u.path))
    && (u.query.Some? ==> NoneIn(u.query.value, QueryEnd))
  }

  lemma FirstInNone(s: string, cs: set<char>)
    requires NoneIn(s, cs)
    ensures FirstIn(s, cs) == |s|
  {
    FirstInUnique(s, cs, |s|);
  }

  lemma FirstInHead(s: string, cs: set<char>)
    requires |s| > 0 && s[0] in cs
    ensures FirstIn(s, cs) == 0
  {
    FirstInUnique(s, cs, 0);
  }

  // ---------------------------------------------------------------------------
  // Parsing then recomposing gives back the string.

  lemma SchemeRejoin(s: string)
    ensures SchemeText(SplitScheme(s).0) + SplitScheme(s).1 == s
    ensures SplitScheme(s).0.Some? ==>
      var x := SplitScheme(s).0.value; |x| > 0 && NoneIn(x, SchemeEnd)
    ensures SplitScheme(s).0.None? ==> SplitScheme(s).1 == s && NoSchemePrefix(s)
  {
    var i := FirstIn(s, SchemeEnd);
    if 0 < i < |s| && s[i] == ':' {
      assert s == s[..i] + ":" + s[i + 1..];
      assert forall j :: 0 <= j < i ==> s[..i][j] == s[j];
    }
  }

  lemma AuthorityRejoin(s: string)
    ensures AuthorityText(SplitAuthority(s).0) + SplitAuthority(s).1 == s
    ensures SplitAuthority(s).0.Some? ==>
      && NoneIn(SplitAuthority(s).0.value, AuthorityEnd)
      && var rest := SplitAuthority(s).1; rest == [] || rest[0] in AuthorityEnd
    ensures SplitAuthority(s).0.None? ==> SplitAuthority(s).1 == s && !StartsWith(s, "//")
  {
    if |s| >= 2 && s[0] == '/' && s[1] == '/' {
      var t := s[2..];
      var j := FirstIn(t, AuthorityEnd);
      assert s == "//" + t[..j] + t[j..];
      assert s[2..2 + j] == t[..j] && s[2 + j..] == t[j..];
      assert forall i :: 0 <= i < j ==> t[..j][i] == t[i];
    } else if StartsWith(s, "//") {
      assert s[..2] == "//";
    }
  }

  lemma PathRejoin(s: string)
    ensures SplitPath(s).0 + SplitPath(s).1 == s
    ensures NoneIn(SplitPath(s).0, PathEnd)
    ensures SplitPath(s).0 == s[..|SplitPath(s).0|]
    ensures var rest := SplitPath(s).1; rest == [] || rest[0] in PathEnd
  {
    var k := FirstIn(s, PathEnd);
    assert s == s[..k] + s[k..];
    assert forall i :: 0 <= i < k ==> s[..k][i] == s[i];
  }

  lemma QueryRejoin(s: string)
    requires s == [] || s[0] in PathEnd
    ensures QueryText(SplitQuery(s).0) + SplitQuery(s).1 == s
    ensures SplitQuery(s).0.Some? ==> NoneIn(SplitQuery(s).0.value, QueryEnd)
    ensures var rest := SplitQuery(s).1; rest == [] || rest[0] == '#'
  {
    if |s| > 0 && s[0] == '?' {
      var t := s[1..];
      var m := FirstIn(t, QueryEnd);
      assert s == "?" + t[..m] + t[m..];
      assert s[1..1 + m] == t[..m] && s[1 + m..] == t[m..];
      assert forall i :: 0 <= i < m ==> t[..m][i] == t[i];
    }
  }

  lemma FragmentRejoin(s: string)
    requires s == [] || s[0] == '#'
    ensures FragmentText(SplitFragment(s)) == s
  {
    if s != [] {
      assert s == "#" + s[1..];
    }
  }

  /** Recomposing the parsed components reproduces the input exactly. */
  lemma UnparseParse(s: string)
    ensures Unparse(Parse(s)) == s
  {
    var sch := SplitScheme(s);
    var auth := SplitAuthority(sch.1);
    var pth := SplitPath(auth.1);
    var qry := SplitQuery(pth.1);
    SchemeRejoin(s);
    AuthorityRejoin(sch.1);
    PathRejoin(auth.1);
    QueryRejoin(pth.1);
    FragmentRejoin(qry.1);
  }

  lemma FragmentStage(f: Option<string>)
    ensures SplitFragment(FragmentText(f)) == f
  {
    if f.Some? {
      assert FragmentText(f)[1..] == f.value;
    }
  }

  lemma QueryStage(q: Option<string>, rest: string)
    requires q.Some? ==> NoneIn(q.value, QueryEnd)
    requires rest == [] || rest[0] == '#'
    ensures SplitQuery(QueryText(q) + rest) == (q, rest)
  {
    if q.Some? {
      var x := q.value;
      var t := "?" + x + rest;
      assert t[1..] == x + rest;
      FirstInConcat(x, rest, QueryEnd);
      FirstInNone(x, QueryEnd);
      if rest != [] {
        FirstInHead(rest, QueryEnd);
      }
      assert FirstIn(t[1..], QueryEnd) == |x|;
      assert t[1..1 + |x|] == x;
      assert t[1 + |x|..] == rest;
      assert SplitQuery(t) == (q, rest);
    } else {
      assert QueryText(q) + rest == rest;
    }
  }

  lemma PathStage(p: string, rest: string)
    requires NoneIn(p, PathEnd)
    requires rest == [] || rest[0] in PathEnd
    ensures SplitPath(p + rest) == (p, rest)
  {
    FirstInConcat(p, rest, PathEnd);
    FirstInNone(p, PathEnd);
    if rest != [] {
      FirstInHead(rest, PathEnd);
    }
    assert (p + rest)[..|p|] == p;
    assert (p + rest)[|p|..] == rest;
  }

  lemma AuthorityStage(a: Option<string>, rest: string)
    requires a.Some? ==> NoneIn(a.value, AuthorityEnd) && (rest == [] || rest[0] in AuthorityEnd)
    requires a.None? ==> !StartsWith(rest, "//")
    ensures SplitAuthority(AuthorityText(a) + rest) == (a, rest)
  {
    if a.Some? {
      var x := a.value;
      var t := "//" + x + rest;
      assert t[2..] == x + rest;
      FirstInConcat(x, rest, AuthorityEnd);
      FirstInNone(x, AuthorityEnd);
      if rest != [] {
        FirstInHead(rest, AuthorityEnd);
      }
      assert FirstIn(t[2..], AuthorityEnd) == |x|;
      assert t[2..2 + |x|] == x;
      assert t[2 + |x|..] == rest;
      assert SplitAuthority(t) == (a, rest);
    } else {
      assert AuthorityText(a) + rest == rest;
    }
  }

  lemma SchemeStage(sc: Option<string>, rest: string)
    requires sc.Some? ==> |sc.value| > 0 && NoneIn(sc.value, SchemeEnd)
    requires sc.None? ==> NoSchemePrefix(rest)
    ensures SplitScheme(SchemeText(sc) + rest) == (sc, rest)
  {
    if sc.Some? {
      var x := sc.value;
      var t := x + (":" + rest);
      assert SchemeText(sc) + rest == t;
      FirstInConcat(x, ":" + rest, SchemeEnd);
      FirstInNone(x, SchemeEnd);
      FirstInHead(":" + rest, SchemeEnd);
      assert FirstIn(t, SchemeEnd) == |x|;
      assert t[|x|] == ':';
      assert t[..|x|] == x;
      assert t[|x| + 1..] == rest;
      assert SplitScheme(t) == (sc, rest);
    } else {
      assert SchemeText(sc) + rest == rest;
    }
  }

  /** What a well-formed path followed by the query-and-fragment text looks like to
      the earlier stages of the decomposition. */
  lemma PathTail(path: string, t3: string)
    requires NoneIn(path, PathEnd)
    requires t3 == [] || t3[0] in PathEnd
    ensures (path == [] || path[0] == '/') ==> (path + t3 == [] || (path + t3)[0] in AuthorityEnd)
    ensures !StartsWith(path, "//") ==> !StartsWith(path + t3, "//")
    ensures NoSchemePrefix(path) ==> NoSchemePrefix(path + t3)
  {
    var t2 := path + t3;
    if path != [] {
      assert t2[0] == path[0];
    }
    if StartsWith(t2, "//") && !StartsWith(path, "//") {
      if |path| >= 2 {
        assert path[..2] == t2[..2];
      } else if |path| == 1 {
        assert t2[1] == t3[0];
      }
    }
    FirstInConcat(path, t3, SchemeEnd);
    var fp := FirstIn(path, SchemeEnd);
    if fp < |path| {
      assert t2[fp] == path[fp];
    } else if t3 != [] {
      FirstInHead(t3, SchemeEnd);
      assert t2[|path|] == t3[0];
    }
  }

  /** Recomposing well-formed components and parsing the result gives them back. */
  lemma ParseUnparse(u: Url)
    requires WellFormed(u)
    ensures Parse(Unparse(u)) == u
  {
    var t4 := FragmentText(u.fragment);
    var t3 := QueryText(u.query) + t4;
    var t2 := u.path + t3;
    var t1 := AuthorityText(u.authority) + t2;
    FragmentStage(u.fragment);
    QueryStage(u.query, t4);
    PathStage(u.path, t3);
    PathTail(u.path, t3);
    AuthorityStage(u.authority, t2);
    if u.scheme.None? && u.authority.Some? {
      FirstInHead(t1, SchemeEnd);
    }
    SchemeStage(u.scheme, t1);
  }

  /** Every parse result is well formed. */
  lemma ParseWellFormed(s: string)
    ensures WellFormed(Parse(s))
  {
    var sch := SplitScheme(s);
    var auth := SplitAuthority(sch.1);
    var pth := SplitPath(auth.1);
    var qry := SplitQuery(pth.1);
    SchemeRejoin(s);
    AuthorityRejoin(sch.1);
    PathRejoin(auth.1);
    QueryRejoin(pth.1);
    PathWellFormed(sch.1, auth.0.Some?, auth.1, pth.0);
  }

  /** The path conditions of `WellFormed`, from what the scheme and authority
      stages leave behind (`r1` and `r2`) and the path taken from `r2`. */
  lemma PathWellFormed(r1: string, hasAuthority: bool, r2: string, path: string)
    requires |path| <= |r2| && path == r2[..|path|] && NoneIn(path, PathEnd)
    requires hasAuthority ==> r2 == [] || r2[0] in AuthorityEnd
    requires !hasAuthority ==> r2 == r1 && !StartsWith(r1, "//")
    ensures hasAuthority ==> path == [] || path[0] == '/'
    ensures !hasAuthority ==> !StartsWith(path, "//")
    ensures !hasAuthority && NoSchemePrefix(r1) ==> NoSchemePrefix(path)
  {
    if hasAuthority && path != [] {
      assert path[0] == r2[0];
    }
    if !hasAuthority {
      PrefixShape(r2, |path|);
    }
  }

  /** Facts about a prefix of a path that the prefix inherits. */
  lemma PrefixShape(p: string, n: nat)
    requires n <= |p|
    ensures NoneIn(p, PathEnd) ==> NoneIn(p[..n], PathEnd)
    ensures StartsWith(p[..n], "//") ==> StartsWith(p, "//")
    ensures NoSchemePrefix(p) ==> NoSchemePrefix(p[..n])
  {
    var a := p[..n];
    assert a + p[n..] == p;
    FirstInConcat(a, p[n..], SchemeEnd);
    var fa := FirstIn(a, SchemeEnd);
    if fa < n {
      assert a[fa] == p[fa];
    }
    if StartsWith(a, "//") {
      assert p[..2] == a[..2];
    }
  }

  // ---------------------------------------------------------------------------
  // strip_document_from_url

  /** The directory of a path, computed as `strip_document_from_url` does:
      a path ending in `/` is kept; otherwise its last segment is dropped by
      splitting on `/` and re-joining all segments but the last, and the
      result is made to end in `/` (`/` itself when nothing is left). */
  function DirectoryOf(path: string): (d: string)
    ensures EndsWith(d, "/")
    ensures EndsWith(path, "/") ==> d == path
    ensures !EndsWith(path, "/") ==>
      var last := LastOf(path, '/');
      d == if last < 0 then "/"
           else if last > 0 && path[last - 1] == '/' then path[..last]
           else path[..last + 1]
    ensures d == "/" || StartsWith(path, d)
  {
    if EndsWith(path, "/") then path
    else
      var segments := Split(path, "/");
      var joined := Join(segments[..|segments| - 1], "/");
      JoinAllButLast(path, '/');
      DirectoryShape(path, joined);
      WithSlash(joined)
  }

  /** The re-joined segments made to end in `/`. */
  function WithSlash(joined: string): string {
    if joined != "" && !EndsWith(joined, "/") then joined + "/"
    else if joined == "" then "/"
    else joined
  }

  /** Ending the text before the last `/` with a `/` keeps a prefix of the path. */
  lemma DirectoryShape(path: string, joined: string)
    requires !EndsWith(path, "/")
    requires joined == if LastOf(path, '/') >= 0 then path[..LastOf(path, '/')] else ""
    ensures var d := WithSlash(joined); var last := LastOf(path, '/');
      && EndsWith(d, "/")
      && d == (if last < 0 then "/"
               else if last > 0 && path[last - 1] == '/' then path[..last]
               else path[..last + 1])
      && (d == "/" || StartsWith(path, d))
  {
    var last := LastOf(path, '/');
    assert last == 0 ==> path[..1] == "/";
    assert last > 0 ==> EndsWith(joined, "/") == (path[last - 1] == '/');
    assert last >= 0 ==> path[..last] + "/" == path[..last + 1];
  }

  /** The components with the document and the query removed. */
  function StripDocumentParts(u: Url): Url {
    u.(path := DirectoryOf(u.path), query := None)
  }

  lemma StripKeepsWellFormed(u: Url)
    requires WellFormed(u)
    ensures WellFormed(StripDocumentParts(u))
  {
    var d := DirectoryOf(u.path);
    if d == "/" {
      FirstInHead(d, SchemeEnd);
    } else {
      PrefixShape(u.path, |d|);
      assert d == u.path[..|d|];
    }
  }

  /** `strip_document_from_url`: the URL of the directory holding the document. */
  function StripDocument(url: string): (r: string)
    ensures var u, v := Parse(url), Parse(r);
      && v.path == DirectoryOf(u.path)
      && EndsWith(v.path, "/")
      && (EndsWith(u.path, "/") ==> v.path == u.path)
      && v.query.None?
      && v.scheme == u.scheme && v.authority == u.authority && v.fragment == u.fragment
  {
    var u := Parse(url);
    ParseWellFormed(url);
    StripKeepsWellFormed(u);
    ParseUnparse(StripDocumentParts(u));
    Unparse(StripDocumentParts(u))
  }

  /** Stripping twice is stripping once. */
  lemma StripDocumentIdempotent(url: string)
    ensures StripDocument(StripDocument(url)) == StripDocument(url)
  {
    var r := StripDocument(url);
    assert StripDocumentParts(Parse(r)) == Parse(r);
    UnparseParse(r);
  }

  // ---------------------------------------------------------------------------
  // get_first_folder_from_url

  /** `r` is the first run of non-`/` characters of `p`, starting at `a`
      after nothing but slashes and ending at a slash or at the end. */
  predicate FirstSegmentAt(p: string, r: string, a: nat) {
    && a + |r| <= |p|
    && (forall j :: 0 <= j < a ==> p[j] == '/')
    && p[a..a + |r|] == r
    && NoneIn(r, {'/'})
    && (a + |r| == |p| || p[a + |r|] == '/')
  }

  /** `get_first_folder_from_url` on the path component: strip the slashes at
      both ends and take the first piece of the split on `/`. */
  function FirstFolder(path: string): (r: string)
    ensures r == "" <==> forall j :: 0 <= j < |path| ==> path[j] == '/'
    ensures r != "" ==> exists a :: FirstSegmentAt(path, r, a)
  {
    var stripped := Strip(path, '/');
    if stripped != "" then
      var r := Split(stripped, "/")[0];
      FirstFolderShape(path, stripped, r);
      r
    else ""
  }

  /** `get_first_folder_from_url`: the first folder of the URL's path. */
  function FirstFolderOfUrl(url: string): (r: string)
    ensures var path := Parse(url).path;
      && (r == "" <==> forall j :: 0 <= j < |path| ==> path[j] == '/')
      && (r != "" ==> exists a :: FirstSegmentAt(path, r, a))
  {
    FirstFolder(Parse(url).path)
  }

  /** A path has at most one nonempty first segment, so the contract of
      `FirstFolder` pins its result down. */
  lemma FirstSegmentUnique(p: string, r1: string, a1: nat, r2: string, a2: nat)
    requires FirstSegmentAt(p, r1, a1) && r1 != ""
    requires FirstSegmentAt(p, r2, a2) && r2 != ""
    ensures r1 == r2 && a1 == a2
  {
    assert p[a1] == r1[0] && p[a2] == r2[0];
    assert a1 == a2;
    SegmentNotShorter(p, r1, r2, a1);
    SegmentNotShorter(p, r2, r1, a1);
  }

  lemma SegmentNotShorter(p: string, r1: string, r2: string, a: nat)
    requires FirstSegmentAt(p, r1, a) && FirstSegmentAt(p, r2, a)
    ensures |r2| <= |r1|
  {
    forall k | a <= k < a + |r2| ensures p[k] != '/' {
      assert p[k] == r2[k - a];
    }
  }

  /** Stripping slashes leaves a slice of `path` preceded by slashes only. */
  lemma StripAsSlice(path: string)
    ensures var e, t := RStrip(path, '/'), Strip(path, '/');
      && |t| <= |e| <= |path|
      && t == path[|e| - |t|..|e|]
      && (forall j :: 0 <= j < |e| - |t| ==> path[j] == '/')
      && (forall j :: |e| <= j < |path| ==> path[j] == '/')
  {
    var e := RStrip(path, '/');
    var t := LStrip(e, '/');
    assert t == Strip(path, '/');
    assert e == path[..|e|];
    assert forall j :: 0 <= j < |e| - |t| ==> path[j] == e[j];
  }

  /** The first piece of a split on `/` is a slash-free prefix ending at a
      slash or at the end. */
  lemma FirstPiece(t: string)
    ensures var r := Split(t, "/")[0];
      && |r| <= |t| && t[..|r|] == r && NoneIn(r, {'/'})
      && (|r| == |t| || t[|r|] == '/')
  {
    var r := Split(t, "/")[0];
    NotContainsChar(r, '/');
    var i := Find(t, "/");
    SplitHead(t, "/");
    if i >= 0 {
      OccursAtChar(t, '/', i);
    }
  }

  /** A slash-free prefix of a slice preceded by slashes only is a first segment. */
  lemma SegmentOfSlice(path: string, t: string, a: nat, r: string)
    requires a + |t| <= |path| && t == path[a..a + |t|]
    requires forall j :: 0 <= j < a ==> path[j] == '/'
    requires |r| <= |t| && t[..|r|] == r && NoneIn(r, {'/'})
    requires |r| == |t| || t[|r|] == '/'
    requires a + |t| == |path| || path[a + |t|] == '/'
    ensures FirstSegmentAt(path, r, a)
  {
    assert path[a..a + |r|] == t[..|r|];
    if |r| < |t| {
      assert path[a + |r|] == t[|r|];
    }
  }

  lemma FirstFolderShape(path: string, stripped: string, r: string)
    requires stripped == Strip(path, '/') && stripped != ""
    requires r == Split(stripped, "/")[0]
    ensures r != "" && FirstSegmentAt(path, r, |RStrip(path, '/')| - |stripped|)
  {
    StripAsSlice(path);
    FirstPiece(stripped);
    SliceFirstSegment(path, stripped, |RStrip(path, '/')|, r);
  }

  /** The first piece of a slice that ends at `e`, with slashes only around
      it, is a first segment of the whole path. */
  lemma SliceFirstSegment(path: string, t: string, e: nat, r: string)
    requires |t| <= e <= |path| && t == path[e - |t|..e] && t != [] && t[0] != '/'
    requires forall j :: 0 <= j < e - |t| ==> path[j] == '/'
    requires forall j :: e <= j < |path| ==> path[j] == '/'
    requires |r| <= |t| && t[..|r|] == r && NoneIn(r, {'/'}) && (|r| == |t| || t[|r|] == '/')
    ensures r != "" && FirstSegmentAt(path, r, e - |t|)
  {
    SegmentOfSlice(path, t, e - |t|, r);
  }

  // ---------------------------------------------------------------------------
  // The hostname of a URL, as Python's `urlparse(url).hostname` reports it.

  /** An authority with one kind of IPv6 bracket but not the other: `urlparse` rejects it. */
  predicate UnbalancedBrackets(authority: string) {
    Contains(authority, "[") != Contains(authority, "]")
  }

  /** `urlparse(url)` raises `ValueError("Invalid IPv6 URL")`. */
  predicate RejectedByUrlparse(url: string) {
    var u := Parse(url);
    u.authority.Some? && UnbalancedBrackets(u.authority.value)
  }

  const InvalidIpv6 := "Invalid IPv6 URL"

  /** A protocol-relative reference to an unterminated IPv6 host. */
  lemma UnterminatedHostRejected()
    ensures RejectedByUrlparse("//[x/a.png")
  {
    var v := "//[x/a.png";
    assert v[0] in SchemeEnd;
    assert SplitScheme(v) == (None, v);
    var t := v[2..];
    assert t[0] !in AuthorityEnd && t[1] !in AuthorityEnd && t[2] in AuthorityEnd;
    assert FirstIn(t, AuthorityEnd) == 2;
    assert SplitAuthority(v).0 == Some(v[2..4]);
    assert v[2..4] == "[x";
    assert OccursAt("[x", "[", 0);
    assert !OccursAt("[x", "]", 0) && !OccursAt("[x", "]", 1);
  }

  /** The host named by an authority: after the last `@`; inside `[...]` when
      bracketed, otherwise before the first `:`; lower-cased up to a `%` zone
      id; `None` when empty. */
  function HostOf(authority: string): (h: Option<string>)
    ensures h.Some? ==> h.value != ""
  {
    var info := authority[LastOf(authority, '@') + 1..];
    var open := FirstIn(info, {'['});
    var host :=
      if open < |info| then
        var bracketed := info[open + 1..];
        bracketed[..FirstIn(bracketed, {']'})]
      else info[..FirstIn(info, {':'})];
    if host == "" then None
    else
      var pct := FirstIn(host, {'%'});
      Some(Lower(host[..pct]) + host[pct..])
  }

  function Hostname(u: Url): Option<string> {
    if u.authority.None? then None else HostOf(u.authority.value)
  }

  // ---------------------------------------------------------------------------
  // Percent-decoding (RFC 3986 section 2.1) and clean_url_path_component

  predicate IsHexDigit(c: char) {
    '0' <= c <= '9' || 'a' <= c <= 'f' || 'A' <= c <= 'F'
  }

  function HexValue(c: char): (n: nat)
    requires IsHexDigit(c)
    ensures n < 16
  {
    if '0' <= c <= '9' then c as int - '0' as int
    else if 'a' <= c <= 'f' then c as int - 'a' as int + 10
    else c as int - 'A' as int + 10
  }

  /** `unquote`: each `%XY` with two hex digits becomes the character with
      code `0xXY`; any other `%` is kept and scanning moves on by one. */
  function PercentDecode(s: string): (r: string)
    ensures |r| <= |s|
    decreases |s|
  {
    if |s| == 0 then ""
    else if |s| >= 3 && s[0] == '%' && IsHexDigit(s[1]) && IsHexDigit(s[2]) then
      [(16 * HexValue(s[1]) + HexValue(s[2])) as char] + PercentDecode(s[3..])
    else [s[0]] + PercentDecode(s[1..])
  }

  /** Text without `%` decodes to itself. */
  lemma {:induction false} PercentDecodePlain(s: string)
    requires NoneIn(s, {'%'})
    ensures PercentDecode(s) == s
    decreases |s|
  {
    if |s| > 0 {
      assert s[0] != '%';
      PercentDecodePlain(s[1..]);
      assert s == [s[0]] + s[1..];
    }
  }

  function HexChar(n: nat): (c: char)
    requires n < 16
    ensures IsHexDigit(c) && HexValue(c) == n
  {
    if n < 10 then (48 + n) as char else (55 + n) as char
  }

  /** Percent-encoding of every character (all below 256): the reference that
      decoding inverts. */
  function PercentEncode(s: string): (r: string)
    requires forall i :: 0 <= i < |s| ==> s[i] as int < 256
    ensures |r| == 3 * |s|
  {
    if |s| == 0 then ""
    else ['%', HexChar(s[0] as int / 16), HexChar(s[0] as int % 16)] + PercentEncode(s[1..])
  }

  /** Decoding undoes encoding. */
  lemma {:induction false} PercentRoundTrip(s: string)
    requires forall i :: 0 <= i < |s| ==> s[i] as int < 256
    ensures PercentDecode(PercentEncode(s)) == s
    decreases |s|
  {
    if |s| > 0 {
      var e := PercentEncode(s);
      var tail := PercentEncode(s[1..]);
      assert e[3..] == tail;
      PercentRoundTrip(s[1..]);
      assert (16 * HexValue(e[1]) + HexValue(e[2])) as char == s[0];
      assert s == [s[0]] + s[1..];
    }
  }

  /** Characters `clean_url_path_component` keeps: `[A-Za-z0-9_\-./]`. */
  predicate PathSafe(c: char) {
    'A' <= c <= 'Z' || 'a' <= c <= 'z' || '0' <= c <= '9' || c == '_' || c == '-' || c == '.' || c == '/'
  }

  /** Remove every character that is not path-safe, keeping the order of the rest. */
  function KeepPathSafe(s: string): (r: string)
    ensures |r| <= |s|
    ensures forall i :: 0 <= i < |r| ==> PathSafe(r[i])
  {
    if |s| == 0 then ""
    else if PathSafe(s[0]) then [s[0]] + KeepPathSafe(s[1..])
    else KeepPathSafe(s[1..])
  }

  /** Filtering keeps a text made only of safe characters unchanged. */
  lemma {:induction false} KeepPathSafeAllSafe(s: string)
    requires forall i :: 0 <= i < |s| ==> PathSafe(s[i])
    ensures KeepPathSafe(s) == s
    decreases |s|
  {
    if |s| > 0 {
      KeepPathSafeAllSafe(s[1..]);
      assert s == [s[0]] + s[1..];
    }
  }

  /** A single character is kept exactly when it is path-safe. */
  lemma KeepPathSafeSingle(c: char)
    ensures KeepPathSafe([c]) == if PathSafe(c) then [c] else ""
  {
    assert [c][1..] == "";
  }

  /** Filtering a concatenation filters each part. */
  lemma {:induction false} KeepPathSafeConcat(a: string, b: string)
    ensures KeepPathSafe(a + b) == KeepPathSafe(a) + KeepPathSafe(b)
    decreases |a|
  {
    if |a| > 0 {
      assert (a + b)[0] == a[0];
      assert (a + b)[1..] == a[1..] + b;
      KeepPathSafeConcat(a[1..], b);
    } else {
      assert a + b == b;
    }
  }

  /** `clean_url_path_component`: percent-decode, then keep only path-safe characters. */
  function CleanPathComponent(s: string): (r: string)
    ensures forall i :: 0 <= i < |r| ==> PathSafe(r[i])
    ensures NoneIn(s, {'%'}) ==> r == KeepPathSafe(s)
  {
    if NoneIn(s, {'%'}) then PercentDecodePlain(s); KeepPathSafe(PercentDecode(s))
    else KeepPathSafe(PercentDecode(s))
  }

  /** Cleaning the `%XX` encoding of a byte string decodes it first: the
      result is the string with its unsafe characters removed. */
  lemma CleanEncoded(s: string)
    requires forall i :: 0 <= i < |s| ==> s[i] as int < 256
    ensures CleanPathComponent(PercentEncode(s)) == KeepPathSafe(s)
  {
    PercentRoundTrip(s);
  }

  /** Cleaning a cleaned component changes nothing. */
  lemma CleanPathComponentIdempotent(s: string)
    ensures CleanPathComponent(CleanPathComponent(s)) == CleanPathComponent(s)
  {
    var r := CleanPathComponent(s);
    assert NoneIn(r, {'%'}) by {
      forall i | 0 <= i < |r| ensures r[i] != '%' {
        assert PathSafe(r[i]);
      }
    }
    KeepPathSafeAllSafe(r);
  }
}
