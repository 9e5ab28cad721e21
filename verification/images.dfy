/** `process_images`: every `"image":"<value>"` occurrence of the project
    text (matched case-insensitively, left to right, without overlap, as
    `re.sub` does) is replaced independently, either by an embedded data URI
    (RFC 2397) or by a reference to a downloaded copy under `images/`; the
    text between occurrences is carried over unchanged. */
module Images {
  import opened Results
  import opened Strings
  import opened Urls
  import opened Headers
  import opened Retry
  import opened Filenames

  // ---------------------------------------------------------------------------
  // Tokenizing the text the way re.sub scans it for  "image":"([^"]+)"

  /** The literal head of the pattern, in lower case. */
  const Key := "\"image\":\""

  /** The text is cut into single literal characters and whole occurrences;
      `value` is the captured group. */
  datatype Piece = Lit(c: char) | Occ(text: string, value: string)

  /** The head of the pattern occurs at `p`, ignoring ASCII case. */
  predicate KeyAt(s: string, p: nat) {
    p + |Key| <= |s| && Lower(s[p..p + |Key|]) == Key
  }

  /** `text` is one whole match, and `value` its group: the head, a non-empty
      run without `"`, and the closing `"`. */
  predicate IsOccurrence(text: string, value: string) {
    && |text| == |Key| + |value| + 1
    && Lower(text[..|Key|]) == Key
    && text[|Key|..|Key| + |value|] == value
    && value != "" && NoneIn(value, {'"'})
    && text[|text| - 1] == '"'
  }

  /** The end of the match starting at `p`, if one starts there. The greedy
      run stops at the first `"`, which must exist and not be the first
      character of the run. */
  function MatchAt(s: string, p: nat): (r: Option<nat>)
    ensures r.Some? ==> OccurrenceAt(s, p, r.value)
    ensures r.None? ==> NoMatchAt(s, p)
    ensures forall q: nat :: OccurrenceAt(s, p, q) ==> r == Some(q)
  {
    OccurrenceShape(s, p);
    if !KeyAt(s, p) then None
    else
      var v := FirstIn(s[p + |Key|..], {'"'});
      if 0 < v && p + |Key| + v < |s| then
        MatchShape(s, p, v);
        Some(p + |Key| + v + 1)
      else None
  }

  /** `s[p..q]` is a whole match. */
  predicate OccurrenceAt(s: string, p: nat, q: nat) {
    p + |Key| + 1 < q <= |s| && IsOccurrence(s[p..q], s[p + |Key|..q - 1])
  }

  /** No match of the pattern starts at `p`. */
  ghost predicate NoMatchAt(s: string, p: nat) {
    forall q: nat :: !OccurrenceAt(s, p, q)
  }

  /** A match at `p` has the head there, and its run ends at the first `"`. */
  lemma OccurrenceShape(s: string, p: nat)
    ensures forall q: nat :: OccurrenceAt(s, p, q) ==>
      KeyAt(s, p) && FirstIn(s[p + |Key|..], {'"'}) == q - 1 - p - |Key|
  {
    forall q: nat | OccurrenceAt(s, p, q)
      ensures KeyAt(s, p) && FirstIn(s[p + |Key|..], {'"'}) == q - 1 - p - |Key|
    {
      var text, value := s[p..q], s[p + |Key|..q - 1];
      var run := s[p + |Key|..];
      assert text[..|Key|] == s[p..p + |Key|];
      forall j | 0 <= j < |value| ensures run[j] !in {'"'} {
        assert run[j] == value[j];
      }
      assert run[|value|] == text[|text| - 1];
      FirstInUnique(run, {'"'}, |value|);
    }
  }

  lemma MatchShape(s: string, p: nat, v: nat)
    requires KeyAt(s, p)
    requires v == FirstIn(s[p + |Key|..], {'"'}) && 0 < v && p + |Key| + v < |s|
    ensures var q := p + |Key| + v + 1; IsOccurrence(s[p..q], s[p + |Key|..q - 1])
  {
    var q := p + |Key| + v + 1;
    var text, value := s[p..q], s[p + |Key|..q - 1];
    var run := s[p + |Key|..];
    assert text[..|Key|] == s[p..p + |Key|];
    assert text[|Key|..|Key| + |value|] == value;
    forall j | 0 <= j < |value| ensures value[j] !in {'"'} {
      assert value[j] == run[j];
    }
    assert text[|text| - 1] == run[v];
  }

  /** The pieces of `s[p..]`. */
  function Tokenize(s: string, p: nat): (ps: seq<Piece>)
    requires p <= |s|
    decreases |s| - p
  {
    if p == |s| then []
    else
      match MatchAt(s, p)
      case Some(q) => [Occ(s[p..q], s[p + |Key|..q - 1])] + Tokenize(s, q)
      case None => [Lit(s[p])] + Tokenize(s, p + 1)
  }

  /** The text a piece stands for. */
  function PieceText(x: Piece): string {
    match x
    case Lit(c) => [c]
    case Occ(t, _) => t
  }

  function Render(ps: seq<Piece>): string {
    if ps == [] then "" else PieceText(ps[0]) + Render(ps[1..])
  }

  /** Tokenizing loses nothing: the pieces spell the text again. */
  lemma RenderTokenize(s: string, p: nat)
    requires p <= |s|
    ensures Render(Tokenize(s, p)) == s[p..]
  {
    TokenizeScans(s, p);
    AtFacts(s);
    TilesRender(At(s), s, p, Tokenize(s, p));
  }

  /** Piece `x` stands at position `q` of `s` as the scan finds it: a literal
      character where no match starts, or the match that starts there. */
  ghost predicate PieceAt(s: string, q: nat, x: Piece) {
    match x
    case Lit(c) => q < |s| && s[q] == c && NoMatchAt(s, q)
    case Occ(t, v) =>
      && q + |Key| + 1 < q + |t| <= |s|
      && t == s[q..q + |t|] && v == s[q + |Key|..q + |t| - 1]
      && OccurrenceAt(s, q, q + |t|)
  }

  /** `ps` covers the positions from `p` to `end`: each piece satisfies `at`
      where the pieces before it end. */
  ghost predicate Tiles(at: (nat, Piece) -> bool, end: nat, p: nat, ps: seq<Piece>)
    decreases |ps|
  {
    if ps == [] then p == end
    else at(p, ps[0]) && Tiles(at, end, p + |PieceText(ps[0])|, ps[1..])
  }

  lemma TilesCons(at: (nat, Piece) -> bool, end: nat, p: nat, x: Piece, rest: seq<Piece>)
    requires at(p, x) && Tiles(at, end, p + |PieceText(x)|, rest)
    ensures Tiles(at, end, p, [x] + rest)
  {
    assert ([x] + rest)[1..] == rest;
  }

  lemma TilesHead(at: (nat, Piece) -> bool, end: nat, p: nat, ps: seq<Piece>)
    requires ps != [] && Tiles(at, end, p, ps)
    ensures at(p, ps[0]) && Tiles(at, end, p + |PieceText(ps[0])|, ps[1..])
  {
  }

  ghost function At(s: string): (nat, Piece) -> bool {
    (q: nat, x: Piece) => PieceAt(s, q, x)
  }

  /** `ps` is the scan of `s[p..]`: each piece is what the scan finds where
      the pieces before it end, and the last one ends with the text. */
  ghost predicate ScannedFrom(s: string, p: nat, ps: seq<Piece>) {
    Tiles(At(s), |s|, p, ps)
  }

  /** `Tokenize` scans: no match is skipped and none is invented. */
  lemma {:induction false} TokenizeScans(s: string, p: nat)
    requires p <= |s|
    ensures ScannedFrom(s, p, Tokenize(s, p))
    decreases |s| - p
  {
    if p < |s| {
      var x, q := FirstPiece(s, p);
      TokenizeScans(s, q);
      assert At(s)(p, x);
      ScanCons(s, p, x, q, Tokenize(s, q));
    }
  }

  /** A piece found at `p` followed by a scan from its end is a scan from `p`. */
  lemma ScanCons(s: string, p: nat, x: Piece, q: nat, rest: seq<Piece>)
    requires At(s)(p, x) && q == p + |PieceText(x)| && ScannedFrom(s, q, rest)
    ensures ScannedFrom(s, p, [x] + rest)
  {
    TilesCons(At(s), |s|, p, x, rest);
  }

  /** And it is the only scan. */
  lemma ScanUnique(s: string, p: nat, ps: seq<Piece>)
    requires p <= |s| && ScannedFrom(s, p, ps)
    ensures ps == Tokenize(s, p)
  {
    TokenizeScans(s, p);
    AtFacts(s);
    TilesDetermined(At(s), |s|, p, ps, Tokenize(s, p));
  }

  /** When every piece spells something and at most one piece fits at each
      position, at most one sequence of pieces covers a stretch. */
  lemma {:induction false} TilesDetermined(at: (nat, Piece) -> bool, end: nat, p: nat, ps: seq<Piece>, qs: seq<Piece>)
    requires forall q: nat, x: Piece :: at(q, x) ==> |PieceText(x)| > 0
    requires forall q: nat, x: Piece, y: Piece :: at(q, x) && at(q, y) ==> x == y
    requires Tiles(at, end, p, ps) && Tiles(at, end, p, qs)
    ensures ps == qs
    decreases |ps|
  {
    if ps != [] && qs != [] {
      assert ps[0] == qs[0];
      TilesDetermined(at, end, p + |PieceText(ps[0])|, ps[1..], qs[1..]);
      assert ps == [ps[0]] + ps[1..] && qs == [qs[0]] + qs[1..];
    } else if ps != [] {
      TilesEnd(at, end, p + |PieceText(ps[0])|, ps[1..]);
    } else if qs != [] {
      TilesEnd(at, end, p + |PieceText(qs[0])|, qs[1..]);
    }
  }

  lemma {:induction false} TilesEnd(at: (nat, Piece) -> bool, end: nat, p: nat, ps: seq<Piece>)
    requires Tiles(at, end, p, ps)
    ensures p <= end
    decreases |ps|
  {
    if ps != [] {
      TilesEnd(at, end, p + |PieceText(ps[0])|, ps[1..]);
    }
  }

  /** Each piece that stands somewhere spells the text there, and only one
      piece stands at a position. */
  lemma AtFacts(s: string)
    ensures forall q: nat, x: Piece :: At(s)(q, x) ==>
      0 < |PieceText(x)| && q + |PieceText(x)| <= |s| && s[q..q + |PieceText(x)|] == PieceText(x)
    ensures forall q: nat, x: Piece, y: Piece :: At(s)(q, x) && At(s)(q, y) ==> x == y
  {
    forall q: nat, x: Piece | At(s)(q, x)
      ensures 0 < |PieceText(x)| && q + |PieceText(x)| <= |s| && s[q..q + |PieceText(x)|] == PieceText(x)
    {
      PieceAtBound(s, q, x);
    }
    forall q: nat, x: Piece, y: Piece | At(s)(q, x) && At(s)(q, y) ensures x == y {
      PieceAtUnique(s, q, x, y);
    }
  }

  lemma PieceAtBound(s: string, p: nat, x: Piece)
    requires PieceAt(s, p, x)
    ensures p < p + |PieceText(x)| <= |s| && s[p..p + |PieceText(x)|] == PieceText(x)
  {
  }

  /** Pieces that each spell the text where they stand spell the text. */
  lemma {:induction false} TilesRender(at: (nat, Piece) -> bool, s: string, p: nat, ps: seq<Piece>)
    requires forall q: nat, x: Piece :: at(q, x) ==> q + |PieceText(x)| <= |s| && s[q..q + |PieceText(x)|] == PieceText(x)
    requires Tiles(at, |s|, p, ps)
    ensures p <= |s| && Render(ps) == s[p..]
    decreases |ps|
  {
    TilesSpell(at, s, p, ps);
    SpellRender(s, p, ps);
  }

  /** Each piece of `ps` is the text where it stands, and the last one ends
      with the text. */
  ghost predicate Spells(s: string, p: nat, ps: seq<Piece>)
    decreases |ps|
  {
    if ps == [] then p == |s|
    else
      var q := p + |PieceText(ps[0])|;
      q <= |s| && s[p..q] == PieceText(ps[0]) && Spells(s, q, ps[1..])
  }

  lemma {:induction false} TilesSpell(at: (nat, Piece) -> bool, s: string, p: nat, ps: seq<Piece>)
    requires forall q: nat, x: Piece :: at(q, x) ==> q + |PieceText(x)| <= |s| && s[q..q + |PieceText(x)|] == PieceText(x)
    requires Tiles(at, |s|, p, ps)
    ensures Spells(s, p, ps)
    decreases |ps|
  {
    if ps != [] {
      TilesHead(at, |s|, p, ps);
      TilesSpell(at, s, p + |PieceText(ps[0])|, ps[1..]);
    }
  }

  lemma {:induction false} SpellRender(s: string, p: nat, ps: seq<Piece>)
    requires Spells(s, p, ps)
    ensures p <= |s| && Render(ps) == s[p..]
    decreases |ps|
  {
    if ps != [] {
      var q := p + |PieceText(ps[0])|;
      SpellRender(s, q, ps[1..]);
      assert s[p..] == s[p..q] + s[q..];
    }
  }

  /** At most one piece stands at a position. */
  lemma PieceAtUnique(s: string, p: nat, x: Piece, y: Piece)
    requires PieceAt(s, p, x) && PieceAt(s, p, y)
    ensures x == y
  {
    OccurrenceShape(s, p);
  }

  /** The first piece is what the scan finds at `p`; the rest start where it
      ends. */
  lemma FirstPiece(s: string, p: nat) returns (x: Piece, q: nat)
    requires p < |s|
    ensures p < q == p + |PieceText(x)| <= |s| && PieceText(x) == s[p..q]
    ensures PieceAt(s, p, x)
    ensures Tokenize(s, p) == [x] + Tokenize(s, q)
  {
    match MatchAt(s, p)
    case Some(e) =>
      x, q := Occ(s[p..e], s[p + |Key|..e - 1]), e;
    case None =>
      x, q := Lit(s[p]), p + 1;
  }

  /** The occurrences, in text order. */
  function Occurrences(ps: seq<Piece>): (os: seq<Piece>)
    ensures forall i :: 0 <= i < |os| ==> os[i].Occ? && os[i] in ps
  {
    if ps == [] then []
    else if ps[0].Occ? then [ps[0]] + Occurrences(ps[1..])
    else Occurrences(ps[1..])
  }

  /** The text with the `k`-th occurrence replaced by `reps[k]` and every
      literal character kept in place. */
  function Splice(ps: seq<Piece>, reps: seq<string>): string
    requires |reps| == |Occurrences(ps)|
  {
    if ps == [] then ""
    else if ps[0].Occ? then reps[0] + Splice(ps[1..], reps[1..])
    else [ps[0].c] + Splice(ps[1..], reps)
  }

  function OccurrenceTexts(os: seq<Piece>): (ts: seq<string>)
    requires forall i :: 0 <= i < |os| ==> os[i].Occ?
    ensures |ts| == |os| && forall i :: 0 <= i < |os| ==> ts[i] == os[i].text
  {
    seq(|os|, i requires 0 <= i < |os| => os[i].text)
  }

  /** Replacing every occurrence by its own text gives back the text. */
  lemma {:induction false} SpliceUnchanged(ps: seq<Piece>, reps: seq<string>)
    requires |reps| == |Occurrences(ps)|
    requires forall i :: 0 <= i < |reps| ==> reps[i] == Occurrences(ps)[i].text
    ensures Splice(ps, reps) == Render(ps)
  {
    if ps != [] {
      var os := Occurrences(ps);
      if ps[0].Occ? {
        assert os == [ps[0]] + Occurrences(ps[1..]);
        assert forall i :: 0 <= i < |reps| - 1 ==> reps[1..][i] == Occurrences(ps[1..])[i].text by {
          forall i | 0 <= i < |reps| - 1 ensures reps[1..][i] == Occurrences(ps[1..])[i].text {
            assert reps[1..][i] == reps[i + 1] && os[i + 1] == Occurrences(ps[1..])[i];
          }
        }
        SpliceUnchanged(ps[1..], reps[1..]);
      } else {
        SpliceUnchanged(ps[1..], reps);
      }
    }
  }

  // ---------------------------------------------------------------------------
  // Already embedded images:  ^data:image/[a-zA-Z0-9.+-]+;base64,

  const DataImage := "data:image/"
  const Base64Tag := ";base64,"

  predicate SubtypeChar(c: char) {
    'a' <= c <= 'z' || 'A' <= c <= 'Z' || '0' <= c <= '9' || c == '.' || c == '+' || c == '-'
  }

  /** The length of the leading run of subtype characters. */
  function SubtypeRun(s: string): (n: nat)
    ensures n <= |s|
    ensures forall j :: 0 <= j < n ==> SubtypeChar(s[j])
    ensures n < |s| ==> !SubtypeChar(s[n])
  {
    if s != [] && SubtypeChar(s[0]) then 1 + SubtypeRun(s[1..]) else 0
  }

  /** The value starts with a base64 data URI of an image type, found as the
      anchored match does: the greedy run of subtype characters must be
      followed by `;base64,`. */
  predicate IsDataImageUri(v: string) {
    && StartsWith(v, DataImage)
    && var n := SubtypeRun(v[|DataImage|..]);
      n >= 1 && OccursAt(v, Base64Tag, |DataImage| + n)
  }

  /** Every character of `v[lo..hi]` is a subtype character. */
  predicate SubtypeSpan(v: string, lo: nat, hi: nat) {
    forall j :: lo <= j < hi && j < |v| ==> SubtypeChar(v[j])
  }

  /** Some non-empty run of subtype characters, ending at `e`, is followed by
      `;base64,`. */
  ghost predicate DataImagePrefix(v: string) {
    && StartsWith(v, DataImage)
    && exists e :: |DataImage| < e <= |v| && SubtypeSpan(v, |DataImage|, e) && OccursAt(v, Base64Tag, e)
  }

  /** The greedy scan decides the pattern exactly: backtracking into the run
      never helps, as `;` is not a subtype character. */
  lemma DataImageUriExact(v: string)
    ensures IsDataImageUri(v) <==> DataImagePrefix(v)
  {
    if StartsWith(v, DataImage) {
      DataImageUriAfterHead(v);
    }
  }

  lemma DataImageUriAfterHead(v: string)
    requires StartsWith(v, DataImage)
    ensures IsDataImageUri(v) <==> DataImagePrefix(v)
  {
    if IsDataImageUri(v) {
      GreedyRunIsPrefix(v);
    }
    if DataImagePrefix(v) {
      PrefixIsGreedyRun(v);
    }
  }

  /** The run the greedy scan finds is a witness of the pattern. */
  lemma GreedyRunIsPrefix(v: string)
    requires StartsWith(v, DataImage) && IsDataImageUri(v)
    ensures DataImagePrefix(v)
  {
    var rest := v[|DataImage|..];
    var e := |DataImage| + SubtypeRun(rest);
    forall j | |DataImage| <= j < e && j < |v| ensures SubtypeChar(v[j]) {
      assert v[j] == rest[j - |DataImage|];
    }
    assert SubtypeSpan(v, |DataImage|, e) && OccursAt(v, Base64Tag, e);
  }

  /** Any witness of the pattern is where the greedy scan stops. */
  lemma PrefixIsGreedyRun(v: string)
    requires StartsWith(v, DataImage) && DataImagePrefix(v)
    ensures IsDataImageUri(v)
  {
    var e :| |DataImage| < e <= |v| && SubtypeSpan(v, |DataImage|, e) && OccursAt(v, Base64Tag, e);
    TagOpensWithSemicolon(v, e);
    GreedyRunTo(v, |DataImage|, e);
  }

  lemma TagOpensWithSemicolon(v: string, e: nat)
    requires OccursAt(v, Base64Tag, e)
    ensures e < |v| && v[e] == ';'
  {
    assert v[e..e + |Base64Tag|][0] == ';';
  }

  /** A span of subtype characters from `lo` that stops at a `;` is the
      greedy run from `lo`. */
  lemma GreedyRunTo(v: string, lo: nat, e: nat)
    requires lo <= e < |v| && v[e] == ';' && SubtypeSpan(v, lo, e)
    ensures SubtypeRun(v[lo..]) == e - lo
  {
    var rest := v[lo..];
    var n := e - lo;
    assert rest[n] == v[e];
    forall j | 0 <= j < n ensures SubtypeChar(rest[j]) {
      assert rest[j] == v[lo + j];
    }
    RunEndsAt(rest, n);
  }

  /** A run of subtype characters ended by another character is the greedy run. */
  lemma RunEndsAt(s: string, n: nat)
    requires n < |s| && !SubtypeChar(s[n])
    requires forall j :: 0 <= j < n ==> SubtypeChar(s[j])
    ensures SubtypeRun(s) == n
  {
  }

  // ---------------------------------------------------------------------------
  // The outside world of the image pass

  datatype Operation = Embed | Download

  /** One request: the operation and occurrence it serves, the attempt
      number, the URL and the headers sent. */
  datatype Call = Call(op: Operation, occurrence: nat, attempt: nat, url: string, headers: Option<HeaderList>)

  /** The network, `urljoin`, `mimetypes.guess_type` (its type part),
      `mimetypes.guess_extension` and base64 encoding (RFC 4648 section 4). */
  datatype Env = Env(
    net: Call -> Response,
    urljoin: (string, string) -> string,
    guessType: string -> Option<string>,
    guessExtension: string -> Option<string>,
    b64encode: seq<Byte> -> string)

  /** A file written to the images folder. */
  datatype SavedImage = SavedImage(name: string, bytes: seq<Byte>)

  const OctetStream := "application/octet-stream"
  const DefaultExtension := ".bin"

  predicate Absolute(value: string) {
    StartsWith(value, "http://") || StartsWith(value, "https://")
  }

  /** `urljoin(base_url + '/', value)` raises: it parses both arguments, and
      `urlparse` rejects an authority with unbalanced IPv6 brackets. */
  predicate JoinRaises(baseUrl: string, value: string) {
    !Absolute(value) && (RejectedByUrlparse(baseUrl + "/") || RejectedByUrlparse(value))
  }

  /** Absolute `http(s)` values are fetched as they are; anything else is
      resolved against the base URL with a `/` appended, which raises
      `ValueError` when `urljoin` rejects either argument. */
  function ImageUrl(env: Env, baseUrl: string, value: string): (r: Result<string, Raised>)
    ensures r.Failure? <==> JoinRaises(baseUrl, value)
    ensures r.Failure? ==> r.error == ValueError(InvalidIpv6)
    ensures Absolute(value) ==> r == Success(value)
    ensures !Absolute(value) && r.Success? ==> r.value == env.urljoin(baseUrl + "/", value)
  {
    if Absolute(value) then Success(value)
    else if JoinRaises(baseUrl, value) then Failure(ValueError(InvalidIpv6))
    else Success(env.urljoin(baseUrl + "/", value))
  }

  /** A protocol-relative value naming an unterminated IPv6 host, such as
      `//[x/a.png`, makes `urljoin` raise whatever the base URL. */
  lemma UnterminatedHostRaises(baseUrl: string)
    ensures JoinRaises(baseUrl, "//[x/a.png")
  {
    var v := "//[x/a.png";
    assert v[..7][0] == '/' && v[..8][0] == '/';
    UnterminatedHostRejected();
  }


  /** The MIME type: the `Content-Type` header when truthy, else the type
      guessed from the URL when truthy, else `application/octet-stream`. */
  function MimeOf(env: Env, url: string, contentType: Option<string>): (r: string)
    ensures r != ""
    ensures Truthy(contentType) ==> r == contentType.value
    ensures !Truthy(contentType) && Truthy(env.guessType(url)) ==> r == env.guessType(url).value
    ensures !Truthy(contentType) && !Truthy(env.guessType(url)) ==> r == OctetStream
  {
    if Truthy(contentType) then contentType.value
    else
      var guess := env.guessType(url);
      if Truthy(guess) then guess.value else OctetStream
  }

  /** The name before collision handling: the basename of the URL's path, or
      `image` when that is empty, with the guessed extension (or `.bin`)
      appended when the name has no extension. */
  function DesiredName(env: Env, url: string, mime: string): (r: string)
    ensures r != ""
    ensures var n := UrlFileName(url);
      && (SplitExt(n).1 != "" ==> r == n)
      && (SplitExt(n).1 == "" ==> r == n + GuessedExtension(env, mime))
  {
    var name := UrlFileName(url);
    if SplitExt(name).1 == "" then name + GuessedExtension(env, mime) else name
  }

  /** The final component of the URL's path, or `image` when that is empty:
      an empty path or one ending in `/` gives `image`; any other path gives
      its slash-free tail that is the whole path or follows a `/`. */
  function UrlFileName(url: string): (r: string)
    ensures r != "" && NoneIn(r, {'/'})
    ensures var p := Parse(url).path;
      (p == "" || p[|p| - 1] == '/') ==> r == ImageName
    ensures var p := Parse(url).path;
      !(p == "" || p[|p| - 1] == '/') ==> FinalComponent(p, r)
  {
    var p := Parse(url).path;
    var base := Basename(p);
    if base == "" then ImageNameShape(); ImageName else base
  }

  const ImageName := "image"

  lemma ImageNameShape()
    ensures NoneIn(ImageName, {'/'}) && HasNonDot(ImageName)
  {
    assert ImageName[0] == 'i';
  }

  /** The extension guessed for the MIME type when truthy, else `.bin`. */
  function GuessedExtension(env: Env, mime: string): (r: string)
    ensures Truthy(env.guessExtension(mime)) ==> r == env.guessExtension(mime).value
    ensures !Truthy(env.guessExtension(mime)) ==> r == DefaultExtension
  {
    var guess := env.guessExtension(mime);
    if Truthy(guess) then guess.value else DefaultExtension
  }

  /** The desired name always carries an extension, provided the guessed one
      is well formed and the file name has a character other than a dot:
      its own, or else the guessed one. */
  lemma DesiredNameExtension(env: Env, url: string, mime: string)
    requires IsExtension(GuessedExtension(env, mime))
    requires HasNonDot(UrlFileName(url))
    ensures var n := UrlFileName(url);
      SplitExt(DesiredName(env, url, mime)).1 == if SplitExt(n).1 != "" then SplitExt(n).1 else GuessedExtension(env, mime)
  {
    var n := UrlFileName(url);
    if SplitExt(n).1 == "" {
      AppendedExtension(n, GuessedExtension(env, mime));
    }
  }

  /** The name the file is saved under: the desired name, or the first of
      `<base>_1<ext>`, `<base>_2<ext>`, ... that is not taken. */
  function SaveAs(name: string, taken: set<string>): (r: string)
    ensures r !in taken
    ensures name !in taken ==> r == name
    ensures var (base, ext) := SplitExt(name);
      exists k: nat :: r == Candidate(base, ext, k) && forall j :: 0 <= j < k ==> Candidate(base, ext, j) in taken
  {
    var (base, ext) := SplitExt(name);
    Candidate(base, ext, FirstFree(base, ext, taken))
  }

  function EmbedReplacement(mime: string, b64: string): string {
    Key + "data:" + mime + Base64Tag + b64 + "\""
  }

  function DownloadReplacement(name: string): string {
    Key + "images/" + name + "\""
  }

  /** An embedded image of an `image/<subtype>` type is recognised as already
      embedded by a later pass. */
  lemma EmbeddedIsDataUri(sub: string, b64: string)
    requires sub != "" && forall j :: 0 <= j < |sub| ==> SubtypeChar(sub[j])
    ensures IsDataImageUri("data:" + "image/" + sub + Base64Tag + b64)
  {
    var v := "data:" + "image/" + sub + Base64Tag + b64;
    assert v[..|DataImage|] == DataImage;
    forall j | |DataImage| <= j < |DataImage| + |sub| ensures SubtypeChar(v[j]) {
      assert v[j] == sub[j - |DataImage|];
    }
    var e := |DataImage| + |sub|;
    assert v[e..e + |Base64Tag|] == Base64Tag;
    assert SubtypeSpan(v, |DataImage|, e) && OccursAt(v, Base64Tag, e);
    DataImageUriExact(v);
  }

  /** What one occurrence becomes, and the file it wrote, if any. */
  datatype MatchOut = MatchOut(replacement: string, saved: Option<SavedImage>)

  /** The answers to the requests for one occurrence, attempt by attempt. */
  function Answers(env: Env, op: Operation, k: nat, url: string): nat -> Response {
    (a: nat) => env.net(Call(op, k, a, url, HeadersFor(url)))
  }

  /** `process_match` raises for the group `value`: it is not a data URI,
      and resolving it makes `urljoin` raise. */
  predicate MatchRaises(baseUrl: string, value: string) {
    !IsDataImageUri(value) && JoinRaises(baseUrl, value)
  }

  /** `process_match` for the `k`-th occurrence `text` with group `value`;
      `taken` holds the names already present in the images folder. The
      `ValueError` of `urljoin` is raised before the request loop and its
      handler, so it escapes. */
  function ProcessMatch(env: Env, op: Operation, baseUrl: string, wait: nat, k: nat,
                        text: string, value: string, taken: set<string>): (r: Result<MatchOut, Raised>)
    ensures r.Failure? <==> MatchRaises(baseUrl, value)
    ensures r.Failure? ==> r.error == ValueError(InvalidIpv6)
    ensures IsDataImageUri(value) ==> r == Success(MatchOut(text, None))
    ensures r.Success? && op == Embed ==> r.value.saved.None?
    ensures r.Success? && r.value.saved.None? ==>
      r.value.replacement == text || (op == Embed && StartsWith(r.value.replacement, Key + "data:"))
    ensures r.Success? && r.value.saved.Some? ==>
      && op == Download && !IsDataImageUri(value)
      && r.value.saved.value.name !in taken
      && r.value.replacement == DownloadReplacement(r.value.saved.value.name)
  {
    if IsDataImageUri(value) then Success(MatchOut(text, None))
    else
      match ImageUrl(env, baseUrl, value)
      case Failure(e) => Failure(e)
      case Success(url) => Success(FetchMatch(env, op, wait, k, text, url, taken))
  }

  /** When the value is fetched: a failed fetch gives back the match text;
      embedding replaces it by the data URI of the payload; downloading saves
      the payload under a name not yet taken and refers to that file. */
  lemma FetchOutcomes(env: Env, op: Operation, baseUrl: string, wait: nat, k: nat,
                      text: string, value: string, taken: set<string>)
    requires !IsDataImageUri(value) && !JoinRaises(baseUrl, value)
    ensures var r := ProcessMatch(env, op, baseUrl, wait, k, text, value, taken);
      var url := ImageUrl(env, baseUrl, value).value;
      var t := Fetch(Answers(env, op, k, url), wait);
      && r.Success?
      && (t.got.None? ==> r.value == MatchOut(text, None))
      && (t.got.Some? && op == Embed ==>
            r.value.replacement == EmbedReplacement(MimeOf(env, url, t.got.value.contentType), env.b64encode(t.got.value.body)))
      && (t.got.Some? && op == Download ==>
            r.value.saved == Some(SavedImage(SaveAs(DesiredName(env, url, MimeOf(env, url, t.got.value.contentType)), taken),
                                             t.got.value.body)))
  {
  }

  /** The request loop of `process_match` for the resolved URL, and what its
      outcome becomes. */
  function FetchMatch(env: Env, op: Operation, wait: nat, k: nat, text: string, url: string, taken: set<string>): (r: MatchOut)
    ensures op == Embed ==> r.saved.None?
    ensures r.saved.None? ==> r.replacement == text || (op == Embed && StartsWith(r.replacement, Key + "data:"))
    ensures r.saved.Some? ==>
      && op == Download
      && r.saved.value.name !in taken
      && r.replacement == DownloadReplacement(r.saved.value.name)
  {
    var t := Fetch(Answers(env, op, k, url), wait);
    match t.got
    case None => MatchOut(text, None)
    case Some(p) =>
      var mime := MimeOf(env, url, p.contentType);
      match op
      case Embed =>
        var rep := EmbedReplacement(mime, env.b64encode(p.body));
        assert rep[..|Key + "data:"|] == Key + "data:";
        MatchOut(rep, None)
      case Download =>
        var name := SaveAs(DesiredName(env, url, mime), taken);
        MatchOut(DownloadReplacement(name), Some(SavedImage(name, p.body)))
  }

  /** The results of one pass over the occurrences `os`, the first of which
      is occurrence number `k`. */
  datatype PassOut = PassOut(reps: seq<string>, saved: seq<SavedImage>, outs: seq<MatchOut>)

  /** The names taken once the outcomes `ms` have written their files. */
  function TakenAfter(taken: set<string>, ms: seq<MatchOut>): set<string>
    decreases |ms|
  {
    if ms == [] then taken
    else TakenAfter(if ms[0].saved.Some? then taken + {ms[0].saved.value.name} else taken, ms[1..])
  }

  /** The files the outcomes wrote, in order. */
  function SavedOf(ms: seq<MatchOut>): seq<SavedImage>
    decreases |ms|
  {
    if ms == [] then []
    else (if ms[0].saved.Some? then [ms[0].saved.value] else []) + SavedOf(ms[1..])
  }

  /** `process_match` for one pass, as a function of the occurrence number,
      the matched text, the group and the names taken. */
  function Processor(env: Env, op: Operation, baseUrl: string, wait: nat): (nat, string, string, set<string>) -> Result<MatchOut, Raised> {
    (k: nat, text: string, value: string, taken: set<string>) => ProcessMatch(env, op, baseUrl, wait, k, text, value, taken)
  }

  /** Outcome `i` is what `f` gives for occurrence `k + i`, with the names
      taken by the outcomes before it. */
  predicate EachBy(f: (nat, string, string, set<string>) -> Result<MatchOut, Raised>, os: seq<Piece>, k: nat,
                   taken: set<string>, outs: seq<MatchOut>)
    requires forall i :: 0 <= i < |os| ==> os[i].Occ?
  {
    && |outs| == |os|
    && forall i :: 0 <= i < |os| ==> f(k + i, os[i].text, os[i].value, TakenAfter(taken, outs[..i])) == Success(outs[i])
  }

  lemma EachByCons(f: (nat, string, string, set<string>) -> Result<MatchOut, Raised>, os: seq<Piece>, k: nat,
                   taken: set<string>, m: MatchOut, rest: seq<MatchOut>)
    requires |os| > 0 && forall i :: 0 <= i < |os| ==> os[i].Occ?
    requires f(k, os[0].text, os[0].value, taken) == Success(m)
    requires EachBy(f, os[1..], k + 1, if m.saved.Some? then taken + {m.saved.value.name} else taken, rest)
    ensures EachBy(f, os, k, taken, [m] + rest)
  {
    var outs := [m] + rest;
    var taken' := if m.saved.Some? then taken + {m.saved.value.name} else taken;
    forall i | 0 <= i < |os|
      ensures f(k + i, os[i].text, os[i].value, TakenAfter(taken, outs[..i])) == Success(outs[i])
    {
      if i == 0 {
        assert outs[..0] == [];
      } else {
        assert outs[..i][1..] == rest[..i - 1];
        assert TakenAfter(taken, outs[..i]) == TakenAfter(taken', rest[..i - 1]);
        assert outs[i] == rest[i - 1] && os[i] == os[1..][i - 1];
      }
    }
  }

  lemma RepsCons(m: MatchOut, reps: seq<string>, outs: seq<MatchOut>)
    requires |reps| == |outs| && forall i :: 0 <= i < |outs| ==> reps[i] == outs[i].replacement
    ensures var rs, ms := [m.replacement] + reps, [m] + outs;
      |rs| == |ms| && forall i :: 0 <= i < |ms| ==> rs[i] == ms[i].replacement
  {
  }

  lemma SavedOfCons(m: MatchOut, rest: seq<MatchOut>)
    ensures SavedOf([m] + rest) == (if m.saved.Some? then [m.saved.value] else []) + SavedOf(rest)
  {
    assert ([m] + rest)[1..] == rest;
  }

  function Names(saved: seq<SavedImage>): (ns: seq<string>)
    ensures |ns| == |saved| && forall i :: 0 <= i < |saved| ==> ns[i] == saved[i].name
  {
    seq(|saved|, i requires 0 <= i < |saved| => saved[i].name)
  }

  /** The pairwise distinct elements of a sequence. */
  predicate Distinct(xs: seq<string>) {
    forall i, j :: 0 <= i < j < |xs| ==> xs[i] != xs[j]
  }

  /** A replacement is the original text, an embedded data URI, or a
      reference to one of the saved files. */
  predicate Accounted(op: Operation, original: string, rep: string, saved: seq<SavedImage>) {
    || rep == original
    || (op == Embed && StartsWith(rep, Key + "data:"))
    || (op == Download && exists j :: 0 <= j < |saved| && rep == DownloadReplacement(saved[j].name))
  }

  lemma AccountedGrow(op: Operation, original: string, rep: string, front: seq<SavedImage>, saved: seq<SavedImage>)
    requires Accounted(op, original, rep, saved)
    ensures Accounted(op, original, rep, front + saved)
  {
    if op == Download && rep != original {
      var j :| 0 <= j < |saved| && rep == DownloadReplacement(saved[j].name);
      assert (front + saved)[|front| + j] == saved[j];
    }
  }

  /** Some occurrence of `os` makes `process_match` raise. */
  predicate SomeMatchRaises(baseUrl: string, os: seq<Piece>)
    requires forall i :: 0 <= i < |os| ==> os[i].Occ?
  {
    exists i :: 0 <= i < |os| && MatchRaises(baseUrl, os[i].value)
  }

  lemma SomeMatchRaisesCons(baseUrl: string, os: seq<Piece>)
    requires |os| > 0 && forall i :: 0 <= i < |os| ==> os[i].Occ?
    ensures SomeMatchRaises(baseUrl, os) <==> MatchRaises(baseUrl, os[0].value) || SomeMatchRaises(baseUrl, os[1..])
  {
    var raises := (o: Piece) => o.Occ? && MatchRaises(baseUrl, o.value);
    SomeCons(os, raises);
  }

  /** Some element satisfies `p` exactly when the first does or some later
      one does. */
  lemma SomeCons<T>(xs: seq<T>, p: T -> bool)
    requires |xs| > 0
    ensures (exists i :: 0 <= i < |xs| && p(xs[i])) <==> p(xs[0]) || exists i :: 0 <= i < |xs| - 1 && p(xs[1..][i])
  {
    if exists i :: 0 <= i < |xs| && p(xs[i]) {
      var i :| 0 <= i < |xs| && p(xs[i]);
      if i > 0 {
        assert xs[1..][i - 1] == xs[i];
      }
    }
    if exists i :: 0 <= i < |xs| - 1 && p(xs[1..][i]) {
      var i :| 0 <= i < |xs| - 1 && p(xs[1..][i]);
      assert xs[i + 1] == xs[1..][i];
    }
  }

  /** What one outcome `m` of `process_match` for occurrence `o` gives the
      pass: a saved file only when downloading, under a name not taken and
      referenced by the replacement; otherwise the original text or, when
      embedding, a data URI; and the original text for a data URI. */
  predicate OutcomeShape(op: Operation, o: Piece, taken: set<string>, m: MatchOut)
    requires o.Occ?
  {
    && (m.saved.Some? ==>
          m.saved.value.name !in taken && op == Download && m.replacement == DownloadReplacement(m.saved.value.name))
    && (op == Embed ==> m.saved.None?)
    && (m.saved.None? ==> m.replacement == o.text || (op == Embed && StartsWith(m.replacement, Key + "data:")))
    && (IsDataImageUri(o.value) ==> m.replacement == o.text)
  }

  /** What a pass over `os` delivers in `p`: one replacement per occurrence,
      data URIs left as they are, nothing saved when embedding, saved names
      not in `taken` and pairwise distinct, every replacement accounted for,
      and `p.outs` the outcomes of `f` in order, whose saved files are
      `p.saved`. */
  predicate PassShape(f: (nat, string, string, set<string>) -> Result<MatchOut, Raised>, op: Operation,
                      os: seq<Piece>, k: nat, taken: set<string>, p: PassOut)
    requires forall i :: 0 <= i < |os| ==> os[i].Occ?
  {
    && |p.reps| == |os|
    && (forall i :: 0 <= i < |os| && IsDataImageUri(os[i].value) ==> p.reps[i] == os[i].text)
    && (op == Embed ==> p.saved == [])
    && (forall i :: 0 <= i < |p.saved| ==> p.saved[i].name !in taken)
    && Distinct(Names(p.saved))
    && (forall i :: 0 <= i < |os| ==> Accounted(op, os[i].text, p.reps[i], p.saved))
    && |p.outs| == |os| && (forall i :: 0 <= i < |os| ==> p.reps[i] == p.outs[i].replacement)
    && p.saved == SavedOf(p.outs)
    && EachBy(f, os, k, taken, p.outs)
  }

  /** One pass: each occurrence is processed in order, and a downloaded file
      makes its name taken for the later ones; the first `ValueError` ends
      the pass. */
  function PassFrom(env: Env, op: Operation, baseUrl: string, wait: nat,
                    os: seq<Piece>, k: nat, taken: set<string>): (r: Result<PassOut, Raised>)
    requires forall i :: 0 <= i < |os| ==> os[i].Occ?
    ensures r.Failure? <==> SomeMatchRaises(baseUrl, os)
    ensures r.Failure? ==> r.error == ValueError(InvalidIpv6)
    ensures r.Success? ==> PassShape(Processor(env, op, baseUrl, wait), op, os, k, taken, r.value)
    decreases |os|
  {
    if os == [] then Success(PassOut([], [], []))
    else
      SomeMatchRaisesCons(baseUrl, os);
      match ProcessMatch(env, op, baseUrl, wait, k, os[0].text, os[0].value, taken)
      case Failure(e) => Failure(e)
      case Success(m) =>
        var taken' := if m.saved.Some? then taken + {m.saved.value.name} else taken;
        match PassFrom(env, op, baseUrl, wait, os[1..], k + 1, taken')
        case Failure(e) => Failure(e)
        case Success(rest) =>
          assert Processor(env, op, baseUrl, wait)(k, os[0].text, os[0].value, taken) == Success(m);
          assert OutcomeShape(op, os[0], taken, m);
          Success(PassCons(Processor(env, op, baseUrl, wait), op, os, k, taken, m, taken', rest))
  }

  /** The outcome `m` of the first occurrence put in front of the pass over
      the others; `f` is `process_match` for the pass. */
  function PassCons(f: (nat, string, string, set<string>) -> Result<MatchOut, Raised>, op: Operation,
                    os: seq<Piece>, k: nat, taken: set<string>, m: MatchOut, taken': set<string>, rest: PassOut): (r: PassOut)
    requires |os| > 0 && forall i :: 0 <= i < |os| ==> os[i].Occ?
    requires f(k, os[0].text, os[0].value, taken) == Success(m)
    requires OutcomeShape(op, os[0], taken, m)
    requires taken' == if m.saved.Some? then taken + {m.saved.value.name} else taken
    requires PassShape(f, op, os[1..], k + 1, taken', rest)
    ensures PassShape(f, op, os, k, taken, r)
  {
    var saved := (if m.saved.Some? then [m.saved.value] else []) + rest.saved;
    PassStep(op, os, m, taken, taken', rest, saved);
    EachByCons(f, os, k, taken, m, rest.outs);
    SavedOfCons(m, rest.outs);
    RepsCons(m, rest.reps, rest.outs);
    PassOut([m.replacement] + rest.reps, saved, [m] + rest.outs)
  }

  lemma {:induction false} PassStep(op: Operation, os: seq<Piece>, m: MatchOut, taken: set<string>, taken': set<string>,
                 rest: PassOut, saved: seq<SavedImage>)
    requires |os| > 0 && forall i :: 0 <= i < |os| ==> os[i].Occ?
    requires m.saved.Some? ==>
      (m.saved.value.name !in taken && op == Download && m.replacement == DownloadReplacement(m.saved.value.name))
    requires op == Embed ==> m.saved.None?
    requires m.saved.None? ==> m.replacement == os[0].text || (op == Embed && StartsWith(m.replacement, Key + "data:"))
    requires taken' == if m.saved.Some? then taken + {m.saved.value.name} else taken
    requires |rest.reps| == |os| - 1
    requires op == Embed ==> rest.saved == []
    requires forall i :: 0 <= i < |rest.saved| ==> rest.saved[i].name !in taken'
    requires Distinct(Names(rest.saved))
    requires forall i :: 0 <= i < |os| - 1 ==> Accounted(op, os[1..][i].text, rest.reps[i], rest.saved)
    requires saved == (if m.saved.Some? then [m.saved.value] else []) + rest.saved
    requires IsDataImageUri(os[0].value) ==> m.replacement == os[0].text
    requires forall i :: 0 <= i < |os| - 1 && IsDataImageUri(os[1..][i].value) ==> rest.reps[i] == os[1..][i].text
    ensures var reps := [m.replacement] + rest.reps;
      forall i :: 0 <= i < |os| && IsDataImageUri(os[i].value) ==> reps[i] == os[i].text
    ensures op == Embed ==> saved == []
    ensures forall i :: 0 <= i < |saved| ==> saved[i].name !in taken
    ensures Distinct(Names(saved))
    ensures var reps := [m.replacement] + rest.reps;
      forall i :: 0 <= i < |os| ==> Accounted(op, os[i].text, reps[i], saved)
  {
    var reps := [m.replacement] + rest.reps;
    var front := if m.saved.Some? then [m.saved.value] else [];
    var off := |front|;
    forall i | 0 <= i < |saved| ensures saved[i].name !in taken {
      if i >= off {
        assert saved[i] == rest.saved[i - off];
      }
    }
    forall i, j | 0 <= i < j < |saved| ensures Names(saved)[i] != Names(saved)[j] {
      if i >= off {
        assert saved[i] == rest.saved[i - off] && saved[j] == rest.saved[j - off];
        assert Names(rest.saved)[i - off] != Names(rest.saved)[j - off];
      } else {
        assert saved[j] == rest.saved[j - 1];
      }
    }
    forall i | 1 <= i < |os| && IsDataImageUri(os[i].value) ensures reps[i] == os[i].text {
      assert reps[i] == rest.reps[i - 1] && os[1..][i - 1] == os[i];
    }
    forall i | 1 <= i < |os| ensures Accounted(op, os[i].text, reps[i], saved) {
      assert reps[i] == rest.reps[i - 1] && os[1..][i - 1] == os[i];
      AccountedGrow(op, os[i].text, reps[i], front, rest.saved);
    }
    if m.saved.Some? {
      assert reps[0] == DownloadReplacement(saved[0].name);
    }
  }

  // ---------------------------------------------------------------------------
  // process_images

  /** The two texts and the files written to the images folder. */
  datatype Outputs = Outputs(embedded: string, downloaded: string, images: seq<SavedImage>)

  function EmbedPass(env: Env, baseUrl: string, wait: nat, input: string): Result<PassOut, Raised> {
    var os := Occurrences(Tokenize(input, 0));
    PassFrom(env, Embed, baseUrl, wait, os, 0, {})
  }

  function DownloadPass(env: Env, baseUrl: string, wait: nat, input: string, existing: set<string>): Result<PassOut, Raised> {
    var os := Occurrences(Tokenize(input, 0));
    PassFrom(env, Download, baseUrl, wait, os, 0, existing)
  }

  const NoTempFolder := "temp_folder must be specified when download is True."

  /** `process_images`: a download without a truthy temporary folder raises
      `ValueError`, and so does a pass that meets a value `urljoin` rejects;
      a pass that is switched off returns the input; a pass that runs
      replaces each occurrence by its own result. `existing` holds the names
      already in the images folder. */
  function ProcessImages(env: Env, input: string, baseUrl: string, embed: bool, download: bool,
                         tempFolder: Option<string>, wait: nat, existing: set<string>): (r: Result<Outputs, Raised>)
    ensures r.Failure? <==>
      || (download && !Truthy(tempFolder))
      || ((embed || download) && SomeMatchRaises(baseUrl, Occurrences(Tokenize(input, 0))))
    ensures r.Failure? && download && !Truthy(tempFolder) ==> r.error == ValueError(NoTempFolder)
    ensures r.Failure? && !(download && !Truthy(tempFolder)) ==> r.error == ValueError(InvalidIpv6)
    ensures r.Success? && !embed ==> r.value.embedded == input
    ensures r.Success? && !download ==> r.value.downloaded == input && r.value.images == []
    ensures r.Success? && embed ==>
      && EmbedPass(env, baseUrl, wait, input).Success?
      && r.value.embedded == Splice(Tokenize(input, 0), EmbedPass(env, baseUrl, wait, input).value.reps)
    ensures r.Success? && download ==>
      && DownloadPass(env, baseUrl, wait, input, existing).Success?
      && r.value.downloaded == Splice(Tokenize(input, 0), DownloadPass(env, baseUrl, wait, input, existing).value.reps)
      && r.value.images == DownloadPass(env, baseUrl, wait, input, existing).value.saved
      && Distinct(Names(r.value.images))
      && forall i :: 0 <= i < |r.value.images| ==> r.value.images[i].name !in existing
  {
    if download && !Truthy(tempFolder) then
      Failure(ValueError(NoTempFolder))
    else
      var ps := Tokenize(input, 0);
      var e := EmbedPass(env, baseUrl, wait, input);
      var d := DownloadPass(env, baseUrl, wait, input, existing);
      if embed && e.Failure? then Failure(e.error)
      else if download && d.Failure? then Failure(d.error)
      else
        var embedded := if embed then Splice(ps, e.value.reps) else input;
        var downloaded := if download then Splice(ps, d.value.reps) else input;
        Success(Outputs(embedded, downloaded, if download then d.value.saved else []))
  }

  /** Text whose every occurrence already holds a data URI comes out of both
      passes unchanged, and nothing is written. */
  lemma AllEmbeddedUnchanged(env: Env, input: string, baseUrl: string, embed: bool, download: bool,
                             tempFolder: Option<string>, wait: nat, existing: set<string>)
    requires !download || Truthy(tempFolder)
    requires forall i :: 0 <= i < |Occurrences(Tokenize(input, 0))| ==> IsDataImageUri(Occurrences(Tokenize(input, 0))[i].value)
    ensures var r := ProcessImages(env, input, baseUrl, embed, download, tempFolder, wait, existing);
      r.Success? && r.value.embedded == input && r.value.downloaded == input && r.value.images == []
  {
    var ps := Tokenize(input, 0);
    var os := Occurrences(ps);
    NoMatchRaises(baseUrl, os);
    RenderTokenize(input, 0);
    assert input[0..] == input;
    DataPassUnchanged(env, Embed, baseUrl, wait, ps, {});
    DataPassUnchanged(env, Download, baseUrl, wait, ps, existing);
  }

  lemma NoMatchRaises(baseUrl: string, os: seq<Piece>)
    requires forall i :: 0 <= i < |os| ==> os[i].Occ? && IsDataImageUri(os[i].value)
    ensures !SomeMatchRaises(baseUrl, os)
  {
  }

  /** A pass over pieces whose every occurrence holds a data URI renders
      them unchanged and writes nothing. */
  lemma DataPassUnchanged(env: Env, op: Operation, baseUrl: string, wait: nat, ps: seq<Piece>, taken: set<string>)
    requires forall i :: 0 <= i < |Occurrences(ps)| ==> IsDataImageUri(Occurrences(ps)[i].value)
    ensures var r := PassFrom(env, op, baseUrl, wait, Occurrences(ps), 0, taken);
      r.Success? && Splice(ps, r.value.reps) == Render(ps) && r.value.saved == []
  {
    var os := Occurrences(ps);
    NoneRaises(env, op, baseUrl, wait, os, 0, taken);
    var r := PassFrom(env, op, baseUrl, wait, os, 0, taken);
    SpliceUnchanged(ps, r.value.reps);
    if op == Download {
      NothingSaved(env, baseUrl, wait, os, 0, taken);
    }
  }

  /** Embedding writes no file, so the names taken do not matter. */
  lemma EmbedIgnoresTaken(env: Env, baseUrl: string, wait: nat, k: nat, text: string, value: string,
                          t1: set<string>, t2: set<string>)
    ensures ProcessMatch(env, Embed, baseUrl, wait, k, text, value, t1)
         == ProcessMatch(env, Embed, baseUrl, wait, k, text, value, t2)
  {
  }

  /** In the embedding pass every occurrence is replaced by what
      `process_match` makes of it alone. */
  lemma EmbedEachAlone(env: Env, baseUrl: string, wait: nat, os: seq<Piece>, k: nat, taken: set<string>)
    requires forall i :: 0 <= i < |os| ==> os[i].Occ?
    ensures var r := PassFrom(env, Embed, baseUrl, wait, os, k, taken);
      r.Success? ==> forall i :: 0 <= i < |os| ==>
        && ProcessMatch(env, Embed, baseUrl, wait, k + i, os[i].text, os[i].value, taken).Success?
        && r.value.reps[i] == ProcessMatch(env, Embed, baseUrl, wait, k + i, os[i].text, os[i].value, taken).value.replacement
  {
    var r := PassFrom(env, Embed, baseUrl, wait, os, k, taken);
    if r.Success? {
      EmbedOutcomes(env, baseUrl, wait, os, k, taken, r.value.reps, r.value.outs);
    }
  }

  lemma EmbedOutcomes(env: Env, baseUrl: string, wait: nat, os: seq<Piece>, k: nat, taken: set<string>,
                      reps: seq<string>, outs: seq<MatchOut>)
    requires forall i :: 0 <= i < |os| ==> os[i].Occ?
    requires |reps| == |os| == |outs| && forall i :: 0 <= i < |os| ==> reps[i] == outs[i].replacement
    requires EachBy(Processor(env, Embed, baseUrl, wait), os, k, taken, outs)
    ensures forall i :: 0 <= i < |os| ==>
      && ProcessMatch(env, Embed, baseUrl, wait, k + i, os[i].text, os[i].value, taken).Success?
      && reps[i] == ProcessMatch(env, Embed, baseUrl, wait, k + i, os[i].text, os[i].value, taken).value.replacement
  {
    var f := Processor(env, Embed, baseUrl, wait);
    forall j: nat, t: string, v: string, t1: set<string> ensures f(j, t, v, t1) == f(j, t, v, taken) {
      EmbedIgnoresTaken(env, baseUrl, wait, j, t, v, t1, taken);
    }
    EachIgnoring(f, os, k, taken, outs);
    forall i | 0 <= i < |os|
      ensures && ProcessMatch(env, Embed, baseUrl, wait, k + i, os[i].text, os[i].value, taken).Success?
              && reps[i] == ProcessMatch(env, Embed, baseUrl, wait, k + i, os[i].text, os[i].value, taken).value.replacement
    {
      assert f(k + i, os[i].text, os[i].value, taken) == Success(outs[i]);
    }
  }

  /** Outcomes of a function that ignores the names taken are each its
      value with the names taken at the start. */
  lemma EachIgnoring(f: (nat, string, string, set<string>) -> Result<MatchOut, Raised>, os: seq<Piece>, k: nat,
                     taken: set<string>, outs: seq<MatchOut>)
    requires forall i :: 0 <= i < |os| ==> os[i].Occ?
    requires EachBy(f, os, k, taken, outs)
    requires forall j: nat, t: string, v: string, t1: set<string> :: f(j, t, v, t1) == f(j, t, v, taken)
    ensures forall i :: 0 <= i < |os| ==> f(k + i, os[i].text, os[i].value, taken) == Success(outs[i])
  {
    forall i | 0 <= i < |os| ensures f(k + i, os[i].text, os[i].value, taken) == Success(outs[i]) {
      assert f(k + i, os[i].text, os[i].value, TakenAfter(taken, outs[..i])) == Success(outs[i]);
    }
  }

  /** A pass over data URIs only writes nothing. */
  lemma {:induction false} NothingSaved(env: Env, baseUrl: string, wait: nat, os: seq<Piece>, k: nat, taken: set<string>)
    requires forall i :: 0 <= i < |os| ==> os[i].Occ? && IsDataImageUri(os[i].value)
    ensures var r := PassFrom(env, Download, baseUrl, wait, os, k, taken);
      r.Success? && r.value.saved == []
    decreases |os|
  {
    NoneRaises(env, Download, baseUrl, wait, os, k, taken);
    if os != [] {
      NothingSaved(env, baseUrl, wait, os[1..], k + 1, taken);
    }
  }

  /** Data URIs never reach `urljoin`, so a pass over them cannot raise. */
  lemma NoneRaises(env: Env, op: Operation, baseUrl: string, wait: nat, os: seq<Piece>, k: nat, taken: set<string>)
    requires forall i :: 0 <= i < |os| ==> os[i].Occ? && IsDataImageUri(os[i].value)
    ensures PassFrom(env, op, baseUrl, wait, os, k, taken).Success?
  {
  }
}
