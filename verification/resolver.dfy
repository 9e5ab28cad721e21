/** `get_project_source`: the depth-bounded search for a project file. From a
    page URL it tries, in order, the `project.json` next to the page, the
    URLs the page's scripts load, the `project.json` under the page URL, the
    project inlined in a script, and finally the page's iframes, one level
    deeper each; the first hit wins. The web is given as a record of
    functions, one per kind of request or parse the downloader makes. */
module Resolver {
  import opened Results
  import opened Strings
  import opened Urls
  import opened Extraction
  import opened Gateway

  /** One `<script>` element: its markup (`str(script)`), its `src`
      attribute and its text (`script.string`), when present. */
  datatype ScriptTag = ScriptTag(markup: string, src: Option<string>, text: Option<string>)

  datatype Web = Web(
    /** `url_file_exists`: a HEAD request answered 200. */
    exists200: string -> bool,
    /** `get_source`: the body of a successful GET, or `None`. */
    get: string -> Option<string>,
    /** The `<script>` elements of an HTML page, in document order. */
    scripts: string -> seq<ScriptTag>,
    /** The body of a script GET answered 200, or `None`. */
    fetchScript: string -> Option<string>,
    /** The groups found by the two placeholder patterns of `extract_placeholder_url`. */
    patternA: string -> seq<string>,
    patternB: string -> seq<string>,
    /** The truthy `src` attributes of the `<iframe>` elements, in document order. */
    iframes: string -> seq<string>,
    /** The cyoa.cafe records API. */
    api: string -> ApiReply)

  /** The project text found, if any, and the URL it is relative to. */
  datatype Answer = Answer(source: Option<string>, base: string)

  const NotFound := Answer(None, "")
  const MaxDepth := 3

  // ---------------------------------------------------------------------------
  // find_scripts

  predicate IsAbsoluteHttp(src: string) {
    StartsWith(src, "http://") || StartsWith(src, "https://")
  }

  /** A script `src` resolved against the base: relative ones are appended
      to the base with exactly one `/` between them. */
  function ScriptUrl(base: string, src: string): (r: string)
    ensures base == "" || IsAbsoluteHttp(src) ==> r == src
    ensures base != "" && !IsAbsoluteHttp(src) ==> r == RStrip(base, '/') + "/" + LStrip(src, '/')
  {
    if base != "" && !IsAbsoluteHttp(src) then RStrip(base, '/') + "/" + LStrip(src, '/') else src
  }

  /** What one tag contributes: a dynamic loader is replaced by the
      `js/app.*.js` file it names, a tag with a truthy `src` by the file it
      loads (nothing when that fetch is not answered 200), any other tag by
      its text (`""` when it has none). */
  function TagContent(web: Web, tag: ScriptTag, base: string): Option<string> {
    if Contains(tag.markup, "document.createElement") then
      web.fetchScript(ScriptUrl(base, AppJsPath(tag.markup)))
    else if Truthy(tag.src) then web.fetchScript(ScriptUrl(base, tag.src.value))
    else Some(tag.text.GetOr(""))
  }

  /** The values of `f` on `xs` that are present, in order. */
  function Collect<T>(f: T -> Option<string>, xs: seq<T>): (r: seq<string>)
    ensures |r| <= |xs|
  {
    if xs == [] then []
    else (if f(xs[0]).Some? then [f(xs[0]).value] else []) + Collect(f, xs[1..])
  }

  /** `v` is the value of some element of `xs`. */
  ghost predicate ValueOfSome<T>(f: T -> Option<string>, xs: seq<T>, v: string) {
    exists j :: 0 <= j < |xs| && f(xs[j]) == Some(v)
  }

  /** Every collected value is the value of some element. */
  lemma {:induction false} CollectFrom<T>(f: T -> Option<string>, xs: seq<T>)
    ensures forall i :: 0 <= i < |Collect(f, xs)| ==> ValueOfSome(f, xs, Collect(f, xs)[i])
  {
    if xs != [] {
      var r, rest := Collect(f, xs), Collect(f, xs[1..]);
      var front := if f(xs[0]).Some? then [f(xs[0]).value] else [];
      assert r == front + rest;
      CollectFrom(f, xs[1..]);
      forall i | 0 <= i < |r| ensures ValueOfSome(f, xs, r[i]) {
        if i < |front| {
          assert f(xs[0]) == Some(r[i]);
        } else {
          assert r[i] == rest[i - |front|];
          assert ValueOfSome(f, xs[1..], rest[i - |front|]);
          var j :| 0 <= j < |xs[1..]| && f(xs[1..][j]) == Some(r[i]);
          assert xs[j + 1] == xs[1..][j];
        }
      }
    }
  }

  lemma {:induction false} CollectConcat<T>(f: T -> Option<string>, a: seq<T>, b: seq<T>)
    ensures Collect(f, a + b) == Collect(f, a) + Collect(f, b)
  {
    if a != [] {
      assert (a + b)[1..] == a[1..] + b;
      assert (a + b)[0] == a[0];
      CollectConcat(f, a[1..], b);
    } else {
      assert a + b == b;
    }
  }

  function Contents(web: Web, base: string): ScriptTag -> Option<string> {
    t => TagContent(web, t, base)
  }

  /** `find_scripts`: the contents of the tags that contribute one, in order. */
  function Harvest(web: Web, tags: seq<ScriptTag>, base: string): (r: seq<string>)
    ensures |r| <= |tags|
  {
    Collect(Contents(web, base), tags)
  }

  /** Every harvested script is the content of some tag. */
  lemma HarvestContents(web: Web, tags: seq<ScriptTag>, base: string)
    ensures var r := Harvest(web, tags, base);
      forall i :: 0 <= i < |r| ==> exists j :: 0 <= j < |tags| && TagContent(web, tags[j], base) == Some(r[i])
  {
    var r := Harvest(web, tags, base);
    CollectFrom(Contents(web, base), tags);
    forall i | 0 <= i < |r| ensures exists j :: 0 <= j < |tags| && TagContent(web, tags[j], base) == Some(r[i]) {
      assert ValueOfSome(Contents(web, base), tags, r[i]);
      var j :| 0 <= j < |tags| && Contents(web, base)(tags[j]) == Some(r[i]);
      assert TagContent(web, tags[j], base) == Some(r[i]);
    }
  }

  /** Harvesting keeps document order: the scripts of two runs of tags are
      the scripts of each, one after the other. */
  lemma HarvestConcat(web: Web, a: seq<ScriptTag>, b: seq<ScriptTag>, base: string)
    ensures Harvest(web, a + b, base) == Harvest(web, a, base) + Harvest(web, b, base)
  {
    CollectConcat(Contents(web, base), a, b);
  }

  /** A single tag contributes its content when it has one, and nothing
      otherwise. */
  lemma HarvestSingle(web: Web, t: ScriptTag, base: string)
    ensures var c := TagContent(web, t, base);
      Harvest(web, [t], base) == if c.Some? then [c.value] else []
  {
    assert [t][1..] == [];
  }

  /** Tags without a loader and without a truthy `src` contribute their text. */
  lemma {:induction false} HarvestInline(web: Web, tags: seq<ScriptTag>, base: string)
    requires forall i :: 0 <= i < |tags| ==>
      !Contains(tags[i].markup, "document.createElement") && !Truthy(tags[i].src)
    ensures |Harvest(web, tags, base)| == |tags|
    ensures forall i :: 0 <= i < |tags| ==> Harvest(web, tags, base)[i] == tags[i].text.GetOr("")
  {
    if tags != [] {
      HarvestInline(web, tags[1..], base);
      var rest := Harvest(web, tags[1..], base);
      assert Harvest(web, tags, base) == [tags[0].text.GetOr("")] + rest;
    }
  }

  // ---------------------------------------------------------------------------
  // The per-script search

  /** `extract_placeholder_url`: the second pattern is consulted only when
      the first finds nothing. */
  function Placeholders(web: Web, script: string): (r: seq<string>)
    ensures |web.patternA(script)| > 0 ==> r == web.patternA(script)
    ensures |web.patternA(script)| == 0 ==> r == web.patternB(script)
  {
    var a := web.patternA(script);
    if |a| > 0 then a else web.patternB(script)
  }

  /** A found URL containing `http` anywhere is used as it is; any other is
      appended to the page URL. */
  function FullUrl(url: string, found: string): (r: string)
    ensures r == found <==> Contains(found, "http")
  {
    if Contains(found, "http") then found else RStrip(url, '/') + "/" + found
  }

  /** Any other found URL is taken relative to the page URL without its
      trailing slashes. */
  lemma FullUrlRelative(url: string, found: string)
    requires !Contains(found, "http")
    ensures StartsWith(FullUrl(url, found), RStrip(url, '/') + "/")
    ensures EndsWith(FullUrl(url, found), found)
  {
  }

  predicate Hit(web: Web, u: string) {
    Truthy(web.get(u))
  }

  /** The first found URL whose GET is truthy, paired with the page URL. */
  function FromPlaceholders(web: Web, url: string, found: seq<string>): (r: Option<Answer>)
    ensures r.None? <==> forall i :: 0 <= i < |found| ==> !Hit(web, FullUrl(url, found[i]))
    ensures r.Some? ==> exists i :: (
      && 0 <= i < |found|
      && Hit(web, FullUrl(url, found[i]))
      && r.value == Answer(web.get(FullUrl(url, found[i])), url)
      && forall j :: 0 <= j < i ==> !Hit(web, FullUrl(url, found[j])))
  {
    if found == [] then None
    else
      var u := FullUrl(url, found[0]);
      if Hit(web, u) then Some(Answer(web.get(u), url))
      else
        var r := FromPlaceholders(web, url, found[1..]);
        assert forall i :: 1 <= i < |found| ==> found[1..][i - 1] == found[i];
        r
  }

  function DefaultUrl(url: string): string {
    RStrip(url, '/') + "/" + "project.json"
  }

  /** One script, in the order the loop tries it: the placeholder URLs, then
      `project.json` under the page URL, then the inline store. */
  function ScriptAnswer(web: Web, url: string, script: string): Option<Answer> {
    var hit := FromPlaceholders(web, url, Placeholders(web, script));
    if hit.Some? then hit
    else
      var d := DefaultUrl(url);
      if Hit(web, d) then Some(Answer(web.get(d), d))
      else
        match InlineStore(script)
        case Some(x) => Some(Answer(Some(x), url))
        case None => None
  }

  /** What one script yields: the first placeholder URL with a truthy GET,
      paired with the page URL; failing that, a truthy `project.json` under
      the page URL, paired with its own URL; failing that, the inline store
      whenever both markers occur, paired with the page URL. */
  lemma ScriptOrder(web: Web, url: string, script: string)
    ensures var found := Placeholders(web, script); var r := ScriptAnswer(web, url, script);
      && (forall i :: (0 <= i < |found| && Hit(web, FullUrl(url, found[i])) &&
                       forall j :: 0 <= j < i ==> !Hit(web, FullUrl(url, found[j]))) ==>
            r == Some(Answer(web.get(FullUrl(url, found[i])), url)))
      && ((forall i :: 0 <= i < |found| ==> !Hit(web, FullUrl(url, found[i]))) && Hit(web, DefaultUrl(url)) ==>
            r == Some(Answer(web.get(DefaultUrl(url)), DefaultUrl(url))))
      && ((forall i :: 0 <= i < |found| ==> !Hit(web, FullUrl(url, found[i]))) && !Hit(web, DefaultUrl(url)) ==>
            r == (if Contains(script, StoreStart) && Contains(script, StoreEnd)
                  then Some(Answer(InlineStore(script), url)) else None))
  {
    var found := Placeholders(web, script);
    var hit := FromPlaceholders(web, url, found);
    if hit.Some? {
      var k :| && 0 <= k < |found|
        && Hit(web, FullUrl(url, found[k]))
        && hit.value == Answer(web.get(FullUrl(url, found[k])), url)
        && forall j :: 0 <= j < k ==> !Hit(web, FullUrl(url, found[j]));
      forall i | 0 <= i < |found| && Hit(web, FullUrl(url, found[i])) &&
          (forall j :: 0 <= j < i ==> !Hit(web, FullUrl(url, found[j])))
        ensures i == k
      {
      }
    }
  }

  /** The first present value from position `i` on. */
  function FirstSome<T>(xs: seq<Option<T>>, i: nat): (r: Option<T>)
    requires i <= |xs|
    ensures r.None? <==> forall j :: i <= j < |xs| ==> xs[j].None?
    ensures r.Some? ==> exists k :: (
      && i <= k < |xs|
      && r == xs[k]
      && forall j :: i <= j < k ==> xs[j].None?)
    decreases |xs| - i
  {
    if i == |xs| then None
    else if xs[i].Some? then xs[i]
    else FirstSome(xs, i + 1)
  }

  /** What each script yields, in order. */
  function ScriptAnswers(web: Web, url: string, scripts: seq<string>): (r: seq<Option<Answer>>)
    ensures |r| == |scripts|
    ensures forall j :: 0 <= j < |scripts| ==> r[j] == ScriptAnswer(web, url, scripts[j])
  {
    seq(|scripts|, j requires 0 <= j < |scripts| => ScriptAnswer(web, url, scripts[j]))
  }

  /** The script loop: the first script that yields an answer. */
  function ScanScripts(web: Web, url: string, scripts: seq<string>): (r: Option<Answer>)
    ensures r.None? <==> forall j :: 0 <= j < |scripts| ==> ScriptAnswer(web, url, scripts[j]).None?
    ensures r.Some? ==> exists k :: (
      && 0 <= k < |scripts|
      && r == ScriptAnswer(web, url, scripts[k])
      && forall j :: 0 <= j < k ==> ScriptAnswer(web, url, scripts[j]).None?)
  {
    FirstSome(ScriptAnswers(web, url, scripts), 0)
  }

  /** The scripts of a page, harvested against its directory, searched
      against the page URL. */
  function PageScripts(web: Web, page: string, target: string, here: string): Option<Answer> {
    ScanScripts(web, target, Harvest(web, web.scripts(page), here))
  }

  // ---------------------------------------------------------------------------
  // get_project_source

  /** The levels of iframes still allowed below `depth`. */
  function Budget(depth: nat): nat {
    if depth > MaxDepth then 0 else MaxDepth + 1 - depth
  }

  /** The page a URL stands for: cyoa.cafe links (any URL containing
      `cyoa.cafe`) go through the gateway, whose errors propagate. */
  function Target(web: Web, url: string): (r: Result<string, Raised>)
    ensures !Contains(url, "cyoa.cafe") ==> r == Success(url)
    ensures Contains(url, "cyoa.cafe") ==> r == IframeUrl(web.api, url)
    ensures Contains(url, "cyoa.cafe") && r.Success? ==> r.value != ""
  {
    if Contains(url, "cyoa.cafe") then IframeUrl(web.api, url) else Success(url)
  }

  /** `get_project_source(url, depth)`. */
  function Resolve(web: Web, url: string, depth: nat): (r: Result<Answer, Raised>)
    ensures depth > MaxDepth ==> r == Success(NotFound)
    decreases Budget(depth), 1, 0
  {
    if depth > MaxDepth then Success(NotFound)
    else
      var target :- Target(web, url);
      if Contains(url, "cyoa.cafe") && target == "" then Success(NotFound)
      else
        var here := StripDocument(target);
        var default := here + "project.json";
        if web.exists200(default) then Success(Answer(web.get(default), here))
        else
          var source := web.get(target);
          if !Truthy(source) then Success(NotFound)
          else
            match PageScripts(web, source.value, target, here)
            case Some(a) => Success(a)
            case None => ScanIframes(web, web.iframes(source.value), depth)
  }

  /** The outcome of searching each frame one level deeper, in order. */
  function FrameOutcomes(web: Web, frames: seq<string>, depth: nat): (r: seq<Result<Answer, Raised>>)
    requires depth <= MaxDepth
    ensures |r| == |frames|
    ensures forall j :: 0 <= j < |frames| ==> r[j] == Resolve(web, frames[j], depth + 1)
    decreases Budget(depth), 0, 0
  {
    seq(|frames|, j requires 0 <= j < |frames| => Resolve(web, frames[j], depth + 1))
  }

  /** The iframe loop over the pages' frames: the first frame whose search
      raises or yields a truthy source decides. */
  function ScanIframes(web: Web, frames: seq<string>, depth: nat): Result<Answer, Raised>
    requires depth <= MaxDepth
    decreases Budget(depth), 0, 1
  {
    FirstDecisive(FrameOutcomes(web, frames, depth), 0)
  }

  /** An outcome that ends the iframe loop: a raised error or a truthy source. */
  predicate Decisive(o: Result<Answer, Raised>) {
    o.Failure? || Truthy(o.value.source)
  }

  /** The iframe loop from position `i` on, over the frames' outcomes: the
      first decisive outcome is the result, and without one nothing is found. */
  function FirstDecisive(outs: seq<Result<Answer, Raised>>, i: nat): (r: Result<Answer, Raised>)
    requires i <= |outs|
    ensures Decisive(r) ==> exists k :: (
      && i <= k < |outs|
      && outs[k] == r
      && forall j :: i <= j < k ==> !Decisive(outs[j]))
    ensures !Decisive(r) ==>
      && r == Success(NotFound)
      && forall j :: i <= j < |outs| ==> !Decisive(outs[j])
    decreases |outs| - i
  {
    if i == |outs| then Success(NotFound)
    else if Decisive(outs[i]) then outs[i]
    else FirstDecisive(outs, i + 1)
  }

  /** The first decisive outcome from `i` on is the result. */
  lemma {:induction false} FirstDecisiveAt(outs: seq<Result<Answer, Raised>>, k: nat, i: nat)
    requires i <= k < |outs|
    requires forall j :: i <= j < k ==> !Decisive(outs[j])
    requires Decisive(outs[k])
    ensures FirstDecisive(outs, i) == outs[k]
    decreases k - i
  {
    if i < k {
      FirstDecisiveAt(outs, k, i + 1);
    }
  }

  // ---------------------------------------------------------------------------
  // Properties of the search

  /** A gateway error escapes the search unchanged. */
  lemma GatewayErrorPropagates(web: Web, url: string, depth: nat)
    requires depth <= MaxDepth && Contains(url, "cyoa.cafe")
    requires IframeUrl(web.api, url).Failure?
    ensures Resolve(web, url, depth) == Failure(IframeUrl(web.api, url).error)
  {
  }

  /** A `project.json` next to the page (the gateway's iframe URL for a
      cyoa.cafe link) ends the search at once, with the page's directory as
      base, even when fetching it then fails. */
  lemma HeadShortCircuit(web: Web, url: string, depth: nat)
    requires depth <= MaxDepth && Target(web, url).Success?
    requires web.exists200(StripDocument(Target(web, url).value) + "project.json")
    ensures var here := StripDocument(Target(web, url).value);
      Resolve(web, url, depth) == Success(Answer(web.get(here + "project.json"), here))
  {
  }

  /** A page that cannot be fetched ends the search with nothing found,
      without looking at scripts or frames. */
  lemma DeadPageFindsNothing(web: Web, url: string, depth: nat)
    requires depth <= MaxDepth && Target(web, url).Success?
    requires !web.exists200(StripDocument(Target(web, url).value) + "project.json")
    requires !Truthy(web.get(Target(web, url).value))
    ensures Resolve(web, url, depth) == Success(NotFound)
  {
  }

  /** Scripts are searched before frames: an answer from the scripts of the
      page (searched with the page's own URL) is the result, and only without
      one are the frames searched. */
  lemma ScriptsBeforeFrames(web: Web, url: string, depth: nat)
    requires depth <= MaxDepth && Target(web, url).Success?
    requires !web.exists200(StripDocument(Target(web, url).value) + "project.json")
    requires Truthy(web.get(Target(web, url).value))
    ensures var t := Target(web, url).value; var page := web.get(t).value;
      var fromScripts := PageScripts(web, page, t, StripDocument(t));
      Resolve(web, url, depth) ==
        if fromScripts.Some? then Success(fromScripts.value) else ScanIframes(web, web.iframes(page), depth)
  {
  }

  /** At the last level the iframes are still visited, but every one of
      them is past the limit, so nothing is found. */
  lemma LastLevelFindsNothing(web: Web, frames: seq<string>)
    ensures ScanIframes(web, frames, MaxDepth) == Success(NotFound)
  {
    var outs := FrameOutcomes(web, frames, MaxDepth);
    forall j | 0 <= j < |outs| ensures !Decisive(outs[j]) {
      assert outs[j] == Resolve(web, frames[j], MaxDepth + 1);
    }
  }

  /** Among the iframes, the first one, in document order, whose search
      raises or yields a truthy source gives the result. */
  lemma FirstFrameWins(web: Web, frames: seq<string>, depth: nat, k: nat)
    requires depth <= MaxDepth && k < |frames|
    requires forall j :: 0 <= j < k ==> !Decisive(Resolve(web, frames[j], depth + 1))
    requires Decisive(Resolve(web, frames[k], depth + 1))
    ensures ScanIframes(web, frames, depth) == Resolve(web, frames[k], depth + 1)
  {
    FirstDecisiveAt(FrameOutcomes(web, frames, depth), k, 0);
  }

  /** When no frame is decisive the loop finds nothing. */
  lemma NoFrameFindsNothing(web: Web, frames: seq<string>, depth: nat)
    requires depth <= MaxDepth
    requires forall j :: 0 <= j < |frames| ==> !Decisive(Resolve(web, frames[j], depth + 1))
    ensures ScanIframes(web, frames, depth) == Success(NotFound)
  {
    var outs := FrameOutcomes(web, frames, depth);
    assert forall j :: 0 <= j < |outs| ==> !Decisive(outs[j]);
  }
}
