# cyoa_downloader core, modelled in Dafny

The CYOA downloader finds the project file (a JSON-like text) behind an
interactive-fiction page and rewrites the images that file references. This
project models the decision logic of `cyoa_downloader.py` as pure Dafny
functions over strings and proves properties of them. The network, the HTML
parser and the file system are replaced by oracles passed in as parameters.

- **URL and text helpers** (`urls.dfy`, `extraction.dfy`, `strings.dfy`):
  - URL decomposition and recomposition by the expression of Appendix B of
    RFC 3986 and the recomposition of section 5.3, which stand for `urlparse`
    and `urlunparse`;
  - `strip_document_from_url` and `get_first_folder_from_url`;
  - percent-decoding (section 2.1 of RFC 3986) and `clean_url_path_component`;
  - `extract_json_like_block`, and `extract_app_js_path` as the leftmost-longest
    match of its regular expression;
  - the inline-store slice between `Store({state:{app:` and `},getters`;
  - Python's `find`, `rfind`, `split`, `strip` and `rstrip` on `seq<char>`.
- **Gateway and headers** (`gateway.dfy`, `headers.dfy`):
  - the path validation of `get_iframe_url_from_cyoa_cafe`, with the records
    API as an oracle;
  - the exact-hostname header table of `get_headers_for_url`.
- **Source resolver** (`resolver.dfy`): `get_project_source` as a
  depth-bounded, first-success-wins recursive search over a `Web` record of
  oracles. `find_scripts` is modelled over the script tags the parser reports.
  `extract_placeholder_url` is modelled only in its choice between its two
  patterns.
- **Image pipeline** (`images.dfy`, `retry.dfy`, `filenames.dfy`):
  - `process_images` as a tokenizer that stands for the `re.sub` scan, plus
    one pass per operation;
  - the three-attempt retry loop, recorded as a trace of sleeps;
  - the MIME fallback chain;
  - the download filename and its collision counter loop;
  - the file name chosen by `save_string_to_file`.
- **Shared** (`results.dfy`): `Option`, `Result`, the raised exceptions and
  Python truthiness of optional strings.

Where the docstring of `get_headers_for_url` and its code disagree (the
docstring promises `None` for an unknown domain), the model follows the code:
the default headers are returned.

## Model

| member | source | states |
|---|---|---|
| Urls.UnparseParse | cyoa_downloader.py:601-604 | Recomposing the parsed components of any string gives back exactly that string. |
| Urls.ParseUnparse | cyoa_downloader.py:601-604 | For well-formed components, parsing their recomposition gives back the same components. |
| Urls.ParseWellFormed | cyoa_downloader.py:585 | Every parse yields well-formed components, so the two round trips compose. |
| Urls.StripKeepsWellFormed | cyoa_downloader.py:603-604 | Replacing the path by its directory and dropping the query keeps the components well-formed. |
| Urls.DirectoryOf | cyoa_downloader.py:589-599 | The new path always ends with `/`. A path already ending with `/` is unchanged. Otherwise the new path is the text up to the last `/`, or `/` when there is none, and is a prefix of the old path. |
| Urls.StripDocument | cyoa_downloader.py:574-605 | Parsing the result gives the directory of the original path and no query. The scheme, authority and fragment are unchanged; an empty authority is kept, unlike Python (see Left out). |
| Urls.StripDocumentIdempotent | cyoa_downloader.py:574-605 | Stripping twice equals stripping once. |
| Urls.FirstFolder | cyoa_downloader.py:296-299 | The result is empty exactly when the path is all slashes. Otherwise it is a nonempty run without `/` that follows only slashes and ends at a `/` or at the end. |
| Urls.FirstFolderOfUrl | cyoa_downloader.py:294-299 | The same characterisation, stated for the path component of the URL. |
| Urls.FirstSegmentUnique | cyoa_downloader.py:296-298 | A path has at most one such first segment, so the contract of `FirstFolder` determines its result. |
| Urls.StripAsSlice | cyoa_downloader.py:296 | `strip('/')` leaves a slice of the path. Only slashes come before and after that slice. |
| Urls.PercentDecodePlain | cyoa_downloader.py:341-342 | Text without `%` decodes to itself. |
| Urls.PercentRoundTrip | cyoa_downloader.py:341-342 | Decoding the `%XX` encoding of any byte string gives back that string. |
| Urls.KeepPathSafe | cyoa_downloader.py:344-348 | The kept text contains only characters from `[A-Za-z0-9_\-./]` and is no longer than the input. |
| Urls.KeepPathSafeAllSafe | cyoa_downloader.py:344-348 | Text made only of allowed characters is kept whole. |
| Urls.KeepPathSafeConcat | cyoa_downloader.py:348 | The removal acts character by character: it distributes over concatenation. |
| Urls.KeepPathSafeSingle | cyoa_downloader.py:348 | One character is kept when it is in `[A-Za-z0-9_\-./]` and removed otherwise; with the concatenation rule this fixes the result for every input. |
| Urls.CleanPathComponent | cyoa_downloader.py:331-350 | The result contains only allowed characters. Without `%` in the input, it is the input with the disallowed characters removed. |
| Urls.CleanEncoded | cyoa_downloader.py:331-350 | The percent-decoding step undoes `%XX` encoding: cleaning the encoding of any byte string gives that string with its disallowed characters removed. |
| Urls.CleanPathComponentIdempotent | cyoa_downloader.py:331-350 | Cleaning a cleaned component changes nothing. |
| Strings.Strip | cyoa_downloader.py:203 | After `strip(c)`, neither end is `c`. The result is empty exactly when the input is all `c`. |
| Strings.AfterLastOccurrence | cyoa_downloader.py:149 | For a separator whose occurrences cannot overlap, the last piece of `split` is the text after the last occurrence (`rfind`) and contains no separator. |
| Extraction.JsonLikeBlock | cyoa_downloader.py:231-236 | The result is empty exactly when no `{` comes before some `}`. Otherwise it is the text from the first `{` to the last `}` inclusive, which starts with `{` and ends with `}`. |
| Extraction.BracePair | cyoa_downloader.py:231-236 | A `{` before some `}` exists exactly when the first `{` precedes the last `}`. |
| Extraction.JsonLikeBlockIdempotent | cyoa_downloader.py:231-236 | Extracting the block of a block gives the block itself. |
| Extraction.AppJsFrom | cyoa_downloader.py:311-312 | Returns the leftmost start of a match of `js/app\.[^'"]+\.js` at or after `i`, with the longest match at that start, or none when no match exists. |
| Extraction.AppJsPath | cyoa_downloader.py:301-313 | The result is empty exactly when the regular expression has no match. Otherwise it is the leftmost-longest match, which starts with `js/app.` and ends with `.js`. |
| Extraction.InlineStore | cyoa_downloader.py:144-151 | The slice exists exactly when both markers occur. It runs from just after the last start marker to the first end marker after it, or to the end of the script. It contains neither marker. |
| Gateway.GamePath | cyoa_downloader.py:202-206 | The split of the stripped path is exactly `['game', id]` iff the path is `game/` followed by text without `/`. That id is then nonempty. |
| Gateway.GameId | cyoa_downloader.py:201-208 | Accepts exactly the paths of shape `game/<id>` and returns the id, which is nonempty and has no `/`. Every other shape raises `ValueError` with the source's message. |
| Gateway.IframeUrl | cyoa_downloader.py:186-229 | A validation error propagates. Success means the API returned a record with a truthy `iframe_url`, whose value is returned. An HTTP failure raises `RequestException`. A missing or empty field raises `ValueError`. |
| Headers.HeadersFor | cyoa_downloader.py:608-633 | The result is `None` exactly when parsing fails on unbalanced brackets in the authority. An exact hostname match in the table gives its override. Anything else gives the default headers. |
| Headers.HeadersByHost | cyoa_downloader.py:625-630 | Two URLs whose authorities parse and whose hostnames are equal get the same headers, and they are present. |
| Resolver.ScriptUrl | cyoa_downloader.py:253-256 | Returns an absolute `http(s)` source, or any source without a base, as it is. Any other source is appended to the base with exactly one `/` between them. |
| Resolver.Harvest | cyoa_downloader.py:248-278 | Contributes at most one script per tag. |
| Resolver.HarvestContents | cyoa_downloader.py:252-276 | Every harvested script is the content of some tag. |
| Resolver.HarvestSingle | cyoa_downloader.py:253-276 | A single tag contributes its content when it has one (a loader's `app.js` or a `src` file answered 200, or its text) and nothing otherwise. |
| Resolver.HarvestConcat | cyoa_downloader.py:252-276 | Harvesting keeps document order: the contents of two runs of tags are those of each, in order. |
| Resolver.HarvestInline | cyoa_downloader.py:275-276 | Tags without a loader and without a truthy `src` contribute their text, or `""` when they have none. |
| Resolver.Placeholders | cyoa_downloader.py:280-286 | The second pattern is consulted only when the first finds nothing. |
| Resolver.FullUrl | cyoa_downloader.py:129 | A found URL is used unchanged exactly when it contains `http` anywhere, even inside a relative name such as `data_http.json`. |
| Resolver.FullUrlRelative | cyoa_downloader.py:129 | Any other found URL follows the page URL with its trailing slashes removed and one `/` added. |
| Resolver.FromPlaceholders | cyoa_downloader.py:127-133 | Nothing is found exactly when no candidate URL answers truthily. Otherwise the first candidate whose GET is truthy gives the source, paired with the page URL. |
| Resolver.ScriptOrder | cyoa_downloader.py:124-151 | Within one script the order is: placeholder URLs (base: the page URL), then `project.json` under the page URL (base: that URL), then the inline store whenever both markers occur (base: the page URL). |
| Resolver.ScanScripts | cyoa_downloader.py:124-151 | The script loop yields nothing exactly when no script yields an answer. Otherwise it returns the answer of the first script that yields one. |
| Resolver.Resolve | cyoa_downloader.py:102-105 | Past depth 3 nothing is found. The search terminates because every recursive call uses `depth + 1`. |
| Resolver.FirstDecisive | cyoa_downloader.py:160-167 | The result is the first frame outcome that raises or carries a truthy source. When there is none, the result is `(None, "")` and no outcome is decisive. |
| Resolver.FirstDecisiveAt | cyoa_downloader.py:160-165 | A decisive outcome preceded only by fruitless ones is the result. |
| Resolver.GatewayErrorPropagates | cyoa_downloader.py:107-109 | An exception raised by the gateway escapes the search unchanged. |
| Resolver.Target | cyoa_downloader.py:107-112 | The gateway is asked exactly when the URL contains `cyoa.cafe`; any other URL is searched as given. A successful gateway answer is never empty, so the `if not url` return cannot be taken. |
| Resolver.HeadShortCircuit | cyoa_downloader.py:107-119 | For the URL actually searched (the given one, or the gateway's `iframe_url` for a `cyoa.cafe` link), a `project.json` next to the page ends the search at once, even when fetching it fails. Its base is the stripped URL. |
| Resolver.DeadPageFindsNothing | cyoa_downloader.py:107-123 | For the URL actually searched, gateway links included: without a `project.json` next to it, a page whose GET is falsy yields `(None, "")`. |
| Resolver.ScriptsBeforeFrames | cyoa_downloader.py:107-163 | For the URL actually searched, gateway links included, once the page has been fetched: an answer from its scripts is the result, and the iframes are searched only when no script yields one. |
| Resolver.LastLevelFindsNothing | cyoa_downloader.py:160-167 | At depth 3 the frames are visited but each is past the limit, so nothing is found. |
| Resolver.FirstFrameWins | cyoa_downloader.py:160-165 | Among the iframes, the first one in document order whose search raises or yields a truthy source gives the result. |
| Resolver.NoFrameFindsNothing | cyoa_downloader.py:160-167 | When no frame search is decisive, the result is `(None, "")`. |
| Retry.FetchFrom | cyoa_downloader.py:435-497 | At most the remaining attempts are made. Something is obtained iff some remaining attempt is answered `Ok`, and the first `Ok` is used. A failure uses every attempt. The sleeps follow the answers: `wait_time` after a 429 (also after the last attempt), 10 s after an error when attempts remain. |
| Retry.Fetch | cyoa_downloader.py:435-497 | The same for the whole loop: 1 to 3 attempts; a payload iff some attempt is `Ok`; one sleep per attempt except after a final error. |
| Retry.FirstOkWins | cyoa_downloader.py:436-456 | The first `Ok` answer decides the payload, after exactly that many attempts. |
| Retry.AlwaysTooMany | cyoa_downloader.py:439-442 | Three 429 answers give nothing after three sleeps of `wait_time`. |
| Retry.AlwaysFailing | cyoa_downloader.py:489-495 | Three errors give nothing after two 10-second sleeps. |
| Filenames.Basename | cyoa_downloader.py:466 | The basename is a slash-free tail of the path that is the whole path or follows a `/` (`FinalComponent`). It is empty exactly when the path is empty or ends in `/`. |
| Filenames.SplitExt | cyoa_downloader.py:469 | `splitext` splits the name into two parts that concatenate back to it. The extension is empty or a `.` followed by no `.` or `/`. A nonempty extension leaves a stem whose last component has a character other than `.`, so leading dots never start an extension. An empty extension means every `.` of the last component has only dots before it in that component, so no extension is missed. |
| Filenames.AppendedExtension | cyoa_downloader.py:469-475 | After appending a well-formed extension to a name without `/` that has a character other than `.`, `splitext` gives back the name and that extension. |
| Filenames.CandidateInjective | cyoa_downloader.py:478 | Different counters give different names `base_k + ext`. |
| Filenames.TriedBound | cyoa_downloader.py:477-480 | Only finitely many candidates can be taken, so the counter loop terminates. |
| Filenames.FirstFree | cyoa_downloader.py:476-480 | The chosen counter gives a free name, and every smaller counter's name is taken. |
| Filenames.ResolveCollision | cyoa_downloader.py:475-480 | The loop returns the name for the smallest free counter, which is not taken. |
| Filenames.Sanitize | cyoa_downloader.py:362 | Replacing `<>:"/\|?*` by `_` keeps the length, leaves no forbidden character and changes nothing else. |
| Filenames.SanitizeClean | cyoa_downloader.py:362 | A name without forbidden characters is kept. |
| Filenames.SaveName | cyoa_downloader.py:352-375 | The name written is not an existing one and has no forbidden character. It is the sanitized name itself when that is free. Otherwise it is the counter variant `<base>_<k><ext>` for the smallest `k` whose name is free: every smaller counter's name exists. |
| Filenames.CandidateClean | cyoa_downloader.py:372-375 | Counter names of a clean name are clean. |
| Images.MatchAt | cyoa_downloader.py:416 | A match at `p` is the key, a nonempty value without `"`, and the closing quote. The result is none exactly when no match starts at `p`, and otherwise the end of the only match there, so no match is missed. |
| Images.TokenizeScans | cyoa_downloader.py:500-502 | The scan cuts the text into pieces, each of which is the match starting where the pieces before it end, or one character where no match starts. No match is skipped and none is invented. |
| Images.ScanUnique | cyoa_downloader.py:500-502 | Any cut of the text into such pieces is the scan, so the occurrences found are determined by the text. |
| Images.RenderTokenize | cyoa_downloader.py:500-502 | The pieces spell the input again, so the scan loses and adds nothing. |
| Images.SpliceUnchanged | cyoa_downloader.py:500-502 | Text outside matches is kept: replacing every occurrence by its own text gives back the input. |
| Images.DataImageUriExact | cyoa_downloader.py:407 | The skip test holds exactly when the value starts with `data:image/`, a nonempty run of `[a-zA-Z0-9.+-]` and `;base64,`. |
| Images.EmbeddedIsDataUri | cyoa_downloader.py:453-456 | An embedded image of type `image/<subtype>` is recognised as already embedded. |
| Images.ImageUrl | cyoa_downloader.py:431 | Absolute `http(s)` values are used as they are. Others are joined to `base_url + '/'`. The join raises `ValueError("Invalid IPv6 URL")` exactly when the value is not absolute and either argument of `urljoin` has an authority with unbalanced brackets. |
| Images.UnterminatedHostRaises | cyoa_downloader.py:431 | The value `//[x/a.png` makes `urljoin` raise, whatever the base URL. |
| Images.MimeOf | cyoa_downloader.py:446-451 | The content type is the header when truthy, else the guess when truthy, else `application/octet-stream`. It is never empty. |
| Images.UrlFileName | cyoa_downloader.py:465-468 | The file name is `image` when the URL's path is empty or ends in `/`. Otherwise it is the slash-free tail of the path that is the whole path or follows a `/`, which `Filenames.BasenameUnique` shows is exactly the text after the last `/`. |
| Filenames.BasenameUnique | cyoa_downloader.py:466 | Only one slash-free tail of a path is the whole path or follows a `/`, so the contracts of `Basename` and `UrlFileName` determine their results. |
| Images.GuessedExtension | cyoa_downloader.py:460-462 | The guess from the content type is used when truthy, else `.bin`. |
| Images.DesiredName | cyoa_downloader.py:465-471 | The desired name is the URL's file name when that has an extension, and otherwise the file name with the guessed extension appended; it is never empty. Its partner is `Images.DesiredNameExtension`. |
| Images.DesiredNameExtension | cyoa_downloader.py:460-474 | When the guessed extension (or `.bin`) is well formed and the file name has a character other than `.`, the desired name has an extension: the file name's own, or else the guessed one. |
| Images.SaveAs | cyoa_downloader.py:475-480 | The saved name is free, and is the desired name itself when that is free. Otherwise it is `<base>_<k><ext>` for the smallest `k` whose name is free: every smaller counter's name is taken. |
| Images.ProcessMatch | cyoa_downloader.py:422-497 | It raises `ValueError` exactly when the value is not a data URI and `urljoin` rejects it; the raise escapes, since it comes before the request loop and its handler. Data URIs are returned unchanged. A file is saved only when downloading, under a name not yet taken, and the replacement refers to `images/<name>`. Any other replacement is the match text or, when embedding, a data URI. |
| Images.FetchOutcomes | cyoa_downloader.py:433-497 | Once the value is fetched, the outcome follows the request loop: a failed fetch returns the match text; embedding gives the data URI of the payload; downloading saves the payload under `SaveAs` of the desired name and refers to it. |
| Images.PassFrom | cyoa_downloader.py:499-502 | The pass raises exactly when some occurrence makes `process_match` raise, as `re.sub` lets the exception through. Otherwise the pass output has the shape `PassShape` states: one replacement per occurrence. Data URIs are kept. Every replacement is the original, an embedded URI or a reference to a saved file. Saved names are distinct and not already taken. Embedding saves nothing. Outcome `i` is exactly what `process_match` returns for occurrence `i` when the names saved by the outcomes before it are taken; the replacements and the saved files are read off these outcomes. |
| Images.EmbedEachAlone | cyoa_downloader.py:499-500 | In the embedding pass each replacement is what `process_match` gives for that occurrence on its own, whatever names are taken. |
| Images.ProcessImages | cyoa_downloader.py:382-504 | `ValueError` is raised iff downloading without a truthy temp folder (with that message) or some enabled pass meets a value that `urljoin` rejects (with `Invalid IPv6 URL`). A disabled pass returns the input. An enabled pass splices its replacements into the input. Downloaded images have distinct new names. |
| Images.AllEmbeddedUnchanged | cyoa_downloader.py:426-428 | A text whose images are all data URIs comes back unchanged from both passes, with nothing saved. |
| Images.NothingSaved | cyoa_downloader.py:426-428 | A download pass over data URIs only succeeds and saves nothing. |
| Images.NoneRaises | cyoa_downloader.py:426-431 | A pass over data URIs only never raises, since they return before `urljoin`. |

## Left out

- Python `urlparse` quirks are not modelled:
  - parameters after `;`;
  - checking that a scheme's characters are valid;
  - `urlunparse` dropping empty `?` and `#`;
  - lower-casing the scheme;
  - removing tab, CR and LF anywhere, and leading C0 control characters and spaces;
  - writing `//` before an empty authority for a scheme such as `http` whose
    path starts with `/` (`strip_document_from_url('http:/a/b')` gives
    `http:///a/`, where the model gives `http:/a/`);
  - `urlunsplit` dropping an empty authority when the scheme is missing or
    is not one of the schemes in `uses_netloc`
    (`strip_document_from_url('///a/b')` gives `/a/` and
    `strip_document_from_url('foo:///a/b')` gives `foo:/a/`, where the model
    keeps the empty authority and gives `///a/` and `foo:///a/`).
  The RFC 3986 decomposition stands in for it, and the members below state
  the model's behaviour, not Python's, on such inputs.
- Urls.UnparseParse: the round trip holds for the model; Python's `urlunparse(urlparse(s))` differs from `s` on the inputs just listed.
- Urls.StripDocument: keeps an empty authority that Python's `urlunsplit` drops (the last quirk above), so "the authority is unchanged" is a statement about the model. It also does not raise `ValueError("Invalid IPv6 URL")` on an authority with an unbalanced `[` or `]`, as `urlparse` does at cyoa_downloader.py:585; a value is returned instead.
- Resolver.Resolve: the three calls of `strip_document_from_url` (cyoa_downloader.py:116, 119, 124) do not raise on an unbalanced bracket, so such a page is searched instead of failing.
- Gateway.GameId: `urlparse` at cyoa_downloader.py:201 does not raise on an unbalanced bracket; the path is validated instead.
- Urls.FirstFolderOfUrl: `urlparse` at cyoa_downloader.py:295 does not raise on an unbalanced bracket.
- Images.DesiredName: `urlparse` at cyoa_downloader.py:465 does not raise on an unbalanced bracket; in the source the exception escapes the `RequestException` handler.
- Gateway.IframeUrl: the `RequestException` re-raised at cyoa_downloader.py:229 carries only its fixed prefix `HTTP request failed`, without the text of the wrapped exception, which comes from `requests`.
- Headers.HeadersFor and Images.ImageUrl model that failure: the first because the source catches it there, the second because it escapes `process_images`.
- Images.ImageUrl: of the checks `urljoin` makes, only bracket balance is modelled. Python 3.12 also rejects a bracketed host that is not a valid IPv6 or IPvFuture address. The value `urljoin` returns is an uninterpreted function.
- Images.ProcessImages: when a pass raises, the images the download pass already wrote stay in the folder. The failure result carries none of them.
- Filenames.Basename: `os.path` is taken to be `posixpath`, which splits only at `/`. On Windows, `ntpath` also splits at `\` and after a drive colon, so a name such as `a\b.png` has a different basename there.
- Filenames.SplitExt: `posixpath.splitext` is modelled. `ntpath.splitext` also treats `\` as a separator when finding the last component.
- `hostname` is modelled only for its bracket check and for taking the host out of the authority. Unicode lower-casing and IPv6 validation beyond bracket balance are not modelled.
- Urls.HostOf: the contract states only that a host found is nonempty; the header table is stated against it in `Headers.HeadersFor`.
- Urls.PercentDecode: the contract states only the length bound; its meaning is given by `Urls.PercentDecodePlain` and `Urls.PercentRoundTrip`. Decoding is bytewise (`%XX` to the character with that code), not UTF-8: the two differ only on non-ASCII results, which `clean_url_path_component` removes anyway.
- Images.DesiredNameExtension: a file name made only of dots (`..`) is excluded, because then `splitext` finds no extension even after the guessed one is appended; `Images.DesiredName` itself computes that case as the source does.
- `requests` is not modelled: GET, HEAD, the records API and `raise_for_status` are oracles. The image network is a function of the operation, the occurrence number, the attempt number, the URL and the headers. A non-string `iframe_url`, and a JSON decoding error, are not distinguished from an HTTP failure.
- BeautifulSoup is an oracle: the script tags and the iframe `src` values of a page are given as sequences.
- The two regular expressions of `extract_placeholder_url` are oracles. Only the preference between them is modelled.
- `urljoin`, `mimetypes.guess_type`, `mimetypes.guess_extension` and base64 encoding (section 4 of RFC 4648) are uninterpreted functions.
- `re.IGNORECASE` is modelled for ASCII letters only.
- `time.sleep` is not called; its durations are recorded in a trace.
- File writes, `os.makedirs`, temp folders, zipping, logging, `main` and argument parsing are not modelled; the set of existing names stands for the file system.
- `get_first_subdomain` (tldextract) is not modelled.
- The global `wait_time` is not modelled, since `main` always passes 20.
- The `if not url` check after the gateway call in `get_project_source` is modelled but can never fire: the gateway returns only truthy values or raises.
- `url_file_exists`, `get_source` and `extract_iframe_urls` are not modelled beyond their oracles: they are network and parser calls.
