/** The cyoa.cafe gateway: a game page URL `.../game/<id>` names a record in
    the site's API whose `iframe_url` field holds the real project URL. */
module Gateway {
  import opened Results
  import opened Strings
  import opened Urls

  /** What the API answers for a record: a transport or HTTP failure, or a
      decoded record whose `iframe_url` field may be missing. */
  datatype ApiReply = HttpFailed | Record(iframeUrl: Option<string>)

  const ApiPrefix := "https://cyoa.cafe/api/collections/games/records/"

  /** A split on a one-character separator has one piece exactly when the
      separator does not occur. */
  lemma SplitSingle(s: string, c: char)
    ensures |Split(s, [c])| == 1 <==> NoneIn(s, {c})
  {
    if Find(s, [c]) >= 0 {
      SplitStep(s, c);
      assert |Split(s, [c])| >= 2;
    } else {
      NotContainsChar(s, c);
    }
  }

  /** The path shape `game/<id>` seen through a split on `/`. */
  lemma GamePath(t: string)
    requires t == [] || t[|t| - 1] != '/'
    ensures var parts := Split(t, "/");
      (|parts| == 2 && parts[0] == "game") <==> (StartsWith(t, "game/") && NoneIn(t[5..], {'/'}))
    ensures var parts := Split(t, "/");
      |parts| == 2 && parts[0] == "game" ==> parts[1] == t[5..] && parts[1] != ""
  {
    var parts := Split(t, "/");
    var i := Find(t, "/");
    if StartsWith(t, "game/") {
      assert t[4] == '/' && t[..4] == "game";
      OccursAtChar(t, '/', 4);
      assert i <= 4;
      if i < 4 {
        OccursAtChar(t, '/', i);
      }
      assert i == 4;
    }
    if i < 0 {
      assert parts == [t];
      if StartsWith(t, "game/") {
        OccursAtChar(t, '/', 4);
      }
    } else {
      SplitStep(t, '/');
      var rest := t[i + 1..];
      SplitSingle(rest, '/');
      if parts[0] == "game" {
        assert t[..i] == "game";
        assert i == 4;
        assert t[..5] == "game/";
      }
    }
  }

  /** The validation of the game URL: its path, with the slashes at both ends
      stripped, must split on `/` into exactly `game` and an identifier. */
  function GameId(gameUrl: string): (r: Result<string, Raised>)
    ensures var t := Strip(Parse(gameUrl).path, '/');
      r.Success? <==> StartsWith(t, "game/") && NoneIn(t[5..], {'/'})
    ensures r.Success? ==>
      var t := Strip(Parse(gameUrl).path, '/');
      r.value == t[5..] && r.value != "" && NoneIn(r.value, {'/'})
    ensures r.Failure? ==> r.error == ValueError("Invalid game URL format: " + gameUrl)
  {
    var t := Strip(Parse(gameUrl).path, '/');
    var parts := Split(t, "/");
    GamePath(t);
    if |parts| != 2 || parts[0] != "game" then
      Failure(ValueError("Invalid game URL format: " + gameUrl))
    else
      Success(parts[1])
  }

  /** `get_iframe_url_from_cyoa_cafe`, with the API reachable through `api`:
      a malformed game URL raises before any request; a failed request, or a
      record without a truthy `iframe_url`, raises; otherwise the field. */
  function IframeUrl(api: string -> ApiReply, gameUrl: string): (r: Result<string, Raised>)
    ensures GameId(gameUrl).Failure? ==> r == Failure(GameId(gameUrl).error)
    ensures GameId(gameUrl).Success? ==>
      var reply := api(ApiPrefix + GameId(gameUrl).value);
      && (r.Success? <==> reply.Record? && Truthy(reply.iframeUrl))
      && (r.Success? ==> r.value == reply.iframeUrl.value && r.value != "")
      && (reply.HttpFailed? ==> r.Failure? && r.error.RequestException?)
      && (reply.Record? && !Truthy(reply.iframeUrl) ==> r.Failure? && r.error.ValueError?)
  {
    var id :- GameId(gameUrl);
    match api(ApiPrefix + id)
    case HttpFailed => Failure(RequestException("HTTP request failed"))
    case Record(field) =>
      if !Truthy(field) then
        Failure(ValueError("'iframe_url' not found in the API response for game ID: " + id))
      else Success(field.value)
  }
}
