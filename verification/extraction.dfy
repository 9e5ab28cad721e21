/** Text extraction from downloaded sources: the JSON-like block of a project
    file, the `js/app.<hash>.js` path inside a loader script, and the project
    state embedded inline in a bundled store. */
module Extraction {
  import opened Results
  import opened Strings

  // ---------------------------------------------------------------------------
  // extract_json_like_block

  /** Some `{` comes before some `}`. */
  predicate HasBracePair(text: string) {
    exists i, j :: 0 <= i < j < |text| && text[i] == '{' && text[j] == '}'
  }

  /** `extract_json_like_block`: from the first `{` to the last `}` inclusive,
      or nothing when no `{` precedes the last `}`. */
  function JsonLikeBlock(text: string): (r: string)
    ensures r == "" <==> !HasBracePair(text)
    ensures r != "" ==>
      && FirstIn(text, {'{'}) < LastOf(text, '}')
      && r == text[FirstIn(text, {'{'})..LastOf(text, '}') + 1]
      && r[0] == '{' && r[|r| - 1] == '}'
  {
    var start := Find(text, "{");
    var end := RFind(text, "}") + 1;
    FindChar(text, '{');
    RFindChar(text, '}');
    BracePair(text);
    if start != -1 && end != -1 && start < end then text[start..end] else ""
  }

  /** A brace pair exists exactly when the first `{` precedes the last `}`. */
  lemma BracePair(text: string)
    ensures HasBracePair(text) <==> FirstIn(text, {'{'}) < LastOf(text, '}')
  {
    var f, l := FirstIn(text, {'{'}), LastOf(text, '}');
    if HasBracePair(text) {
      var i, j :| 0 <= i < j < |text| && text[i] == '{' && text[j] == '}';
      assert f <= i && j <= l;
    }
    if f < l {
      assert text[f] == '{' && text[l] == '}';
    }
  }

  /** The block of a block is the block itself. */
  lemma JsonLikeBlockIdempotent(text: string)
    ensures JsonLikeBlock(JsonLikeBlock(text)) == JsonLikeBlock(text)
  {
    var r := JsonLikeBlock(text);
    if r != "" {
      assert HasBracePair(r) by {
        assert 0 < |r| - 1 && r[0] == '{' && r[|r| - 1] == '}';
      }
      FirstInUnique(r, {'{'}, 0);
      LastOfUnique(r, '}', |r| - 1);
    }
  }

  // ---------------------------------------------------------------------------
  // extract_app_js_path: the first match of  js/app\.[^'"]+\.js

  const Quotes: set<char> := {'\'', '"'}

  /** `s[i..m]` matches `js/app\.[^'"]+\.js`: the literal head, at least one
      character other than a quote, then the literal `.js`. */
  predicate IsAppJsMatch(s: string, i: int, m: int) {
    && 0 <= i && i + 11 <= m <= |s|
    && OccursAt(s, "js/app.", i)
    && NoneIn(s[i + 7..m - 3], Quotes)
    && JsEndsAt(s, m)
  }

  /** The literal `.js` ends at index `m` of `s`. */
  predicate JsEndsAt(s: string, m: int) {
    OccursAt(s, ".js", m - 3)
  }

  /** The match `re.search` reports: the leftmost start, and at that start the
      longest match (the greedy `+` backtracks from the end of the run). */
  ghost predicate LeftmostLongest(s: string, i: int, m: int) {
    && IsAppJsMatch(s, i, m)
    && forall i2, m2 :: IsAppJsMatch(s, i2, m2) ==> i < i2 || (i == i2 && m2 <= m)
  }

  /** The largest `k` in `lo..m` with `.js` ending at `k`, or -1. */
  function LastJsEnd(s: string, lo: nat, m: int): (r: int)
    requires m <= |s|
    ensures r == -1 || (lo <= r <= m && JsEndsAt(s, r))
    ensures forall k :: lo <= k <= m && r < k ==> !JsEndsAt(s, k)
    decreases if m < lo then 0 else m - lo + 1
  {
    if m < lo then -1
    else if JsEndsAt(s, m) then m
    else LastJsEnd(s, lo, m - 1)
  }

  /** For a head at `i`, the matches starting at `i` are exactly the `.js`
      ends no later than the first quote after the head. */
  lemma MatchesAtHead(s: string, i: nat, m: int)
    requires OccursAt(s, "js/app.", i)
    ensures var e := i + 7 + FirstIn(s[i + 7..], Quotes);
      IsAppJsMatch(s, i, m) <==> i + 11 <= m <= e && JsEndsAt(s, m)
  {
    var run := s[i + 7..];
    var e := i + 7 + FirstIn(run, Quotes);
    if i + 11 <= m <= e && JsEndsAt(s, m) {
      var body := s[i + 7..m - 3];
      forall k | 0 <= k < |body| ensures body[k] !in Quotes {
        assert body[k] == run[k];
      }
    }
  }

  /** The leftmost-longest match starting at or after `i`, if any. */
  function AppJsFrom(s: string, i: nat): (r: Option<(nat, nat)>)
    ensures r.Some? ==> i <= r.value.0 && IsAppJsMatch(s, r.value.0, r.value.1)
    ensures r.Some? ==> forall i2, m2 :: i <= i2 && IsAppJsMatch(s, i2, m2) ==>
      r.value.0 < i2 || (r.value.0 == i2 && m2 <= r.value.1)
    ensures r.None? ==> forall i2, m2 :: i <= i2 ==> !IsAppJsMatch(s, i2, m2)
    decreases |s| - i
  {
    if i + 7 > |s| then None
    else if OccursAt(s, "js/app.", i) then
      var e := i + 7 + FirstIn(s[i + 7..], Quotes);
      var m := LastJsEnd(s, i + 11, e);
      AppJsStep(s, i, m);
      if m >= 0 then Some((i, m)) else AppJsFrom(s, i + 1)
    else AppJsFrom(s, i + 1)
  }

  lemma AppJsStep(s: string, i: nat, m: int)
    requires OccursAt(s, "js/app.", i)
    requires m == LastJsEnd(s, i + 11, i + 7 + FirstIn(s[i + 7..], Quotes))
    ensures m >= 0 ==> IsAppJsMatch(s, i, m)
    ensures forall m2 :: IsAppJsMatch(s, i, m2) ==> 0 <= m2 <= m
  {
    forall m2 | IsAppJsMatch(s, i, m2) ensures 0 <= m2 <= m {
      MatchesAtHead(s, i, m2);
    }
    if m >= 0 {
      MatchesAtHead(s, i, m);
    }
  }

  /** `extract_app_js_path`: the text of the first match, or `""`. */
  function AppJsPath(code: string): (r: string)
    ensures r == "" <==> forall i, m :: !IsAppJsMatch(code, i, m)
    ensures r != "" ==> exists i, m :: LeftmostLongest(code, i, m) && r == code[i..m]
    ensures r != "" ==> StartsWith(r, "js/app.") && EndsWith(r, ".js")
  {
    match AppJsFrom(code, 0)
    case Some((i, m)) =>
      assert LeftmostLongest(code, i, m);
      assert code[i..m][..7] == code[i..i + 7];
      assert code[i..m][|code[i..m]| - 3..] == code[m - 3..m];
      code[i..m]
    case None => ""
  }

  // ---------------------------------------------------------------------------
  // The project state inlined in a bundled store

  const StoreStart := "Store({state:{app:"
  const StoreEnd := "},getters"

  /** The inline-store slice: present only when both markers occur; the last
      piece of the split on the start marker, cut at the first end marker. */
  function InlineStore(js: string): (r: Option<string>)
    ensures r.Some? <==> Contains(js, StoreStart) && Contains(js, StoreEnd)
    ensures r.Some? ==>
      var p := RFind(js, StoreStart) + |StoreStart|;
      var q := Find(js[p..], StoreEnd);
      && 0 <= p <= |js|
      && r.value == (if q < 0 then js[p..] else js[p..p + q])
      && !Contains(r.value, StoreStart) && !Contains(r.value, StoreEnd)
  {
    if Contains(js, StoreStart) && Contains(js, StoreEnd) then
      var pieces := Split(js, StoreStart);
      var tail := pieces[|pieces| - 1];
      var r := Split(tail, StoreEnd)[0];
      InlineStoreShape(js, tail, r);
      Some(r)
    else None
  }

  lemma {:induction false} InlineStoreShape(js: string, tail: string, r: string)
    requires Contains(js, StoreStart)
    requires var pieces := Split(js, StoreStart); tail == pieces[|pieces| - 1]
    requires r == Split(tail, StoreEnd)[0]
    ensures var p := RFind(js, StoreStart) + |StoreStart|;
      var q := Find(js[p..], StoreEnd);
      && 0 <= p <= |js|
      && r == (if q < 0 then js[p..] else js[p..p + q])
      && !Contains(r, StoreStart) && !Contains(r, StoreEnd)
  {
    AfterLastStart(js, tail);
    SplitHead(tail, StoreEnd);
    PrefixKeepsAbsence(tail, |r|, StoreStart);
  }

  /** The last piece of the split on the start marker is the text after the
      marker's last occurrence. */
  lemma AfterLastStart(js: string, tail: string)
    requires Contains(js, StoreStart)
    requires var pieces := Split(js, StoreStart); tail == pieces[|pieces| - 1]
    ensures var p := RFind(js, StoreStart) + |StoreStart|;
      0 <= p <= |js| && js[p..] == tail && !Contains(tail, StoreStart)
  {
    StoreStartHead();
    AfterLastOccurrence(js, StoreStart);
  }

  /** The start marker's first character occurs nowhere else in it. */
  lemma StoreStartHead()
    ensures UniqueHead(StoreStart)
  {
    assert StoreStart[0] == 'S';
  }
}
