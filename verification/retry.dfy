/** The per-image fetch loop of `process_match`: up to three requests; a 429
    answer waits `wait_time` seconds and uses up the attempt, a failed request
    waits ten seconds when attempts remain, and the first successful answer
    is used. Waiting is recorded in a trace instead of being performed. */
module Retry {
  import opened Results

  type Byte = b: int | 0 <= b < 256

  /** A successful answer: the body and the `Content-Type` header, if sent. */
  datatype Payload = Payload(body: seq<Byte>, contentType: Option<string>)

  /** One answer to one request: success, `429 Too Many Requests`, or any
      other failure (`requests.RequestException`, including an HTTP error
      status raised by `raise_for_status`). */
  datatype Response = Ok(payload: Payload) | TooManyRequests | Failed

  /** What the loop did: the payload it stopped with, if any, the sleeps it
      made in order, and the number of requests it sent. */
  datatype Fetched = Fetched(got: Option<Payload>, sleeps: seq<nat>, attempts: nat)

  const Retries: nat := 3
  const FailurePause: nat := 10

  /** The pause after the answer to attempt `a`, when there is one. */
  function PauseAfter(answer: Response, wait: nat): nat {
    if answer.TooManyRequests? then wait else FailurePause
  }

  /** The loop from attempt `a` on; `answer(k)` is the answer to attempt `k`. */
  function FetchFrom(answer: nat -> Response, wait: nat, a: nat): (t: Fetched)
    requires a <= Retries
    ensures t.attempts <= Retries - a
    ensures a < Retries ==> 1 <= t.attempts
    ensures t.got.Some? <==> exists k :: a <= k < Retries && answer(k).Ok?
    ensures t.got.Some? ==> answer(a + t.attempts - 1) == Ok(t.got.value)
    ensures forall k :: a <= k < a + t.attempts - 1 ==> !answer(k).Ok?
    ensures t.got.None? ==> t.attempts == Retries - a
    ensures |t.sleeps| <= t.attempts
    ensures forall k :: 0 <= k < |t.sleeps| ==> t.sleeps[k] == PauseAfter(answer(a + k), wait)
    ensures t.attempts == 0 ==> t.sleeps == []
    ensures t.attempts > 0 ==> (|t.sleeps| == t.attempts <==> answer(a + t.attempts - 1).TooManyRequests?)
    decreases Retries - a
  {
    if a == Retries then Fetched(None, [], 0)
    else
      match answer(a)
      case Ok(p) => Fetched(Some(p), [], 1)
      case TooManyRequests =>
        var t := FetchFrom(answer, wait, a + 1);
        Fetched(t.got, [wait] + t.sleeps, t.attempts + 1)
      case Failed =>
        if a < Retries - 1 then
          var t := FetchFrom(answer, wait, a + 1);
          Fetched(t.got, [FailurePause] + t.sleeps, t.attempts + 1)
        else Fetched(None, [], 1)
  }

  /** The whole loop, starting at the first attempt. */
  function Fetch(answer: nat -> Response, wait: nat): (t: Fetched)
    ensures 1 <= t.attempts <= Retries
    ensures t.got.Some? <==> exists k :: 0 <= k < Retries && answer(k).Ok?
    ensures t.got.Some? ==> answer(t.attempts - 1) == Ok(t.got.value)
    ensures forall k :: 0 <= k < t.attempts - 1 ==> !answer(k).Ok?
    ensures t.got.None? ==> t.attempts == Retries
    ensures forall k :: 0 <= k < |t.sleeps| ==> t.sleeps[k] == PauseAfter(answer(k), wait)
    ensures |t.sleeps| == t.attempts <==> answer(t.attempts - 1).TooManyRequests?
    ensures |t.sleeps| == t.attempts - 1 <==> !answer(t.attempts - 1).TooManyRequests?
  {
    FetchFrom(answer, wait, 0)
  }

  /** The first successful answer is the one used, whatever comes after it. */
  lemma FirstOkWins(answer: nat -> Response, wait: nat, k: nat)
    requires k < Retries && answer(k).Ok?
    requires forall j :: 0 <= j < k ==> !answer(j).Ok?
    ensures Fetch(answer, wait).got == Some(answer(k).payload)
    ensures Fetch(answer, wait).attempts == k + 1
  {
    var t := Fetch(answer, wait);
    assert t.got.Some?;
  }

  /** A server that always answers 429 gets three requests and three full
      waits, and nothing is fetched. */
  lemma AlwaysTooMany(answer: nat -> Response, wait: nat)
    requires forall k :: answer(k) == TooManyRequests
    ensures Fetch(answer, wait) == Fetched(None, [wait, wait, wait], 3)
  {
    assert answer(0) == TooManyRequests && answer(1) == TooManyRequests && answer(2) == TooManyRequests;
    assert FetchFrom(answer, wait, 2) == Fetched(None, [wait], 1);
    assert FetchFrom(answer, wait, 1) == Fetched(None, [wait, wait], 2);
  }

  /** A server that always fails gets three requests and two ten-second
      pauses: none after the last attempt. */
  lemma AlwaysFailing(answer: nat -> Response, wait: nat)
    requires forall k :: answer(k) == Failed
    ensures Fetch(answer, wait) == Fetched(None, [FailurePause, FailurePause], 3)
  {
    assert answer(0) == Failed && answer(1) == Failed && answer(2) == Failed;
    assert FetchFrom(answer, wait, 2) == Fetched(None, [], 1);
    assert FetchFrom(answer, wait, 1) == Fetched(None, [FailurePause], 2);
  }
}
