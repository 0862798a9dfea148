/** One request to the completion API with adaptive timeout and
    status-aware retry (`_chamar_api_com_retry_adaptativo` in eval.py).
    The network, `random.choice` and `random.uniform` are parameters: a
    `Draws` value says, for every iteration of the retry loop, what the POST
    came back with, which model index was drawn and which jitter. Sleeping
    is not performed; the computed timeouts and waits are returned as a
    trace of events instead. */
module Transport {

  import opened Maybe
  import opened Text

  /** What awaiting one POST produced: the HTTP status with
      `choices[0].message.content` when the body has a non-empty `choices`
      list holding a string there (`None` otherwise), or an exception raised
      by the request or by reading its body. */
  datatype Reply = Http(status: int, content: Option<string>) | Raised

  /** `random.uniform(0, 5)`. */
  type Jitter = r: real | 0.0 <= r <= 5.0

  /** The outside world of one call, per iteration of the retry loop. */
  datatype Draws = Draws(reply: nat -> Reply, pick: nat -> nat, jitter: nat -> Jitter)

  /** The parts of the `api` configuration and of the environment the call
      reads: `API_KEY`, `GROQ_API_KEY`, `api.timeout`, `api.models`. */
  datatype ApiConfig = ApiConfig(
    apiKey: Option<string>,
    groqKey: Option<string>,
    timeout: Option<int>,
    models: seq<string>)

  /** A POST with its model and total timeout in seconds, the wait after a
      429, and the back-off between iterations. */
  datatype Event = Post(model: string, timeout: int) | RateLimitWait(wait: int) | Backoff(delay: real)

  const MaxRetries: nat := 3

  /** `os.getenv('API_KEY') or os.getenv('GROQ_API_KEY')` is truthy. */
  predicate KeyPresent(cfg: ApiConfig) {
    (cfg.apiKey.Some? && cfg.apiKey.value != "") || (cfg.groqKey.Some? && cfg.groqKey.value != "")
  }

  /** `api_config.get('timeout', 120)`. */
  function TimeoutBase(cfg: ApiConfig): int {
    cfg.timeout.GetOr(120)
  }

  /** `2 ** e`. */
  function Pow2(e: nat): (r: nat)
    ensures r >= 1
  {
    if e == 0 then 1 else 2 * Pow2(e - 1)
  }

  /** `3 ** e`. */
  function Pow3(e: nat): (r: nat)
    ensures r >= 1
  {
    if e == 0 then 1 else 3 * Pow3(e - 1)
  }

  function MinInt(a: int, b: int): int {
    if a <= b then a else b
  }

  function MinReal(a: real, b: real): real {
    if a <= b then a else b
  }

  /** `min(60, 15 * (2 ** retry))`. */
  function RateLimitWaitOf(retry: nat): (w: int)
    ensures 15 <= w <= 60
  {
    MinInt(60, 15 * Pow2(retry))
  }

  /** `min(30, (3 ** retry) + random.uniform(0, 5))`. */
  function BackoffOf(retry: nat, jitter: Jitter): (w: real)
    ensures 1.0 <= w <= 30.0
  {
    MinReal(30.0, Pow3(retry) as real + jitter)
  }

  /** `i % n` for a positive `n`, by repeated subtraction. */
  function Reduce(i: nat, n: nat): (r: nat)
    requires n >= 1
    ensures r < n
    decreases i
  {
    if i < n then i else Reduce(i - n, n)
  }

  /** The model `random.choice(models)` returns for iteration `retry`: the
      element at the drawn position, taken modulo the length of the list. */
  function ModelOf(cfg: ApiConfig, d: Draws, retry: nat): string
    requires cfg.models != []
  {
    cfg.models[Reduce(d.pick(retry), |cfg.models|)]
  }

  /** A reply the loop returns on: status 200 with content whose stripped
      length exceeds 50. */
  predicate Accepted(r: Reply) {
    r.Http? && r.status == 200 && r.content.Some? && TrimmedLength(r.content.value) > 50
  }

  /** Iteration `retry` reaches a POST (an empty model list makes
      `random.choice` raise first) and the reply is accepted. */
  predicate Succeeds(cfg: ApiConfig, d: Draws, retry: nat) {
    cfg.models != [] && Accepted(d.reply(retry))
  }

  /** The events of an iteration that does not return: its POST, the wait
      after a 429, and the back-off unless it is the last iteration. */
  function FailedIteration(cfg: ApiConfig, d: Draws, retry: nat): seq<Event> {
    (if cfg.models == [] then []
     else
       [Post(ModelOf(cfg, d, retry), TimeoutBase(cfg) + 20 * retry)] +
       (if d.reply(retry).Http? && d.reply(retry).status == 429 then [RateLimitWait(RateLimitWaitOf(retry))] else []))
    + (if retry < MaxRetries - 1 then [Backoff(BackoffOf(retry, d.jitter(retry)))] else [])
  }

  /** The retry loop from iteration `retry` on: the content returned (if
      any) and the events. */
  function RetryFrom(cfg: ApiConfig, d: Draws, retry: nat): (Option<string>, seq<Event>)
    decreases MaxRetries - retry
  {
    if retry >= MaxRetries then (None, [])
    else if Succeeds(cfg, d, retry) then
      (d.reply(retry).content, [Post(ModelOf(cfg, d, retry), TimeoutBase(cfg) + 20 * retry)])
    else
      var rest := RetryFrom(cfg, d, retry + 1);
      (rest.0, FailedIteration(cfg, d, retry) + rest.1)
  }

  /** One iteration of the loop: it returns or it falls through to the
      next one. */
  lemma RetryStep(cfg: ApiConfig, d: Draws, retry: nat)
    requires retry < MaxRetries
    ensures Succeeds(cfg, d, retry) ==>
              RetryFrom(cfg, d, retry) == (d.reply(retry).content, [Post(ModelOf(cfg, d, retry), TimeoutBase(cfg) + 20 * retry)])
    ensures !Succeeds(cfg, d, retry) ==>
              RetryFrom(cfg, d, retry) == (RetryFrom(cfg, d, retry + 1).0, FailedIteration(cfg, d, retry) + RetryFrom(cfg, d, retry + 1).1)
  {
  }

  /** What the call returns, `(resposta, prompt)`, with its events. */
  datatype CallResult = CallResult(response: Option<string>, sentPrompt: string, trace: seq<Event>)

  function Call(cfg: ApiConfig, d: Draws, prompt: string): CallResult {
    if !KeyPresent(cfg) then CallResult(None, prompt, [])
    else
      var run := RetryFrom(cfg, d, 0);
      CallResult(run.0, prompt, run.1)
  }

  /** The body of one iteration of the retry loop: choose a model, POST,
      and either return the accepted content (`done`) or wait as the status
      demands before the next iteration. */
  method Iteration(cfg: ApiConfig, d: Draws, retry: nat) returns (done: bool, content: Option<string>, events: seq<Event>)
    requires retry < MaxRetries
    ensures done == Succeeds(cfg, d, retry)
    ensures done ==> RetryFrom(cfg, d, retry) == (content, events)
    ensures !done ==> RetryFrom(cfg, d, retry) == (RetryFrom(cfg, d, retry + 1).0, events + RetryFrom(cfg, d, retry + 1).1)
  {
    RetryStep(cfg, d, retry);
    var base := cfg.timeout.GetOr(120);
    events := [];
    content := None;
    if cfg.models != [] {
      var model := cfg.models[Reduce(d.pick(retry), |cfg.models|)];
      events := [Post(model, base + retry * 20)];
      match d.reply(retry)
      case Http(status, c) =>
        if status == 200 {
          if c.Some? && TrimmedLength(c.value) > 50 {
            assert events == [Post(ModelOf(cfg, d, retry), TimeoutBase(cfg) + 20 * retry)];
            return true, c, events;
          }
        } else if status == 429 {
          events := events + [RateLimitWait(MinInt(60, 15 * Pow2(retry)))];
        }
      case Raised =>
    }
    if retry < MaxRetries - 1 {
      events := events + [Backoff(MinReal(30.0, Pow3(retry) as real + d.jitter(retry)))];
    }
    assert events == FailedIteration(cfg, d, retry);
    done := false;
  }

  /** `_chamar_api_com_retry_adaptativo`. */
  method CallWithRetry(cfg: ApiConfig, d: Draws, prompt: string) returns (response: Option<string>, sent: string, trace: seq<Event>)
    ensures CallResult(response, sent, trace) == Call(cfg, d, prompt)
  {
    if !((cfg.apiKey.Some? && cfg.apiKey.value != "") || (cfg.groqKey.Some? && cfg.groqKey.value != "")) {
      return None, prompt, [];
    }
    response, trace := RetryLoop(cfg, d);
    sent := prompt;
  }

  /** The `for tentativa in range(max_retries)` loop of
      `_chamar_api_com_retry_adaptativo`. */
  method RetryLoop(cfg: ApiConfig, d: Draws) returns (response: Option<string>, trace: seq<Event>)
    ensures (response, trace) == RetryFrom(cfg, d, 0)
  {
    trace := [];
    assert trace + RetryFrom(cfg, d, 0).1 == RetryFrom(cfg, d, 0).1;
    for retry := 0 to MaxRetries
      invariant RetryFrom(cfg, d, 0) == (RetryFrom(cfg, d, retry).0, trace + RetryFrom(cfg, d, retry).1)
    {
      var done, content, events := Iteration(cfg, d, retry);
      if done {
        return content, trace + events;
      }
      assert trace + (events + RetryFrom(cfg, d, retry + 1).1) == (trace + events) + RetryFrom(cfg, d, retry + 1).1;
      trace := trace + events;
    }
    assert RetryFrom(cfg, d, MaxRetries) == (None, []);
    assert trace + [] == trace;
    return None, trace;
  }

  /** The first successful iteration at or after `retry`, or `MaxRetries`
      when there is none. */
  function FirstSuccess(cfg: ApiConfig, d: Draws, retry: nat): (q: nat)
    ensures retry <= q || q == MaxRetries
    ensures q <= MaxRetries
    ensures q < MaxRetries ==> Succeeds(cfg, d, q)
    ensures forall p :: retry <= p < q ==> !Succeeds(cfg, d, p)
    decreases MaxRetries - retry
  {
    if retry >= MaxRetries then MaxRetries
    else if Succeeds(cfg, d, retry) then retry
    else FirstSuccess(cfg, d, retry + 1)
  }

  function CountPosts(t: seq<Event>): nat {
    if t == [] then 0 else (if t[0].Post? then 1 else 0) + CountPosts(t[1..])
  }

  function CountBackoffs(t: seq<Event>): nat {
    if t == [] then 0 else (if t[0].Backoff? then 1 else 0) + CountBackoffs(t[1..])
  }

  /** The timeouts of the POSTs, in order. */
  function Timeouts(t: seq<Event>): seq<int> {
    if t == [] then [] else (if t[0].Post? then [t[0].timeout] else []) + Timeouts(t[1..])
  }

  lemma CountsAppend(a: seq<Event>, b: seq<Event>)
    ensures CountPosts(a + b) == CountPosts(a) + CountPosts(b)
    ensures CountBackoffs(a + b) == CountBackoffs(a) + CountBackoffs(b)
    ensures Timeouts(a + b) == Timeouts(a) + Timeouts(b)
  {
    PostsAppend(a, b);
    BackoffsAppend(a, b);
    TimeoutsAppend(a, b);
  }

  lemma {:induction false} PostsAppend(a: seq<Event>, b: seq<Event>)
    ensures CountPosts(a + b) == CountPosts(a) + CountPosts(b)
  {
    if a == [] {
      assert a + b == b;
    } else {
      assert (a + b)[1..] == a[1..] + b;
      assert (a + b)[0] == a[0];
      PostsAppend(a[1..], b);
    }
  }

  lemma {:induction false} BackoffsAppend(a: seq<Event>, b: seq<Event>)
    ensures CountBackoffs(a + b) == CountBackoffs(a) + CountBackoffs(b)
  {
    if a == [] {
      assert a + b == b;
    } else {
      assert (a + b)[1..] == a[1..] + b;
      assert (a + b)[0] == a[0];
      BackoffsAppend(a[1..], b);
    }
  }

  lemma {:induction false} TimeoutsAppend(a: seq<Event>, b: seq<Event>)
    ensures Timeouts(a + b) == Timeouts(a) + Timeouts(b)
  {
    if a == [] {
      assert a + b == b;
    } else {
      assert (a + b)[1..] == a[1..] + b;
      assert (a + b)[0] == a[0];
      TimeoutsAppend(a[1..], b);
      var hd := if a[0].Post? then [a[0].timeout] else [];
      assert hd + (Timeouts(a[1..]) + Timeouts(b)) == (hd + Timeouts(a[1..])) + Timeouts(b);
    }
  }

  /** The POST part and the back-off part of a failed iteration. */
  lemma FailedIterationParts(cfg: ApiConfig, d: Draws, retry: nat)
    ensures var it := FailedIteration(cfg, d, retry);
            && CountPosts(it) == (if cfg.models == [] then 0 else 1)
            && Timeouts(it) == (if cfg.models == [] then [] else [TimeoutBase(cfg) + 20 * retry])
            && CountBackoffs(it) == (if retry < MaxRetries - 1 then 1 else 0)
  {
    var p := if cfg.models == [] then [] else
      [Post(ModelOf(cfg, d, retry), TimeoutBase(cfg) + 20 * retry)] +
      (if d.reply(retry).Http? && d.reply(retry).status == 429 then [RateLimitWait(RateLimitWaitOf(retry))] else []);
    var b := if retry < MaxRetries - 1 then [Backoff(BackoffOf(retry, d.jitter(retry)))] else [];
    assert FailedIteration(cfg, d, retry) == p + b;
    CountsAppend(p, b);
    if cfg.models != [] {
      var post := [Post(ModelOf(cfg, d, retry), TimeoutBase(cfg) + 20 * retry)];
      var w := if d.reply(retry).Http? && d.reply(retry).status == 429 then [RateLimitWait(RateLimitWaitOf(retry))] else [];
      CountsAppend(post, w);
    }
  }

  /** The loop from iteration `retry` on returns the content of the first
      accepted reply, or nothing when no iteration left succeeds. */
  lemma {:induction false} RetryResult(cfg: ApiConfig, d: Draws, retry: nat)
    ensures var q := FirstSuccess(cfg, d, retry);
            RetryFrom(cfg, d, retry).0 == if q < MaxRetries then d.reply(q).content else None
    decreases MaxRetries - retry
  {
    if retry < MaxRetries && !Succeeds(cfg, d, retry) {
      RetryResult(cfg, d, retry + 1);
    }
  }

  /** It POSTs once in each iteration it runs (none when the model list is
      empty). */
  lemma {:induction false} RetryPosts(cfg: ApiConfig, d: Draws, retry: nat)
    requires retry <= MaxRetries
    ensures var q := FirstSuccess(cfg, d, retry);
            var ran := (if q < MaxRetries then q + 1 else MaxRetries) - retry;
            CountPosts(RetryFrom(cfg, d, retry).1) == (if cfg.models == [] then 0 else ran)
    decreases MaxRetries - retry
  {
    if retry < MaxRetries {
      if !Succeeds(cfg, d, retry) {
        RetryPosts(cfg, d, retry + 1);
        FailedPosts(cfg, d, retry);
        assert FirstSuccess(cfg, d, retry + 1) == FirstSuccess(cfg, d, retry);
      } else {
        RetryStep(cfg, d, retry);
        assert RetryFrom(cfg, d, retry).1[1..] == [];
      }
    }
  }

  /** The timeouts `base + 20 * i` for `from <= i < from + n`. */
  function Ramp(base: int, from: nat, n: nat): (ts: seq<int>)
    ensures |ts| == n
    ensures forall i :: 0 <= i < n ==> ts[i] == base + 20 * (from + i)
    decreases n
  {
    if n == 0 then [] else [base + 20 * from] + Ramp(base, from + 1, n - 1)
  }

  /** The timeouts `base + 20 * i` of the iterations `i` run from
      `retry` on: up to the first that succeeds, or to the last; none when
      the model list is empty. */
  function ExpectedTimeouts(cfg: ApiConfig, d: Draws, retry: nat): seq<int>
    requires retry <= MaxRetries
  {
    var q := FirstSuccess(cfg, d, retry);
    var ran := (if q < MaxRetries then q + 1 else MaxRetries) - retry;
    if cfg.models == [] then [] else Ramp(TimeoutBase(cfg), retry, ran)
  }

  /** From iteration `retry` on, the POST of iteration `i` has timeout
      `base + 20 * i`, for every iteration run. */
  predicate TimeoutsRamp(cfg: ApiConfig, d: Draws, retry: nat)
    requires retry <= MaxRetries
  {
    Timeouts(RetryFrom(cfg, d, retry).1) == ExpectedTimeouts(cfg, d, retry)
  }

  /** The POST of iteration `i` has timeout `base + 20 * i`. */
  lemma {:induction false} RetryTimeouts(cfg: ApiConfig, d: Draws, retry: nat)
    requires retry <= MaxRetries
    ensures TimeoutsRamp(cfg, d, retry)
    decreases MaxRetries - retry
  {
    if retry < MaxRetries {
      if Succeeds(cfg, d, retry) {
        TimeoutsOfSuccess(cfg, d, retry);
      } else {
        RetryTimeouts(cfg, d, retry + 1);
        TimeoutsOfFailure(cfg, d, retry);
      }
    }
  }

  /** The timeouts of an iteration that returns. */
  lemma TimeoutsOfSuccess(cfg: ApiConfig, d: Draws, retry: nat)
    requires retry < MaxRetries && Succeeds(cfg, d, retry)
    ensures TimeoutsRamp(cfg, d, retry)
  {
    var base := TimeoutBase(cfg);
    var t := RetryFrom(cfg, d, retry).1;
    assert t == [Post(ModelOf(cfg, d, retry), base + 20 * retry)];
    assert t[1..] == [];
    assert Ramp(base, retry, 1) == [base + 20 * retry] + Ramp(base, retry + 1, 0);
  }

  /** The timeouts of an iteration that falls through, in front of those
      of the rest of the loop. */
  lemma TimeoutsOfFailure(cfg: ApiConfig, d: Draws, retry: nat)
    requires retry < MaxRetries && !Succeeds(cfg, d, retry)
    requires TimeoutsRamp(cfg, d, retry + 1)
    ensures TimeoutsRamp(cfg, d, retry)
  {
    FailedTimeouts(cfg, d, retry);
    RampStep(cfg, d, retry);
  }

  /** The POSTs of an iteration that falls through come before those of
      the rest of the loop. */
  lemma FailedTimeouts(cfg: ApiConfig, d: Draws, retry: nat)
    requires retry < MaxRetries && !Succeeds(cfg, d, retry)
    ensures Timeouts(RetryFrom(cfg, d, retry).1) ==
              (if cfg.models == [] then [] else [TimeoutBase(cfg) + 20 * retry]) + Timeouts(RetryFrom(cfg, d, retry + 1).1)
  {
    RetryStep(cfg, d, retry);
    CountsAppend(FailedIteration(cfg, d, retry), RetryFrom(cfg, d, retry + 1).1);
    FailedIterationParts(cfg, d, retry);
  }

  /** Past an iteration that fails, the expected timeouts are those of the
      next iteration on, behind this iteration's own. */
  lemma RampStep(cfg: ApiConfig, d: Draws, retry: nat)
    requires retry < MaxRetries && !Succeeds(cfg, d, retry)
    ensures ExpectedTimeouts(cfg, d, retry) ==
              (if cfg.models == [] then [] else [TimeoutBase(cfg) + 20 * retry]) + ExpectedTimeouts(cfg, d, retry + 1)
  {
    var q := FirstSuccess(cfg, d, retry + 1);
    assert q == FirstSuccess(cfg, d, retry);
    var ran := (if q < MaxRetries then q + 1 else MaxRetries) - retry;
    if cfg.models != [] {
      assert Ramp(TimeoutBase(cfg), retry, ran) == [TimeoutBase(cfg) + 20 * retry] + Ramp(TimeoutBase(cfg), retry + 1, ran - 1);
    }
  }

  /** It backs off after every iteration that fails, except the last one. */
  lemma {:induction false} RetryBackoffs(cfg: ApiConfig, d: Draws, retry: nat)
    requires retry <= MaxRetries
    ensures var q := FirstSuccess(cfg, d, retry);
            CountBackoffs(RetryFrom(cfg, d, retry).1) ==
              (if q < MaxRetries - 1 then q else MaxRetries - 1) - (if retry < MaxRetries - 1 then retry else MaxRetries - 1)
    decreases MaxRetries - retry
  {
    if retry < MaxRetries && !Succeeds(cfg, d, retry) {
      RetryBackoffs(cfg, d, retry + 1);
      FailedBackoffs(cfg, d, retry);
      assert FirstSuccess(cfg, d, retry + 1) == FirstSuccess(cfg, d, retry);
    } else if retry < MaxRetries {
      RetryStep(cfg, d, retry);
      assert RetryFrom(cfg, d, retry).1[1..] == [];
    }
  }

  /** An iteration that falls through POSTs once (unless the model list is
      empty) before the rest of the loop. */
  lemma FailedPosts(cfg: ApiConfig, d: Draws, retry: nat)
    requires retry < MaxRetries && !Succeeds(cfg, d, retry)
    ensures CountPosts(RetryFrom(cfg, d, retry).1) ==
              (if cfg.models == [] then 0 else 1) + CountPosts(RetryFrom(cfg, d, retry + 1).1)
  {
    RetryStep(cfg, d, retry);
    CountsAppend(FailedIteration(cfg, d, retry), RetryFrom(cfg, d, retry + 1).1);
    FailedIterationParts(cfg, d, retry);
  }

  /** An iteration that falls through backs off once, unless it is the last
      one, before the rest of the loop. */
  lemma FailedBackoffs(cfg: ApiConfig, d: Draws, retry: nat)
    requires retry < MaxRetries && !Succeeds(cfg, d, retry)
    ensures CountBackoffs(RetryFrom(cfg, d, retry).1) ==
              (if retry < MaxRetries - 1 then 1 else 0) + CountBackoffs(RetryFrom(cfg, d, retry + 1).1)
  {
    RetryStep(cfg, d, retry);
    CountsAppend(FailedIteration(cfg, d, retry), RetryFrom(cfg, d, retry + 1).1);
    FailedIterationParts(cfg, d, retry);
  }

  lemma FailedIterationWaits(cfg: ApiConfig, d: Draws, retry: nat)
    ensures forall e :: e in FailedIteration(cfg, d, retry) && e.RateLimitWait? ==> 15 <= e.wait <= 60
    ensures forall e :: e in FailedIteration(cfg, d, retry) && e.Backoff? ==> 1.0 <= e.delay <= 30.0
  {
  }

  /** Every wait is within its cap: 60 s after a 429, 30 s for a back-off. */
  lemma {:induction false} RetryWaitsBounded(cfg: ApiConfig, d: Draws, retry: nat)
    ensures forall e :: e in RetryFrom(cfg, d, retry).1 && e.RateLimitWait? ==> 15 <= e.wait <= 60
    ensures forall e :: e in RetryFrom(cfg, d, retry).1 && e.Backoff? ==> 1.0 <= e.delay <= 30.0
    decreases MaxRetries - retry
  {
    if retry < MaxRetries {
      var t := RetryFrom(cfg, d, retry).1;
      RetryStep(cfg, d, retry);
      if Succeeds(cfg, d, retry) {
        assert t == [Post(ModelOf(cfg, d, retry), TimeoutBase(cfg) + 20 * retry)];
      } else {
        var a, b := FailedIteration(cfg, d, retry), RetryFrom(cfg, d, retry + 1).1;
        RetryWaitsBounded(cfg, d, retry + 1);
        FailedIterationWaits(cfg, d, retry);
        assert t == a + b;
        forall e | e in t
          ensures (e.RateLimitWait? ==> 15 <= e.wait <= 60) && (e.Backoff? ==> 1.0 <= e.delay <= 30.0)
        {
          assert e in a || e in b;
        }
      }
    }
  }

  /** `_chamar_api_com_retry_adaptativo` returns the text of the first
      accepted reply among at most three iterations, or nothing; it always
      returns the prompt it was given, and without an API key it makes no
      request at all. */
  lemma CallSpec(cfg: ApiConfig, d: Draws, prompt: string)
    ensures Call(cfg, d, prompt).sentPrompt == prompt
    ensures !KeyPresent(cfg) ==> Call(cfg, d, prompt).response.None? && Call(cfg, d, prompt).trace == []
    ensures KeyPresent(cfg) ==>
              (Call(cfg, d, prompt).response.Some? <==> exists q :: 0 <= q < MaxRetries && Succeeds(cfg, d, q))
    ensures KeyPresent(cfg) && Call(cfg, d, prompt).response.Some? ==>
              exists q :: 0 <= q < MaxRetries && Succeeds(cfg, d, q) &&
                (forall p :: 0 <= p < q ==> !Succeeds(cfg, d, p)) &&
                Call(cfg, d, prompt).response == d.reply(q).content &&
                TrimmedLength(Call(cfg, d, prompt).response.value) > 50
    ensures CountPosts(Call(cfg, d, prompt).trace) <= MaxRetries
  {
    RetryResult(cfg, d, 0);
    RetryPosts(cfg, d, 0);
    var q := FirstSuccess(cfg, d, 0);
    if KeyPresent(cfg) && q == MaxRetries {
      assert forall p :: 0 <= p < MaxRetries ==> !Succeeds(cfg, d, p);
    }
  }

  /** A 429, then a 500, then an accepted 200: three POSTs with timeouts
      120, 140 and 160 s, the content is returned, and the waits are 15 s
      after the 429 and the two back-offs. */
  lemma RateLimitedThenSuccessScenario(body: string, cfg: ApiConfig, d: Draws)
    requires cfg.models != [] && KeyPresent(cfg) && cfg.timeout.None? && TrimmedLength(body) > 50
    requires d.reply(0) == Http(429, None) && d.reply(1) == Http(500, None) && d.reply(2) == Http(200, Some(body))
    ensures Call(cfg, d, "p").response == Some(body)
    ensures Call(cfg, d, "p").trace ==
              [Post(ModelOf(cfg, d, 0), 120), RateLimitWait(15), Backoff(BackoffOf(0, d.jitter(0))),
               Post(ModelOf(cfg, d, 1), 140), Backoff(BackoffOf(1, d.jitter(1))),
               Post(ModelOf(cfg, d, 2), 160)]
  {
    var p0, p1, p2 := Post(ModelOf(cfg, d, 0), 120), Post(ModelOf(cfg, d, 1), 140), Post(ModelOf(cfg, d, 2), 160);
    var b0, b1 := Backoff(BackoffOf(0, d.jitter(0))), Backoff(BackoffOf(1, d.jitter(1)));
    ScenarioTail(body, cfg, d);
    RetryStep(cfg, d, 0);
    assert RateLimitWaitOf(0) == 15;
    assert FailedIteration(cfg, d, 0) == [p0, RateLimitWait(15), b0];
    assert [p0, RateLimitWait(15), b0] + [p1, b1, p2] == [p0, RateLimitWait(15), b0, p1, b1, p2];
  }

  /** The last two iterations of the scenario above. */
  lemma ScenarioTail(body: string, cfg: ApiConfig, d: Draws)
    requires cfg.models != [] && cfg.timeout.None? && TrimmedLength(body) > 50
    requires d.reply(1) == Http(500, None) && d.reply(2) == Http(200, Some(body))
    ensures RetryFrom(cfg, d, 1) ==
              (Some(body), [Post(ModelOf(cfg, d, 1), 140), Backoff(BackoffOf(1, d.jitter(1))), Post(ModelOf(cfg, d, 2), 160)])
  {
    var p1, p2 := Post(ModelOf(cfg, d, 1), 140), Post(ModelOf(cfg, d, 2), 160);
    var b1 := Backoff(BackoffOf(1, d.jitter(1)));
    RetryStep(cfg, d, 2);
    RetryStep(cfg, d, 1);
    assert RetryFrom(cfg, d, 2) == (Some(body), [p2]);
    assert FailedIteration(cfg, d, 1) == [p1, b1];
    assert [p1, b1] + [p2] == [p1, b1, p2];
  }

  /** Three 500s: three POSTs and no content. */
  lemma ServerErrorsScenario(body: string, models: seq<string>, pick: nat -> nat, jitter: nat -> Jitter)
    requires models != []
    ensures var d := Draws(i => Http(500, Some(body)), pick, jitter);
            var r := Call(ApiConfig(None, Some("k"), None, models), d, "p");
            r.response.None? && r.sentPrompt == "p" && CountPosts(r.trace) == 3
  {
    var d := Draws(i => Http(500, Some(body)), pick, jitter);
    RetryResult(ApiConfig(None, Some("k"), None, models), d, 0);
    RetryPosts(ApiConfig(None, Some("k"), None, models), d, 0);
  }
}
