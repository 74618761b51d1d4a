/** The gateway's pool of backend nodes: health, circuit breaking and routing. */
module NodePool {

  const MAX_FAILURES := 3
  const OPEN_MS := 60_000
  const REOPEN_MS := 120_000

  datatype Entry = Entry(url: string, healthy: bool, lastCheck: int, latencyMs: int, failures: nat,
                         circuitOpen: bool, circuitOpenUntil: int)

  function Default(url: string): Entry {
    Entry(url, true, 0, 0, 0, false, 0)
  }

  // ---------------------------------------------------------------- what happens to one entry

  function OnSuccess(e: Entry, latencyMs: int): Entry {
    e.(failures := 0, latencyMs := latencyMs, healthy := true, circuitOpen := false)
  }

  function OnFailure(e: Entry, now: int): Entry {
    var n := e.failures + 1;
    if n < MAX_FAILURES then e.(failures := n)
    else e.(failures := n, circuitOpen := true, healthy := false,
            circuitOpenUntil := now + if n > MAX_FAILURES then REOPEN_MS else OPEN_MS)
  }

  function OnCheckPassed(e: Entry, now: int, latencyMs: int): Entry {
    e.(healthy := true, latencyMs := latencyMs, lastCheck := now, failures := 0, circuitOpen := false)
  }

  function OnCheckFailed(e: Entry, now: int): Entry {
    var n := e.failures + 1;
    if n < MAX_FAILURES then e.(lastCheck := now, failures := n)
    else e.(lastCheck := now, failures := n, healthy := false, circuitOpen := true, circuitOpenUntil := now + OPEN_MS)
  }

  /** The write that routing makes when a circuit has expired. */
  function Expire(e: Entry, now: int): Entry {
    if e.circuitOpen && now >= e.circuitOpenUntil then e.(circuitOpen := false) else e
  }

  predicate Candidate(e: Entry, now: int) {
    !(e.circuitOpen && now < e.circuitOpenUntil) && e.healthy
  }

  // ---------------------------------------------------------------- runs of the pool

  datatype Event =
    | Success(url: string, latencyMs: int)
    | Failure(url: string, now: int)
    | CheckPassed(url: string, now: int, latencyMs: int)
    | CheckFailed(url: string, now: int)
    | Route(now: int)
    | Discover(url: string, reachable: bool, passed: bool, now: int, latencyMs: int)

  predicate Knows(pool: seq<Entry>, url: string) {
    exists i :: 0 <= i < |pool| && pool[i].url == url
  }

  function Touch(e: Entry, ev: Event): Entry {
    match ev
    case Success(url, latency) => if e.url == url then OnSuccess(e, latency) else e
    case Failure(url, now) => if e.url == url then OnFailure(e, now) else e
    case CheckPassed(url, now, latency) => if e.url == url then OnCheckPassed(e, now, latency) else e
    case CheckFailed(url, now) => if e.url == url then OnCheckFailed(e, now) else e
    case Route(now) => Expire(e, now)
    case Discover(_, _, _, _, _) => e
  }

  /** A node found by discovery: kept unhealthy if it answers with an error, dropped if it does not answer. */
  function Found(ev: Event): seq<Entry>
    requires ev.Discover?
  {
    if !ev.reachable then []
    else if ev.passed then [Default(ev.url).(latencyMs := ev.latencyMs, lastCheck := ev.now)]
    else [Default(ev.url).(healthy := false)]
  }

  function Next(pool: seq<Entry>, ev: Event): seq<Entry> {
    seq(|pool|, i requires 0 <= i < |pool| => Touch(pool[i], ev))
    + if ev.Discover? && !Knows(pool, ev.url) then Found(ev) else []
  }

  function Seeds(urls: seq<string>): seq<Entry> {
    seq(|urls|, i requires 0 <= i < |urls| => Default(urls[i]))
  }

  function Run(urls: seq<string>, history: seq<Event>): seq<Entry> {
    if history == [] then Seeds(urls) else Next(Run(urls, history[..|history| - 1]), history[|history| - 1])
  }

  // ---------------------------------------------------------------- the breaker against its history

  /** Failures of a node recorded since its last recorded success. */
  function FailuresSince(history: seq<Event>, url: string): nat {
    if history == [] then 0
    else
      var before, ev := FailuresSince(history[..|history| - 1], url), history[|history| - 1];
      match ev
      case Success(u, _) => if u == url then 0 else before
      case CheckPassed(u, _, _) => if u == url then 0 else before
      case Failure(u, _) => if u == url then before + 1 else before
      case CheckFailed(u, _) => if u == url then before + 1 else before
      case _ => before
  }

  predicate Succeeds(ev: Event, url: string) {
    (ev.Success? || ev.CheckPassed?) && ev.url == url
  }

  predicate Fails(ev: Event, url: string) {
    (ev.Failure? || ev.CheckFailed?) && ev.url == url
  }

  /** Positions from `k` on where a failure of the node is recorded. */
  function FailuresFrom(history: seq<Event>, url: string, k: nat): set<nat> {
    set i: nat | k <= i < |history| && Fails(history[i], url)
  }

  /** The count is the number of failure events after the last success event. */
  lemma {:induction false} FailuresAfterLastSuccess(history: seq<Event>, url: string) returns (k: nat)
    ensures k <= |history| && (k == 0 || Succeeds(history[k - 1], url))
    ensures forall i | k <= i < |history| :: !Succeeds(history[i], url)
    ensures FailuresSince(history, url) == |FailuresFrom(history, url, k)|
  {
    if history == [] {
      k := 0;
      assert FailuresFrom(history, url, k) == {};
    } else {
      var n := |history| - 1;
      var init := history[..n];
      if Succeeds(history[n], url) {
        k := n + 1;
        assert FailuresFrom(history, url, k) == {};
      } else {
        k := FailuresAfterLastSuccess(init, url);
        OneMoreEvent(history, url, k);
      }
    }
  }

  lemma OneMoreEvent(history: seq<Event>, url: string, k: nat)
    requires k < |history|
    ensures var n := |history| - 1;
            |FailuresFrom(history, url, k)|
            == |FailuresFrom(history[..n], url, k)| + if Fails(history[n], url) then 1 else 0
  {
    var n := |history| - 1;
    var before := FailuresFrom(history[..n], url, k);
    assert FailuresFrom(history, url, k) == if Fails(history[n], url) then before + {n} else before;
  }

  /** An open circuit implies unhealthy; a seed is healthy iff it has fewer than three failures since its last success. */
  predicate Faithful(e: Entry, failures: nat) {
    && e.failures == failures
    && (e.healthy <==> failures < 3)
    && (e.circuitOpen ==> !e.healthy)
  }

  /** Until when the last tripping failure closed the node off; a failed request after the third doubles the time. */
  function Deadline(history: seq<Event>, url: string): int {
    if history == [] then 0
    else
      var init, ev := history[..|history| - 1], history[|history| - 1];
      var count := FailuresSince(history, url);
      if ev.Failure? && ev.url == url && count >= 3 then ev.now + if count > 3 then 120_000 else 60_000
      else if ev.CheckFailed? && ev.url == url && count >= 3 then ev.now + 60_000
      else Deadline(init, url)
  }

  lemma {:induction false} SeedMatchesHistory(urls: seq<string>, history: seq<Event>, i: nat)
    requires i < |urls|
    ensures i < |Run(urls, history)| && Run(urls, history)[i].url == urls[i]
    ensures Faithful(Run(urls, history)[i], FailuresSince(history, urls[i]))
    ensures Run(urls, history)[i].circuitOpenUntil == Deadline(history, urls[i])
    decreases |history|
  {
    if history != [] {
      SeedMatchesHistory(urls, history[..|history| - 1], i);
    }
  }

  /**
   * A seed is a candidate at any time iff fewer than three failures were recorded since its last success.
   * The passing of time alone readmits nobody: a tripped node returns only with a recorded success.
   */
  lemma SeedCandidateExactly(urls: seq<string>, history: seq<Event>, i: nat, now: int)
    requires i < |urls|
    ensures i < |Run(urls, history)|
    ensures Candidate(Run(urls, history)[i], now) <==> FailuresSince(history, urls[i]) < 3
  {
    SeedMatchesHistory(urls, history, i);
  }

  predicate Checks(ev: Event, url: string) {
    (ev.CheckPassed? || ev.CheckFailed?) && ev.url == url
  }

  lemma TouchTimes(e: Entry, ev: Event)
    ensures Touch(e, ev).url == e.url
    ensures Touch(e, ev).latencyMs == if Succeeds(ev, e.url) then ev.latencyMs else e.latencyMs
    ensures Touch(e, ev).lastCheck == if Checks(ev, e.url) then ev.now else e.lastCheck
  {
  }

  /** A seed's circuit is open iff it has tripped and no request was routed since at or after the deadline. */
  lemma {:induction false} SeedCircuitExactly(urls: seq<string>, history: seq<Event>, i: nat) returns (f: nat)
    requires i < |urls|
    ensures f <= |history| && (f == 0 || Fails(history[f - 1], urls[i]))
    ensures forall j | f <= j < |history| :: !Fails(history[j], urls[i])
    ensures i < |Run(urls, history)|
    ensures Run(urls, history)[i].circuitOpen <==>
            && FailuresSince(history, urls[i]) >= 3
            && forall j | f <= j < |history| && history[j].Route? :: history[j].now < Deadline(history, urls[i])
    decreases |history|
  {
    SeedMatchesHistory(urls, history, i);
    if history == [] {
      f := 0;
    } else {
      var n := |history| - 1;
      var init := history[..n];
      SeedMatchesHistory(urls, init, i);
      f := SeedCircuitExactly(urls, init, i);
      assert forall j | f <= j < n :: init[j] == history[j];
      if Fails(history[n], urls[i]) { f := n + 1; }
    }
  }

  // ---------------------------------------------------------------- nodes found by discovery

  /** One entry through a stretch of events. */
  function Through(e: Entry, events: seq<Event>): Entry {
    if events == [] then e else Touch(Through(e, events[..|events| - 1]), events[|events| - 1])
  }

  lemma {:induction false} RunThrough(urls: seq<string>, history: seq<Event>, later: seq<Event>, p: nat)
    requires p < |Run(urls, history)|
    ensures p < |Run(urls, history + later)| && Run(urls, history + later)[p] == Through(Run(urls, history)[p], later)
    decreases |later|
  {
    if later == [] {
      assert history + later == history;
    } else {
      var init := later[..|later| - 1];
      RunThrough(urls, history, init, p);
      assert (history + later)[..|history + later| - 1] == history + init;
    }
  }

  lemma {:induction false} ThroughLatency(e: Entry, events: seq<Event>) returns (k: nat)
    ensures k <= |events| && (k == 0 || Succeeds(events[k - 1], e.url))
    ensures forall j | k <= j < |events| :: !Succeeds(events[j], e.url)
    ensures Through(e, events).url == e.url
    ensures Through(e, events).latencyMs == if k == 0 then e.latencyMs else events[k - 1].latencyMs
  {
    k := 0;
    if events != [] {
      var n := |events| - 1;
      k := ThroughLatency(e, events[..n]);
      TouchTimes(Through(e, events[..n]), events[n]);
      if Succeeds(events[n], e.url) { k := n + 1; }
    }
  }

  lemma {:induction false} ThroughCheck(e: Entry, events: seq<Event>) returns (c: nat)
    ensures c <= |events| && (c == 0 || Checks(events[c - 1], e.url))
    ensures forall j | c <= j < |events| :: !Checks(events[j], e.url)
    ensures Through(e, events).url == e.url
    ensures Through(e, events).lastCheck == if c == 0 then e.lastCheck else events[c - 1].now
  {
    c := 0;
    if events != [] {
      var n := |events| - 1;
      c := ThroughCheck(e, events[..n]);
      TouchTimes(Through(e, events[..n]), events[n]);
      if Checks(events[n], e.url) { c := n + 1; }
    }
  }

  /** A seed's latency is that of its last success, and its check time that of its last health check. */
  lemma {:induction false} SeedTimes(urls: seq<string>, history: seq<Event>, i: nat) returns (k: nat, c: nat)
    requires i < |urls|
    ensures k <= |history| && (k == 0 || Succeeds(history[k - 1], urls[i]))
    ensures forall j | k <= j < |history| :: !Succeeds(history[j], urls[i])
    ensures c <= |history| && (c == 0 || Checks(history[c - 1], urls[i]))
    ensures forall j | c <= j < |history| :: !Checks(history[j], urls[i])
    ensures i < |Run(urls, history)|
    ensures Run(urls, history)[i].latencyMs == if k == 0 then 0 else history[k - 1].latencyMs
    ensures Run(urls, history)[i].lastCheck == if c == 0 then 0 else history[c - 1].now
  {
    assert [] + history == history;
    RunThrough(urls, [], history, i);
    k := ThroughLatency(Default(urls[i]), history);
    c := ThroughCheck(Default(urls[i]), history);
  }

  predicate SucceedsIn(events: seq<Event>, url: string) {
    exists k :: 0 <= k < |events| && Succeeds(events[k], url)
  }

  lemma {:induction false} SucceedsInSnoc(events: seq<Event>, url: string)
    requires events != []
    ensures var n := |events| - 1;
            SucceedsIn(events, url) <==> SucceedsIn(events[..n], url) || Succeeds(events[n], url)
  {
    var n := |events| - 1;
    if SucceedsIn(events[..n], url) {
      var k :| 0 <= k < n && Succeeds(events[..n][k], url);
      assert Succeeds(events[k], url);
    }
    if k :| 0 <= k < n && Succeeds(events[k], url) {
      assert Succeeds(events[..n][k], url);
    }
  }

  /** Healthy iff it has been known to work and has fewer than three failures since. */
  predicate Tracked(e: Entry, failures: nat, worked: bool) {
    e.failures == failures && (e.healthy <==> worked && failures < 3) && (e.circuitOpen ==> !e.healthy)
  }

  lemma {:induction false} TrackedStep(e: Entry, events: seq<Event>, worked: bool)
    requires events != [] && Tracked(e, FailuresSince(events[..|events| - 1], e.url), worked)
    ensures var ev := events[|events| - 1];
            Touch(e, ev).url == e.url && Tracked(Touch(e, ev), FailuresSince(events, e.url), worked || Succeeds(ev, e.url))
  {
  }

  /** From a clean entry on: it is healthy iff it was, or has succeeded, and has not failed three times since. */
  lemma {:induction false} ThroughExactly(e: Entry, events: seq<Event>)
    requires e.failures == 0 && !e.circuitOpen
    ensures Through(e, events).url == e.url
    ensures Tracked(Through(e, events), FailuresSince(events, e.url), e.healthy || SucceedsIn(events, e.url))
  {
    if events != [] {
      var init := events[..|events| - 1];
      ThroughExactly(e, init);
      TrackedStep(Through(e, init), events, e.healthy || SucceedsIn(init, e.url));
      SucceedsInSnoc(events, e.url);
    }
  }

  /**
   * A node found by discovery that answers is appended to the pool. From then on it may be routed to iff it
   * passed its first check or has succeeded since, and has not failed three times since its last success.
   */
  lemma {:induction false} DiscoveredExactly(urls: seq<string>, before: seq<Event>, ev: Event, later: seq<Event>, now: int)
    requires ev.Discover? && ev.reachable && !Knows(Run(urls, before), ev.url)
    ensures var p, pool := |Run(urls, before)|, Run(urls, before + [ev] + later);
            && |Run(urls, before + [ev])| == p + 1
            && Run(urls, before + [ev])[p] ==
               Entry(ev.url, ev.passed, if ev.passed then ev.now else 0, if ev.passed then ev.latencyMs else 0, 0, false, 0)
            && p < |pool| && pool[p].url == ev.url
            && (Candidate(pool[p], now) <==>
                FailuresSince(later, ev.url) < 3
                && (ev.passed || SucceedsIn(later, ev.url)))
  {
    var p := |Run(urls, before)|;
    assert (before + [ev])[..|before|] == before;
    RunThrough(urls, before + [ev], later, p);
    ThroughExactly(Found(ev)[0], later);
  }

  /** The pool knows exactly the seeds and the nodes that were discovered and answered; none is ever forgotten. */
  lemma {:induction false} KnownExactly(urls: seq<string>, history: seq<Event>, url: string)
    ensures Knows(Run(urls, history), url) <==>
            url in urls || exists k :: 0 <= k < |history| && history[k].Discover? && history[k].reachable && history[k].url == url
    decreases |history|
  {
    if history == [] {
      assert forall i | 0 <= i < |urls| :: Run(urls, history)[i].url == urls[i];
    } else {
      var n := |history| - 1;
      var init := history[..n];
      KnownExactly(urls, init, url);
      KnowsStep(Run(urls, init), history[n], url);
      assert forall k | 0 <= k < n :: init[k] == history[k];
    }
  }

  lemma {:induction false} KnowsStep(pool: seq<Entry>, ev: Event, url: string)
    ensures Knows(Next(pool, ev), url) <==> Knows(pool, url) || (ev.Discover? && ev.reachable && ev.url == url)
  {
    var after := Next(pool, ev);
    assert forall i | 0 <= i < |pool| :: after[i].url == pool[i].url;
    if ev.Discover? && ev.reachable && !Knows(pool, ev.url) {
      assert after[|pool|].url == ev.url;
    }
    if Knows(pool, url) {
      var i :| 0 <= i < |pool| && pool[i].url == url;
      assert after[i].url == url;
    }
    if Knows(after, url) && !Knows(pool, url) {
      var i :| 0 <= i < |after| && after[i].url == url;
      assert i >= |pool|;
    }
  }

  predicate DistinctUrls(pool: seq<Entry>) {
    forall i, j | 0 <= i < j < |pool| :: pool[i].url != pool[j].url
  }

  /** No URL is ever in the pool twice. */
  lemma {:induction false} UrlsStayDistinct(urls: seq<string>, history: seq<Event>)
    requires forall i, j | 0 <= i < j < |urls| :: urls[i] != urls[j]
    ensures DistinctUrls(Run(urls, history))
    decreases |history|
  {
    if history != [] {
      UrlsStayDistinct(urls, history[..|history| - 1]);
      DistinctStep(Run(urls, history[..|history| - 1]), history[|history| - 1]);
    }
  }

  lemma DistinctStep(pool: seq<Entry>, ev: Event)
    requires DistinctUrls(pool)
    ensures DistinctUrls(Next(pool, ev))
  {
    assert forall i | 0 <= i < |pool| :: Next(pool, ev)[i].url == pool[i].url;
  }

  /** No entry, seed or discovered, is ever open and healthy, or healthy with three failures. */
  lemma {:induction false} OpenIsUnhealthy(urls: seq<string>, history: seq<Event>)
    ensures forall e | e in Run(urls, history) ::
              (e.circuitOpen ==> !e.healthy) && (e.healthy ==> e.failures < 3)
    decreases |history|
  {
    if history != [] {
      OpenIsUnhealthy(urls, history[..|history| - 1]);
      var before := Run(urls, history[..|history| - 1]);
      forall i | 0 <= i < |Run(urls, history)|
        ensures var e := Run(urls, history)[i];
                (e.circuitOpen ==> !e.healthy) && (e.healthy ==> e.failures < 3)
      {
        if i < |before| { assert before[i] in before; }
      }
    }
  }

  // ---------------------------------------------------------------- routing reads nothing of the circuit

  predicate SameButCircuit(a: Entry, b: Entry) {
    a.(circuitOpen := false, circuitOpenUntil := 0) == b.(circuitOpen := false, circuitOpenUntil := 0)
  }

  predicate SameRouting(a: seq<Entry>, b: seq<Entry>) {
    |a| == |b| && forall i | 0 <= i < |a| :: SameButCircuit(a[i], b[i])
  }

  function WithoutRouting(history: seq<Event>): seq<Event> {
    if history == [] then []
    else
      var ev := history[|history| - 1];
      WithoutRouting(history[..|history| - 1]) + if ev.Route? then [] else [ev]
  }

  lemma SameRoutingStep(a: seq<Entry>, b: seq<Entry>, ev: Event)
    requires SameRouting(a, b)
    ensures SameRouting(Next(a, ev), Next(b, ev))
    ensures ev.Route? ==> SameRouting(Next(a, ev), b)
  {
  }

  /** Leaving out every routing request, and its writes, changes no field that routing looks at later. */
  lemma {:induction false} RoutingLeavesNoTrace(urls: seq<string>, history: seq<Event>)
    ensures SameRouting(Run(urls, history), Run(urls, WithoutRouting(history)))
    decreases |history|
  {
    if history != [] {
      var init, ev := history[..|history| - 1], history[|history| - 1];
      RoutingLeavesNoTrace(urls, init);
      SameRoutingStep(Run(urls, init), Run(urls, WithoutRouting(init)), ev);
      if ev.Route? {
        assert WithoutRouting(init) + [] == WithoutRouting(init);
      } else {
        assert (WithoutRouting(init) + [ev])[..|WithoutRouting(init)|] == WithoutRouting(init);
      }
    }
  }

  function Candidates(pool: seq<Entry>, now: int): seq<Entry> {
    if pool == [] then []
    else
      var e := pool[|pool| - 1];
      Candidates(pool[..|pool| - 1], now) + if Candidate(e, now) then [e] else []
  }

  /** The listed entries are those that are healthy and not closed off at this time, in pool order. */
  lemma {:induction false} ListedPositions(pool: seq<Entry>, now: int) returns (ks: seq<nat>)
    ensures |ks| == |Candidates(pool, now)|
    ensures forall i | 0 <= i < |ks| :: ks[i] < |pool| && Candidates(pool, now)[i] == pool[ks[i]]
    ensures forall i, j | 0 <= i < j < |ks| :: ks[i] < ks[j]
    ensures forall p | 0 <= p < |pool| ::
              p in ks <==> pool[p].healthy && !(pool[p].circuitOpen && now < pool[p].circuitOpenUntil)
  {
    if pool == [] {
      ks := [];
    } else {
      var n := |pool| - 1;
      ks := ListedPositions(pool[..n], now);
      var e := pool[n];
      assert n !in ks;
      assert forall p | 0 <= p < n :: pool[..n][p] == pool[p];
      if e.healthy && !(e.circuitOpen && now < e.circuitOpenUntil) {
        assert forall i | 0 <= i < |ks| :: ks[i] < n;
        ks := ks + [n];
      }
    }
  }

  function Urls(es: seq<Entry>): (urls: seq<string>)
    ensures |urls| == |es| && forall i | 0 <= i < |es| :: urls[i] == es[i].url
  {
    seq(|es|, i requires 0 <= i < |es| => es[i].url)
  }

  /** A URL is listed iff an entry with it is healthy and not closed off. */
  lemma {:induction false} UrlListedExactly(pool: seq<Entry>, now: int, url: string)
    ensures url in Urls(Candidates(pool, now)) <==>
            exists p :: 0 <= p < |pool| && pool[p].url == url
                        && pool[p].healthy && !(pool[p].circuitOpen && now < pool[p].circuitOpenUntil)
  {
    var ks := ListedPositions(pool, now);
    var es := Candidates(pool, now);
    if url in Urls(es) {
      var i :| 0 <= i < |es| && Urls(es)[i] == url;
      assert ks[i] in ks && pool[ks[i]].url == url;
    }
    if p :| 0 <= p < |pool| && pool[p].url == url && pool[p].healthy && !(pool[p].circuitOpen && now < pool[p].circuitOpenUntil) {
      assert p in ks;
      var i :| 0 <= i < |ks| && ks[i] == p;
      assert Urls(es)[i] == url;
    }
  }

  /** Every run: a seed is listed iff fewer than three failures were recorded since its last success. */
  lemma {:induction false} SeedListedExactly(urls: seq<string>, history: seq<Event>, i: nat, now: int)
    requires i < |urls| && forall j, k | 0 <= j < k < |urls| :: urls[j] != urls[k]
    ensures urls[i] in Urls(Candidates(Run(urls, history), now)) <==> FailuresSince(history, urls[i]) < 3
  {
    var pool := Run(urls, history);
    UrlsStayDistinct(urls, history);
    UrlListedExactly(pool, now, urls[i]);
    SeedMatchesHistory(urls, history, i);
    assert forall p | 0 <= p < |pool| && pool[p].url == urls[i] :: p == i;
  }

  /** The first entry of least latency: the head of a stable sort. */
  function Fastest(es: seq<Entry>): (best: Entry)
    requires es != []
    ensures best in es && forall e | e in es :: best.latencyMs <= e.latencyMs
  {
    if |es| == 1 then es[0]
    else
      var best, last := Fastest(es[..|es| - 1]), es[|es| - 1];
      if last.latencyMs < best.latencyMs then last else best
  }

  /** No entry is faster than the chosen one, and every earlier entry is slower. */
  lemma {:induction false} FastestIsFirst(es: seq<Entry>) returns (i: nat)
    requires es != []
    ensures i < |es| && es[i] == Fastest(es)
    ensures forall j | 0 <= j < |es| :: es[i].latencyMs <= es[j].latencyMs
    ensures forall j | 0 <= j < i :: es[i].latencyMs < es[j].latencyMs
  {
    var n := |es| - 1;
    if n == 0 {
      i := 0;
    } else {
      i := FastestIsFirst(es[..n]);
      assert forall j | 0 <= j < n :: es[..n][j] == es[j];
      if es[n].latencyMs < es[i].latencyMs { i := n; }
    }
  }

  /** The choice among candidates; before any health check it is random, here `pick`. */
  function Choose(es: seq<Entry>, primary: string, pick: nat): string {
    if es == [] then primary
    else
      var best := Fastest(es);
      if |es| > 1 && best.latencyMs == 0 && best.lastCheck == 0 then es[pick % |es|].url else best.url
  }

  /** Without candidates the primary; else the first of least latency, or on a cold start the random pick. */
  lemma {:induction false} ChooseExactly(es: seq<Entry>, primary: string, pick: nat) returns (i: nat)
    requires es != []
    ensures Choose([], primary, pick) == primary
    ensures i < |es| && forall j | 0 <= j < |es| :: es[i].latencyMs <= es[j].latencyMs
    ensures forall j | 0 <= j < i :: es[i].latencyMs < es[j].latencyMs
    ensures var cold := |es| > 1 && es[i].latencyMs == 0 && es[i].lastCheck == 0;
            Choose(es, primary, pick) == if cold then es[pick % |es|].url else es[i].url
  {
    i := FastestIsFirst(es);
  }

  /** Routing answers with a listed URL if there is one, and with the primary otherwise. */
  lemma {:induction false} RoutesToListed(pool: seq<Entry>, now: int, primary: string, pick: nat)
    ensures var answer, listed := Choose(Candidates(pool, now), primary, pick), Urls(Candidates(pool, now));
            if listed == [] then answer == primary else answer in listed
  {
    var es := Candidates(pool, now);
    if es != [] {
      var i := ChooseExactly(es, primary, pick);
      assert Urls(es)[i] == es[i].url && Urls(es)[pick % |es|] == es[pick % |es|].url;
    }
  }

  /** A seed that has failed three times since its last success is routed to only as the primary, when nobody is listed. */
  lemma {:induction false} TrippedSeedNotRouted(urls: seq<string>, history: seq<Event>, i: nat, now: int, pick: nat)
    requires i < |urls| && forall j, k | 0 <= j < k < |urls| :: urls[j] != urls[k]
    requires FailuresSince(history, urls[i]) >= 3
    ensures Choose(Candidates(Run(urls, history), now), urls[0], pick) == urls[i] ==>
              i == 0 && Urls(Candidates(Run(urls, history), now)) == []
  {
    RoutesToListed(Run(urls, history), now, urls[0], pick);
    SeedListedExactly(urls, history, i, now);
  }

  predicate Sound(pool: seq<Entry>) {
    forall e | e in pool :: e.circuitOpen ==> !e.healthy
  }

  lemma {:induction false} CandidatesIgnoreCircuit(a: seq<Entry>, b: seq<Entry>, s: int, t: int)
    requires SameRouting(a, b) && Sound(a) && Sound(b)
    ensures SameRouting(Candidates(a, s), Candidates(b, t))
  {
    if a != [] {
      CandidatesIgnoreCircuit(a[..|a| - 1], b[..|b| - 1], s, t);
      assert a[|a| - 1] in a && b[|b| - 1] in b;
    }
  }

  lemma {:induction false} FastestIgnoresCircuit(a: seq<Entry>, b: seq<Entry>)
    requires SameRouting(a, b) && a != []
    ensures SameButCircuit(Fastest(a), Fastest(b))
  {
    if |a| > 1 { FastestIgnoresCircuit(a[..|a| - 1], b[..|b| - 1]); }
  }

  lemma ChooseIgnoresCircuit(a: seq<Entry>, b: seq<Entry>, primary: string, pick: nat)
    requires SameRouting(a, b)
    ensures Choose(a, primary, pick) == Choose(b, primary, pick)
  {
    if a != [] {
      FastestIgnoresCircuit(a, b);
      assert SameButCircuit(a[pick % |a|], b[pick % |b|]);
    }
  }

  /**
   * Every routing answer is the one of a pool that never saw an earlier routing request: the expiry write
   * inside routing, and the clock, have no influence on it.
   */
  lemma RoutingIgnoresCircuit(urls: seq<string>, history: seq<Event>, now: int, later: int, primary: string, pick: nat)
    ensures Choose(Candidates(Run(urls, history), now), primary, pick)
         == Choose(Candidates(Run(urls, WithoutRouting(history)), later), primary, pick)
  {
    var a, b := Run(urls, history), Run(urls, WithoutRouting(history));
    RoutingLeavesNoTrace(urls, history);
    OpenIsUnhealthy(urls, history);
    OpenIsUnhealthy(urls, WithoutRouting(history));
    CandidatesIgnoreCircuit(a, b, now, later);
    ChooseIgnoresCircuit(Candidates(a, now), Candidates(b, later), primary, pick);
  }

  class Pool {
    const primary: string
    var nodes: seq<Entry>

    constructor (urls: seq<string>)
      requires urls != []
      ensures primary == urls[0] && nodes == Seeds(urls)
    {
      primary := urls[0];
      nodes := Seeds(urls);
    }

    /** Every event but routing, as an update of the one entry it names. */
    method Record(ev: Event)
      requires !ev.Route? && !ev.Discover?
      modifies this
      ensures nodes == Next(old(nodes), ev)
    {
      var i := 0;
      while i < |nodes|
        invariant 0 <= i <= |nodes| == |old(nodes)|
        invariant forall k | 0 <= k < i :: nodes[k] == Touch(old(nodes)[k], ev)
        invariant forall k | i <= k < |nodes| :: nodes[k] == old(nodes)[k]
      {
        if nodes[i].url == ev.url {
          var e := nodes[i];
          match ev {
            case Success(_, latency) => e := OnSuccess(e, latency);
            case Failure(_, now) => e := OnFailure(e, now);
            case CheckPassed(_, now, latency) => e := OnCheckPassed(e, now, latency);
            case CheckFailed(_, now) => e := OnCheckFailed(e, now);
          }
          nodes := nodes[i := e];
        }
        i := i + 1;
      }
    }

    /** A profile found by discovery: added unhealthy, then verified at once. */
    method AddDiscovered(url: string, reachable: bool, passed: bool, now: int, latencyMs: int)
      modifies this
      ensures nodes == Next(old(nodes), Discover(url, reachable, passed, now, latencyMs))
    {
      var i := 0;
      while i < |nodes|
        invariant 0 <= i <= |nodes|
        invariant forall k | 0 <= k < i :: nodes[k].url != url
      {
        if nodes[i].url == url { return; }
        i := i + 1;
      }
      var known := nodes;
      nodes := known + [Default(url).(healthy := false)];
      if !reachable {
        nodes := known;
      } else if passed {
        nodes := known + [Default(url).(healthy := true, latencyMs := latencyMs, lastCheck := now)];
      }
    }

    /** The URLs that may be used now, in pool order. */
    method GetHealthyNodes(now: int) returns (urls: seq<string>)
      ensures urls == Urls(Candidates(nodes, now))
      ensures forall url :: url in urls <==>
                exists p :: 0 <= p < |nodes| && nodes[p].url == url
                            && nodes[p].healthy && !(nodes[p].circuitOpen && now < nodes[p].circuitOpenUntil)
    {
      urls := [];
      var i := 0;
      while i < |nodes|
        invariant 0 <= i <= |nodes|
        invariant urls == Urls(Candidates(nodes[..i], now))
      {
        assert nodes[..i + 1][..i] == nodes[..i];
        if !(nodes[i].circuitOpen && now < nodes[i].circuitOpenUntil) && nodes[i].healthy {
          urls := urls + [nodes[i].url];
        }
        i := i + 1;
      }
      assert nodes[..i] == nodes;
      forall url
        ensures url in Urls(Candidates(nodes, now)) <==>
                exists p :: 0 <= p < |nodes| && nodes[p].url == url
                            && nodes[p].healthy && !(nodes[p].circuitOpen && now < nodes[p].circuitOpenUntil)
      {
        UrlListedExactly(nodes, now, url);
      }
    }

    /** The routing loop: close expired circuits and collect the entries that may be used. */
    method Collect(now: int) returns (candidates: seq<Entry>)
      modifies this
      ensures nodes == Next(old(nodes), Route(now))
      ensures SameRouting(candidates, Candidates(old(nodes), now))
    {
      candidates := [];
      var i := 0;
      while i < |nodes|
        invariant 0 <= i <= |nodes| == |old(nodes)|
        invariant forall k | 0 <= k < i :: nodes[k] == Expire(old(nodes)[k], now)
        invariant forall k | i <= k < |nodes| :: nodes[k] == old(nodes)[k]
        invariant SameRouting(candidates, Candidates(old(nodes)[..i], now))
      {
        assert old(nodes)[..i + 1][..i] == old(nodes)[..i];
        var entry := nodes[i];
        if !(entry.circuitOpen && now < entry.circuitOpenUntil) {
          if entry.circuitOpen && now >= entry.circuitOpenUntil {
            entry := entry.(circuitOpen := false);
            nodes := nodes[i := entry];
          }
          if entry.healthy {
            candidates := candidates + [entry];
          }
        }
        i := i + 1;
      }
      assert old(nodes)[..i] == old(nodes);
    }

    /** The head of the list sorted by latency, or a random one on a cold start. */
    method Select(candidates: seq<Entry>, pick: nat) returns (url: string)
      ensures url == Choose(candidates, primary, pick)
    {
      if candidates == [] { return primary; }
      var best := candidates[0];
      var j := 1;
      while j < |candidates|
        invariant 1 <= j <= |candidates|
        invariant best == Fastest(candidates[..j])
      {
        assert candidates[..j + 1][..j] == candidates[..j];
        if candidates[j].latencyMs < best.latencyMs { best := candidates[j]; }
        j := j + 1;
      }
      assert candidates[..j] == candidates;
      if |candidates| > 1 && best.latencyMs == 0 && best.lastCheck == 0 {
        return candidates[pick % |candidates|].url;
      }
      return best.url;
    }

    method GetBestNodeUrl(preferPrimary: bool, now: int, pick: nat) returns (url: string)
      modifies this
      ensures preferPrimary ==> url == primary && nodes == old(nodes)
      ensures !preferPrimary ==>
                nodes == Next(old(nodes), Route(now)) && url == Choose(Candidates(old(nodes), now), primary, pick)
    {
      if preferPrimary { return primary; }
      var candidates := Collect(now);
      ChooseIgnoresCircuit(candidates, Candidates(old(nodes), now), primary, pick);
      url := Select(candidates, pick);
    }
  }
}
