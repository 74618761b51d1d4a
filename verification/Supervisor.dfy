/** The supervisor's sliding crash window: when a child that exits is respawned. Times are in milliseconds. */
module Supervisor {

  const CRASH_WINDOW_MS := 300_000
  const MAX_CRASHES := 5

  /** The times within the window that ends at `now`. */
  function Recent(times: seq<int>, now: int): seq<int> {
    if times == [] then []
    else
      var t := times[|times| - 1];
      Recent(times[..|times| - 1], now) + if now - t < CRASH_WINDOW_MS then [t] else []
  }

  /** The crash list after a crash: append, then keep the window. */
  function AfterCrash(pruned: seq<int>, now: int): seq<int> {
    Recent(pruned + [now], now)
  }

  function Pruned(history: seq<int>): seq<int> {
    if history == [] then [] else AfterCrash(Pruned(history[..|history| - 1]), history[|history| - 1])
  }

  /** Whether the last crash of the history schedules a respawn. */
  predicate Respawns(history: seq<int>) {
    |Pruned(history)| < MAX_CRASHES
  }

  predicate Ordered(history: seq<int>) {
    forall i, j | 0 <= i < j < |history| :: history[i] <= history[j]
  }

  lemma {:induction false} RecentConcat(a: seq<int>, b: seq<int>, now: int)
    ensures Recent(a + b, now) == Recent(a, now) + Recent(b, now)
    decreases |b|
  {
    if b == [] {
      assert a + b == a;
    } else {
      assert (a + b)[..|a + b| - 1] == a + b[..|b| - 1];
      RecentConcat(a, b[..|b| - 1], now);
    }
  }

  lemma {:induction false} RecentBounds(times: seq<int>, now: int)
    ensures |Recent(times, now)| <= |times|
    ensures (forall t | t in times :: now - t < CRASH_WINDOW_MS) ==> Recent(times, now) == times
    ensures (forall t | t in times :: now - t >= CRASH_WINDOW_MS) ==> Recent(times, now) == []
  {
    if times != [] {
      var init, t := times[..|times| - 1], times[|times| - 1];
      RecentBounds(init, now);
      assert times == init + [t];
      assert t in times && forall x | x in init :: x in times;
    }
  }

  /** Pruning at an earlier crash loses nothing that a later window needs. */
  lemma {:induction false} RecentTwice(times: seq<int>, earlier: int, now: int)
    requires earlier <= now
    ensures Recent(Recent(times, earlier), now) == Recent(times, now)
  {
    if times != [] {
      var init, t := times[..|times| - 1], times[|times| - 1];
      RecentTwice(init, earlier, now);
      assert [t][..0] == [] && Recent(init, earlier) + [] == Recent(init, earlier);
      if earlier - t < CRASH_WINDOW_MS { RecentConcat(Recent(init, earlier), [t], now); }
    }
  }

  /** The pruned list is the part of the whole crash history within the window of the latest crash. */
  lemma {:induction false} PrunedIsWindow(history: seq<int>)
    requires Ordered(history) && history != []
    ensures Pruned(history) == Recent(history, history[|history| - 1])
  {
    var n := |history| - 1;
    var init, now := history[..n], history[n];
    assert init + [now] == history;
    if init != [] {
      PrunedIsWindow(init);
      RecentTwice(init, init[n - 1], now);
      RecentConcat(Recent(init, init[n - 1]), [now], now);
      RecentConcat(init, [now], now);
    }
  }

  /** A crash schedules a respawn iff the crash four places before it, if there is one, is a full window old. */
  lemma RespawnsExactly(history: seq<int>)
    requires Ordered(history) && history != []
    ensures var n := |history|;
            Respawns(history) <==> n < 5 || history[n - 1] - history[n - 5] >= 300_000
  {
    PrunedIsWindow(history);
    var n, now := |history|, history[|history| - 1];
    if n < MAX_CRASHES {
      RecentBounds(history, now);
    } else {
      var k := n - MAX_CRASHES;
      if now - history[k] >= CRASH_WINDOW_MS {
        RecentAfter(history, k + 1, now);
      } else {
        RecentFrom(history, k, now);
      }
    }
  }

  lemma RecentAfter(history: seq<int>, k: nat, now: int)
    requires Ordered(history) && 0 < k <= |history| && now - history[k - 1] >= CRASH_WINDOW_MS
    ensures |Recent(history, now)| <= |history| - k
  {
    assert history[..k] + history[k..] == history;
    RecentConcat(history[..k], history[k..], now);
    forall t | t in history[..k]
      ensures now - t >= CRASH_WINDOW_MS
    {
      var i :| 0 <= i < k && history[i] == t;
      if i < k - 1 { assert history[i] <= history[k - 1]; }
    }
    RecentBounds(history[..k], now);
    RecentBounds(history[k..], now);
  }

  lemma RecentFrom(history: seq<int>, k: nat, now: int)
    requires Ordered(history) && k < |history| && now - history[k] < CRASH_WINDOW_MS
    ensures |Recent(history, now)| >= |history| - k
  {
  }

  /** The i-th crash of the history schedules a respawn. */
  predicate RespawnedAt(history: seq<int>, i: nat)
    requires i < |history|
  {
    Respawns(history[..i + 1])
  }

  /** A list of different crashes, oldest first, that each schedule a respawn between two moments. */
  ghost predicate RespawnsBetween(history: seq<int>, crashes: seq<nat>, from: int, to: int) {
    && (forall i, j | 0 <= i < j < |crashes| :: crashes[i] < crashes[j])
    && (forall i | 0 <= i < |crashes| ::
          crashes[i] < |history| && RespawnedAt(history, crashes[i]) && from <= history[crashes[i]] <= to)
  }

  /** Any stretch of time shorter than the window holds at most four crashes that schedule a respawn. */
  lemma RespawnRateLimited(history: seq<int>, crashes: seq<nat>, from: int, to: int)
    requires Ordered(history) && RespawnsBetween(history, crashes, from, to) && to - from < 300_000
    ensures |crashes| <= 4
  {
    if |crashes| >= MAX_CRASHES {
      var lo, hi := crashes[0], crashes[4];
      assert crashes[0] < crashes[1] < crashes[2] < crashes[3] < crashes[4];
      assert history[lo] <= history[hi - 4];
      assert RespawnedAt(history, hi);
      RespawnsExactly(history[..hi + 1]);
    }
  }

  lemma OrderedSnoc(history: seq<int>, now: int)
    requires Ordered(history) && forall t | t in history :: t <= now
    ensures Ordered(history + [now])
  {
    assert forall i | 0 <= i < |history| :: history[i] in history;
  }

  // ---------------------------------------------------------------- exit handlers

  datatype Outcome = Ignored | Quit | Stopped | RestartRequested | CrashRespawn | CrashLimit

  const PORT_CONFLICT := 78
  const RESTART := 75

  /** The times within the window, as they are filtered. */
  method Filter(times: seq<int>, now: int) returns (recent: seq<int>)
    ensures recent == Recent(times, now)
  {
    recent := [];
    var i := 0;
    while i < |times|
      invariant 0 <= i <= |times|
      invariant recent == Recent(times[..i], now)
    {
      assert times[..i + 1][..i] == times[..i];
      if now - times[i] < CRASH_WINDOW_MS { recent := recent + [times[i]]; }
      i := i + 1;
    }
    assert times[..i] == times;
  }

  /** One supervised child: the node process, or the Teams process, which has no restart code. */
  class Child {
    const isNode: bool
    var stopping: bool
    var userStopped: bool
    var crashTimes: seq<int>
    ghost var crashes: seq<int>   // every crash so far

    ghost predicate Valid()
      reads this
    {
      Ordered(crashes) && crashTimes == Pruned(crashes)
    }

    constructor (isNode: bool)
      ensures Valid() && this.isNode == isNode && !stopping && !userStopped && crashes == []
    {
      this.isNode := isNode;
      stopping, userStopped, crashTimes, crashes := false, false, [], [];
    }

    /** Note a crash and keep the window; returns whether it leaves room for a respawn. */
    method NoteCrash(now: int) returns (respawn: bool)
      requires Valid() && forall t | t in crashes :: t <= now
      modifies this`crashTimes, this`crashes
      ensures Valid() && crashes == old(crashes) + [now] && respawn == Respawns(crashes)
    {
      OrderedSnoc(crashes, now);
      crashes := crashes + [now];
      assert crashes[..|crashes| - 1] == old(crashes);
      crashTimes := Filter(crashTimes + [now], now);
      return |crashTimes| < MAX_CRASHES;
    }

    /** `code` is the exit code; a value that no branch names stands for a crash or a signal. */
    method OnExit(code: int, now: int) returns (r: Outcome)
      requires Valid() && forall t | t in crashes :: t <= now
      modifies this
      ensures Valid() && stopping == old(stopping)
      ensures r == Ignored <==> old(stopping)
      ensures r == Quit <==> !old(stopping) && isNode && code == 78
      ensures r == RestartRequested <==> !old(stopping) && !old(userStopped) && isNode && code == 75
      ensures r == Stopped <==> !old(stopping) && !(isNode && code == 78) && (old(userStopped) || code == 0)
      ensures r.CrashRespawn? || r.CrashLimit? <==>
              !old(stopping) && !old(userStopped) && code != 0 && !(isNode && (code == 75 || code == 78))
      ensures crashes == if r.CrashRespawn? || r.CrashLimit? then old(crashes) + [now] else old(crashes)
      ensures r.CrashRespawn? || r.CrashLimit? ==> (r.CrashRespawn? <==> Respawns(crashes))
      ensures userStopped == (old(userStopped) && (r == Ignored || r == Quit))
    {
      if stopping { return Ignored; }
      if isNode && code == PORT_CONFLICT { return Quit; }
      if userStopped || code == 0 {
        userStopped := false;
        return Stopped;
      }
      if isNode && code == RESTART { return RestartRequested; }
      var respawn := NoteCrash(now);
      return if respawn then CrashRespawn else CrashLimit;
    }
  }
}
