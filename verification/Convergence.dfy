/** Replicas that receive the same remote transactions, in any order and with any repetitions. */
module Convergence {
  import opened Lux
  import opened Ledger
  import opened Sums
  import opened Accounting

  /** A set of validated remote transactions, keyed by id. */
  ghost predicate Pool(pool: map<string, Tx>) {
    forall id | id in pool :: pool[id].id == id && pool[id].amount >= 0 && pool[id].fee >= 0
  }

  /** The log delivers only transactions of the pool, in some order, with any repetitions. */
  ghost predicate From(log: seq<Tx>, pool: map<string, Tx>) {
    forall i | 0 <= i < |log| :: log[i].id in pool && pool[log[i].id] == log[i]
  }

  function Ids(log: seq<Tx>): set<string> {
    set i | 0 <= i < |log| :: log[i].id
  }

  /** The log delivers every transaction of the pool at least once. */
  ghost predicate Delivers(log: seq<Tx>, pool: map<string, Tx>) {
    From(log, pool) && Ids(log) == pool.Keys
  }

  /** Everything about a ledger that replicas are expected to agree on. */
  ghost predicate SameView(s: State, t: State) {
    && s.book.balance.Keys == t.book.balance.Keys
    && s.txs == t.txs && s.supply == t.supply && s.relayFees == t.relayFees
    && forall p :: Net(s.book, p) == Net(t.book, p)
  }

  lemma IdsSnoc(log: seq<Tx>)
    requires log != []
    ensures Ids(log) == Ids(log[..|log| - 1]) + {log[|log| - 1].id}
  {
  }

  // ---------------------------------------------------------------- table and supply

  /** The part of a ledger that decides what is recorded. */
  datatype Tally = Tally(txs: map<string, Tx>, supply: int)

  function TallyOf(s: State): Tally {
    Tally(s.txs, s.supply)
  }

  function Count(c: Tally, tx: Tx): Tally {
    if tx.id in c.txs || !Admissible(c.supply, tx) then c
    else
      var t := Effective(c.supply, tx);
      Tally(c.txs[tx.id := t], c.supply + Minted(t))
  }

  function CountAll(c: Tally, log: seq<Tx>): Tally {
    if log == [] then c else Count(CountAll(c, log[..|log| - 1]), log[|log| - 1])
  }

  /** Balances have no influence on what is recorded. */
  lemma {:induction false} ReplayCounts(s: State, log: seq<Tx>)
    ensures TallyOf(Replay(s, log)) == CountAll(TallyOf(s), log)
    decreases |log|
  {
    if log != [] { ReplayCounts(s, log[..|log| - 1]); }
  }

  predicate IsFreshEmission(c: Tally, pool: map<string, Tx>, id: string) {
    id in pool && id !in c.txs && pool[id].kind.Emission?
  }

  function FreshMints(c: Tally, pool: map<string, Tx>, ids: set<string>): map<string, int> {
    map id | id in ids && IsFreshEmission(c, pool, id) :: pool[id].amount
  }

  /** What the emissions of the pool among `ids` ask for in all. */
  ghost function Requested(c: Tally, pool: map<string, Tx>, ids: set<string>): int {
    Sum(FreshMints(c, pool, ids))
  }

  lemma RequestedGrows(c: Tally, pool: map<string, Tx>, ids: set<string>, id: string)
    ensures Requested(c, pool, ids + {id}) == Requested(c, pool, ids)
            + (if id !in ids && IsFreshEmission(c, pool, id) then pool[id].amount else 0)
  {
    var before := FreshMints(c, pool, ids);
    if id !in ids && IsFreshEmission(c, pool, id) {
      assert FreshMints(c, pool, ids + {id}) == before[id := pool[id].amount];
      SumInsert(before, id, pool[id].amount);
    } else {
      assert FreshMints(c, pool, ids + {id}) == before;
    }
  }

  lemma RequestedMonotone(c: Tally, pool: map<string, Tx>, ids: set<string>, more: set<string>)
    requires Pool(pool) && ids <= more
    ensures 0 <= Requested(c, pool, ids) <= Requested(c, pool, more)
  {
    SumMonotone(FreshMints(c, pool, ids), FreshMints(c, pool, more));
  }

  /** The tally `t` after the transactions in `seen`, counted from `c`. */
  ghost predicate Tracks(c: Tally, pool: map<string, Tx>, seen: set<string>, t: Tally) {
    && t.supply == Min(HARD_CAP, c.supply + Requested(c, pool, seen))
    && c.txs.Keys <= t.txs.Keys <= c.txs.Keys + seen
    && forall id | id in seen && IsFreshEmission(c, pool, id) && id !in t.txs ::
         t.supply == HARD_CAP && pool[id].amount > 0
  }

  lemma TracksStep(c: Tally, pool: map<string, Tx>, seen: set<string>, t: Tally, tx: Tx)
    requires Pool(pool) && tx.id in pool && pool[tx.id] == tx && Tracks(c, pool, seen, t)
    ensures Tracks(c, pool, seen + {tx.id}, Count(t, tx))
  {
    RequestedGrows(c, pool, seen, tx.id);
    RequestedMonotone(c, pool, seen, seen);
  }

  /**
   * The supply after any delivery of remote emissions: all that was requested, cut at the cap. It does
   * not depend on the order, whether or not the cap is reached.
   */
  lemma {:induction false} SupplyAfter(c: Tally, pool: map<string, Tx>, log: seq<Tx>)
    requires Pool(pool) && From(log, pool) && c.supply <= HARD_CAP
    ensures Tracks(c, pool, Ids(log), CountAll(c, log))
    decreases |log|
  {
    if log == [] {
      assert FreshMints(c, pool, Ids(log)) == map[];
    } else {
      SupplyAfter(c, pool, log[..|log| - 1]);
      IdsSnoc(log);
      TracksStep(c, pool, Ids(log[..|log| - 1]), CountAll(c, log[..|log| - 1]), log[|log| - 1]);
    }
  }

  // ---------------------------------------------------------------- the table

  predicate AsksFor(c: Tally, pool: map<string, Tx>, id: string) {
    IsFreshEmission(c, pool, id) && pool[id].amount > 0
  }

  /**
   * The cap cannot make the order visible: it is already reached, or it leaves room for every
   * emission of the pool, or at most one emission asks for anything.
   */
  ghost predicate OrderInvisible(c: Tally, pool: map<string, Tx>) {
    || c.supply >= HARD_CAP
    || c.supply + Requested(c, pool, pool.Keys) <= HARD_CAP
    || forall i, j | AsksFor(c, pool, i) && AsksFor(c, pool, j) :: i == j
  }

  /** What the pool adds to the table when every transaction meets the initial supply. */
  function Expected(c: Tally, pool: map<string, Tx>, ids: set<string>): map<string, Tx> {
    map id | id in ids && id in pool && id !in c.txs && Admissible(c.supply, pool[id]) ::
      Effective(c.supply, pool[id])
  }

  lemma OnlyOneAsks(c: Tally, pool: map<string, Tx>, seen: set<string>, id: string)
    requires AsksFor(c, pool, id) && id !in seen && Pool(pool)
    requires forall i, j | AsksFor(c, pool, i) && AsksFor(c, pool, j) :: i == j
    ensures Requested(c, pool, seen) == 0
  {
    forall k | k in FreshMints(c, pool, seen)
      ensures FreshMints(c, pool, seen)[k] == 0
    {
      assert k != id && !AsksFor(c, pool, k);
    }
    SumZero(FreshMints(c, pool, seen));
  }

  /** A transaction not delivered before meets the same verdict as in the initial state. */
  lemma SameVerdict(c: Tally, pool: map<string, Tx>, seen: set<string>, t: Tally, tx: Tx)
    requires Pool(pool) && c.supply <= HARD_CAP && OrderInvisible(c, pool) && Tracks(c, pool, seen, t) && seen <= pool.Keys
    requires tx.id in pool && pool[tx.id] == tx && tx.id !in c.txs && tx.id !in seen
    ensures Admissible(t.supply, tx) == Admissible(c.supply, tx)
    ensures Admissible(c.supply, tx) ==> Effective(t.supply, tx) == Effective(c.supply, tx)
  {
    RequestedMonotone(c, pool, seen, seen);
    if AsksFor(c, pool, tx.id) && c.supply < HARD_CAP {
      if c.supply + Requested(c, pool, pool.Keys) <= HARD_CAP {
        RequestedGrows(c, pool, seen, tx.id);
        RequestedMonotone(c, pool, seen + {tx.id}, pool.Keys);
      } else {
        OnlyOneAsks(c, pool, seen, tx.id);
      }
    }
  }

  /** One more delivered id adds its row to the expected ones iff it is new and admissible. */
  lemma ExpectedGrows(c: Tally, pool: map<string, Tx>, seen: set<string>, id: string)
    requires Pool(pool) && seen <= pool.Keys && id in pool
    ensures var before, after := Expected(c, pool, seen), Expected(c, pool, seen + {id});
            after == if id in c.txs || id in seen || !Admissible(c.supply, pool[id]) then before
                     else before[id := Effective(c.supply, pool[id])]
  {
  }

  lemma TableStep(c: Tally, pool: map<string, Tx>, seen: set<string>, t: Tally, tx: Tx)
    requires Pool(pool) && c.supply <= HARD_CAP && OrderInvisible(c, pool) && Tracks(c, pool, seen, t) && seen <= pool.Keys
    requires tx.id in pool && pool[tx.id] == tx && t.txs == c.txs + Expected(c, pool, seen)
    ensures Count(t, tx).txs == c.txs + Expected(c, pool, seen + {tx.id})
  {
    ExpectedGrows(c, pool, seen, tx.id);
    if tx.id in c.txs || tx.id in seen {
      RequestedMonotone(c, pool, seen, seen);
    } else {
      SameVerdict(c, pool, seen, t, tx);
    }
  }

  lemma {:induction false} TableAfter(c: Tally, pool: map<string, Tx>, log: seq<Tx>)
    requires Pool(pool) && From(log, pool) && c.supply <= HARD_CAP && OrderInvisible(c, pool)
    ensures CountAll(c, log).txs == c.txs + Expected(c, pool, Ids(log))
    decreases |log|
  {
    if log != [] {
      var init := log[..|log| - 1];
      TableAfter(c, pool, init);
      SupplyAfter(c, pool, init);
      IdsSnoc(log);
      TableStep(c, pool, Ids(init), CountAll(c, init), log[|log| - 1]);
    }
  }

  // ---------------------------------------------------------------- the view

  /** With the set of registered accounts fixed, the table determines everything in the view. */
  lemma {:induction false} ViewFollowsTable(s: State, log: seq<Tx>, p: string)
    requires forall i | 0 <= i < |log| :: log[i].amount >= 0 && log[i].fee >= 0
    ensures var e := Replay(s, log); var reg := s.book.balance.Keys;
            && e.book.balance.Keys == reg
            && e.supply - TableTotal(e.txs, Mints) == s.supply - TableTotal(s.txs, Mints)
            && e.relayFees - TableTotal(e.txs, FeesAmong(reg)) == s.relayFees - TableTotal(s.txs, FeesAmong(reg))
            && Net(e.book, p) - TableTotal(e.txs, NetAmong(reg, p)) == Net(s.book, p) - TableTotal(s.txs, NetAmong(reg, p))
    decreases |log|
  {
    if log != [] {
      var tx := log[|log| - 1];
      ViewFollowsTable(s, log[..|log| - 1], p);
      ViewStep(Replay(s, log[..|log| - 1]), tx, p);
    }
  }

  lemma ViewStep(s: State, tx: Tx, p: string)
    requires tx.amount >= 0 && tx.fee >= 0
    ensures var e := ApplyRemote(s, tx); var reg := s.book.balance.Keys;
            && e.book.balance.Keys == reg
            && e.supply - TableTotal(e.txs, Mints) == s.supply - TableTotal(s.txs, Mints)
            && e.relayFees - TableTotal(e.txs, FeesAmong(reg)) == s.relayFees - TableTotal(s.txs, FeesAmong(reg))
            && Net(e.book, p) - TableTotal(e.txs, NetAmong(reg, p)) == Net(s.book, p) - TableTotal(s.txs, NetAmong(reg, p))
  {
    if tx.id !in s.txs && Admissible(s.supply, tx) {
      var reg, t := s.book.balance.Keys, Effective(s.supply, tx);
      TableInsert(s.txs, t, Mints);
      TableInsert(s.txs, t, FeesAmong(reg));
      TableInsert(s.txs, t, NetAmong(reg, p));
      RemoteNet(s, t, p);
    }
  }

  lemma {:induction false} RemoteNet(s: State, tx: Tx, p: string)
    requires tx.amount >= 0 && tx.fee >= 0 && tx.id !in s.txs
    ensures RemoteBook(s.book, tx).balance.Keys == s.book.balance.Keys
    ensures Net(RemoteBook(s.book, tx), p) == Net(s.book, p) + Eval(NetAmong(s.book.balance.Keys, p), tx)
  {
    var e := Posting(tx, s.book.balance.Keys, false);
    assert RemoteBook(s.book, tx) == Credited(Debited(s.book, e), tx);
    NetDebited(s, e, p);
    NetCredited(Debited(s.book, e), tx, p);
    assert Eval(NetAmong(s.book.balance.Keys, p), tx) == Delta(e, p);
  }

  /**
   * Replica convergence: two replicas that agree, and then receive the same transactions in any two
   * orders with any repetitions, agree again.
   */
  lemma {:induction false} ReplicasConverge(s: State, t: State, pool: map<string, Tx>, q: seq<Tx>, r: seq<Tx>)
    requires Pool(pool) && SameView(s, t) && s.supply <= HARD_CAP && OrderInvisible(TallyOf(s), pool)
    requires Delivers(q, pool) && Delivers(r, pool)
    ensures SameView(Replay(s, q), Replay(t, r))
  {
    ReplayCounts(s, q); TableAfter(TallyOf(s), pool, q);
    ReplayCounts(t, r); TableAfter(TallyOf(t), pool, r);
    forall p
      ensures Net(Replay(s, q).book, p) == Net(Replay(t, r).book, p)
    {
      ViewFollowsTable(s, q, p);
      ViewFollowsTable(t, r, p);
    }
    ViewFollowsTable(s, q, "");
    ViewFollowsTable(t, r, "");
  }

  // ---------------------------------------------------------------- necessity

  lemma DeliverOneMore(pool: map<string, Tx>, id: string, log: seq<Tx>)
    requires Pool(pool) && id in pool && Delivers(log, pool - {id})
    ensures Delivers(log + [pool[id]], pool)
  {
    IdsSnoc(log + [pool[id]]);
    assert (log + [pool[id]])[..|log|] == log;
    assert pool.Keys == (pool - {id}).Keys + {id};
  }

  ghost function Enumerate(pool: map<string, Tx>): (log: seq<Tx>)
    requires Pool(pool)
    ensures Delivers(log, pool)
    decreases |pool|
  {
    if pool.Keys == {} then []
    else
      var id := Pick(pool);
      var log := Enumerate(pool - {id});
      DeliverOneMore(pool, id, log);
      log + [pool[id]]
  }

  lemma CountSnoc(c: Tally, log: seq<Tx>, tx: Tx)
    ensures CountAll(c, log + [tx]) == Count(CountAll(c, log), tx)
  {
  }

  lemma {:induction false} CountAppend(c: Tally, a: seq<Tx>, b: seq<Tx>)
    ensures CountAll(c, a + b) == CountAll(CountAll(c, a), b)
    decreases |b|
  {
    if b == [] {
      assert a + b == a;
    } else {
      assert (a + b)[..|a + b| - 1] == a + b[..|b| - 1];
      CountAppend(c, a, b[..|b| - 1]);
    }
  }

  lemma {:induction false} RecordsPersist(c: Tally, log: seq<Tx>, id: string)
    requires id in c.txs
    ensures id in CountAll(c, log).txs && CountAll(c, log).txs[id] == c.txs[id]
    decreases |log|
  {
    if log != [] { RecordsPersist(c, log[..|log| - 1], id); }
  }

  /** With the cap in the way, an emission delivered first is recorded with more than one delivered last. */
  lemma FirstBeatsLast(c: Tally, pool: map<string, Tx>, t: Tally, i: string, j: string)
    requires Pool(pool) && c.supply < HARD_CAP < c.supply + Requested(c, pool, pool.Keys)
    requires AsksFor(c, pool, i) && AsksFor(c, pool, j) && i != j && Tracks(c, pool, pool.Keys - {i}, t)
    ensures i in Count(c, pool[i]).txs
    ensures i in Count(t, pool[i]).txs ==> Count(t, pool[i]).txs[i] != Count(c, pool[i]).txs[i]
  {
    var others := pool.Keys - {i};
    RequestedGrows(c, pool, others, i);
    assert others + {i} == pool.Keys;
    RequestedGrows(c, pool, others - {j}, j);
    assert others - {j} + {j} == others;
    RequestedMonotone(c, pool, others - {j}, others);
  }

  /** When the cap does make the order visible, two deliveries record different tables. */
  lemma {:induction false} OrderVisible(c: Tally, pool: map<string, Tx>) returns (q: seq<Tx>, r: seq<Tx>)
    requires Pool(pool) && c.supply <= HARD_CAP && !OrderInvisible(c, pool)
    ensures Delivers(q, pool) && Delivers(r, pool)
    ensures CountAll(c, q).txs != CountAll(c, r).txs
  {
    var i, j :| AsksFor(c, pool, i) && AsksFor(c, pool, j) && i != j;
    var tx, rest := pool[i], Enumerate(pool - {i});
    q, r := [tx] + rest, rest + [tx];
    DeliversEitherEnd(pool, i, rest);
    CountAppend(c, [tx], rest);
    CountSnoc(c, [], tx);
    assert [] + [tx] == [tx];
    CountSnoc(c, rest, tx);
    SupplyAfter(c, pool, rest);
    FirstBeatsLast(c, pool, CountAll(c, rest), i, j);
    RecordsPersist(Count(c, tx), rest, i);
  }

  lemma DeliversEitherEnd(pool: map<string, Tx>, i: string, rest: seq<Tx>)
    requires Pool(pool) && i in pool && Delivers(rest, pool - {i})
    ensures From(rest, pool) && Ids(rest) == pool.Keys - {i}
    ensures Delivers([pool[i]] + rest, pool) && Delivers(rest + [pool[i]], pool)
  {
    var q, r := [pool[i]] + rest, rest + [pool[i]];
    assert Ids(q) == {i} + Ids(rest) by {
      assert q[0].id == i;
      assert forall k | 0 <= k < |rest| :: q[k + 1] == rest[k];
    }
    IdsSnoc(r);
    assert r[..|rest|] == rest;
  }

  /** Convergence, exactly: every two deliveries of the pool record the same table iff the cap stays out of the way. */
  lemma {:induction false} ConvergenceExactly(s: State, pool: map<string, Tx>)
    requires Pool(pool) && s.supply <= HARD_CAP
    ensures OrderInvisible(TallyOf(s), pool) <==>
            forall q, r | Delivers(q, pool) && Delivers(r, pool) :: Replay(s, q).txs == Replay(s, r).txs
  {
    if OrderInvisible(TallyOf(s), pool) {
      forall q, r | Delivers(q, pool) && Delivers(r, pool)
        ensures Replay(s, q).txs == Replay(s, r).txs
      {
        ReplayCounts(s, q); TableAfter(TallyOf(s), pool, q);
        ReplayCounts(s, r); TableAfter(TallyOf(s), pool, r);
      }
    } else {
      var q, r := OrderVisible(TallyOf(s), pool);
      ReplayCounts(s, q);
      ReplayCounts(s, r);
    }
  }
}
