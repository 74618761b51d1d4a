/** A network of nodes that each run their own operations and gossip the resulting transactions. */
module Gossip {
  import opened Lux
  import opened Ledger
  import opened Sums
  import opened Accounting

  /** Everything published on the network, keyed by id: transactions made by some node's own operations. */
  ghost predicate Published(pool: map<string, Tx>) {
    forall id | id in pool ::
      var tx := pool[id];
      && tx.id == id && tx.amount > 0
      && (tx.kind.Transfer? ==> tx.fee == RelayFee(tx.amount, tx.relay))
      && (tx.kind.Emission? ==> tx.fee == 0)
  }

  /** The node's step posts, or receives, a published transaction. */
  ghost predicate OnNetwork(s: State, step: Step, pool: map<string, Tx>) {
    match step
    case Create(_) => true
    case Remote(tx) => tx.id in pool && pool[tx.id] == tx
    case _ => Local(s, step).Posted? ==> Local(s, step).tx.id in pool && pool[Local(s, step).tx.id] == Local(s, step).tx
  }

  /** One node's run, interleaving its own operations with deliveries in any order and number. */
  ghost predicate NodeRun(steps: seq<Step>, pool: map<string, Tx>) {
    forall i | 0 <= i < |steps| :: OnNetwork(Run(EMPTY, steps[..i]), steps[i], pool)
  }

  /** The transaction a step brings to the node, if any. */
  predicate Brings(s: State, step: Step, id: string) {
    match step
    case Create(_) => false
    case Remote(tx) => tx.id == id
    case _ => Local(s, step).Posted? && Local(s, step).tx.id == id
  }

  /** Every published transaction was made by this node or has reached it. */
  ghost predicate CaughtUp(steps: seq<Step>, pool: map<string, Tx>) {
    forall id | id in pool :: exists i :: 0 <= i < |steps| && Brings(Run(EMPTY, steps[..i]), steps[i], id)
  }

  predicate Submap(a: map<string, Tx>, b: map<string, Tx>) {
    forall id | id in a :: id in b && a[id] == b[id]
  }

  lemma NetworkStepsValidated(steps: seq<Step>, pool: map<string, Tx>)
    requires Published(pool) && NodeRun(steps, pool)
    ensures AllValidated(steps)
  {
  }

  lemma {:induction false} PrefixRun(steps: seq<Step>, pool: map<string, Tx>)
    requires steps != [] && NodeRun(steps, pool)
    ensures NodeRun(steps[..|steps| - 1], pool)
  {
    var init := steps[..|steps| - 1];
    forall i | 0 <= i < |init|
      ensures OnNetwork(Run(EMPTY, init[..i]), init[i], pool)
    {
      assert init[..i] == steps[..i] && init[i] == steps[i];
    }
  }

  /** As long as the network mints within the cap, no delivery is clamped or rejected. */
  lemma {:induction false} DeliveryUntouched(s: State, tx: Tx, pool: map<string, Tx>)
    requires Published(pool) && Submap(s.txs, pool) && tx.id in pool && pool[tx.id] == tx && tx.id !in s.txs
    requires s.supply == TableTotal(s.txs, Mints) && TableTotal(pool, Mints) <= HARD_CAP
    ensures Admissible(s.supply, tx) && Effective(s.supply, tx) == tx
  {
    if tx.kind.Transfer? {
      LocalFeePassesCeiling(tx.amount, tx.relay);
    } else {
      TableInsert(s.txs, tx, Mints);
      SumMonotone(Column(s.txs[tx.id := tx], Mints), Column(pool, Mints));
    }
  }

  lemma {:induction false} TableStaysPublished(s: State, step: Step, pool: map<string, Tx>)
    requires Published(pool) && Submap(s.txs, pool) && OnNetwork(s, step, pool) && Validated(step)
    requires s.supply == TableTotal(s.txs, Mints) && TableTotal(pool, Mints) <= HARD_CAP
    ensures Submap(Next(s, step).txs, pool) && s.txs.Keys <= Next(s, step).txs.Keys
    ensures forall id | Brings(s, step, id) :: id in Next(s, step).txs
  {
    StepShape(s, step);
    if step.Remote? && step.tx.id !in s.txs { DeliveryUntouched(s, step.tx, pool); }
  }

  lemma {:induction false} SupplyIsTable(steps: seq<Step>, pool: map<string, Tx>)
    requires Published(pool) && NodeRun(steps, pool)
    ensures AllValidated(steps) && Run(EMPTY, steps).supply == TableTotal(Run(EMPTY, steps).txs, Mints)
  {
    NetworkStepsValidated(steps, pool);
    HardCap(EMPTY, steps);
    assert Column(map[], Mints) == map[];
  }

  /** The last step keeps the table published, and its transaction is in the table. */
  lemma {:induction false} LastStepPublished(steps: seq<Step>, pool: map<string, Tx>)
    requires Published(pool) && NodeRun(steps, pool) && TableTotal(pool, Mints) <= HARD_CAP && steps != []
    requires Submap(Run(EMPTY, steps[..|steps| - 1]).txs, pool)
    ensures var s := Run(EMPTY, steps[..|steps| - 1]);
            && Submap(Run(EMPTY, steps).txs, pool) && s.txs.Keys <= Run(EMPTY, steps).txs.Keys
            && forall id | Brings(s, steps[|steps| - 1], id) :: id in Run(EMPTY, steps).txs
  {
    var init, last := steps[..|steps| - 1], steps[|steps| - 1];
    PrefixRun(steps, pool);
    SupplyIsTable(init, pool);
    NetworkStepsValidated(steps, pool);
    TableStaysPublished(Run(EMPTY, init), last, pool);
  }

  /** A node's table never holds anything but published transactions, as published. */
  lemma {:induction false} TableWithinPool(steps: seq<Step>, pool: map<string, Tx>)
    requires Published(pool) && NodeRun(steps, pool) && TableTotal(pool, Mints) <= HARD_CAP
    ensures Submap(Run(EMPTY, steps).txs, pool)
    decreases |steps|
  {
    if steps != [] {
      var init := steps[..|steps| - 1];
      PrefixRun(steps, pool);
      TableWithinPool(init, pool);
      LastStepPublished(steps, pool);
    }
  }

  /** Whatever a step brings to the node is in its table from then on. */
  lemma {:induction false} BroughtIsKept(steps: seq<Step>, pool: map<string, Tx>, i: nat, id: string)
    requires Published(pool) && NodeRun(steps, pool) && TableTotal(pool, Mints) <= HARD_CAP
    requires i < |steps| && Brings(Run(EMPTY, steps[..i]), steps[i], id)
    ensures id in Run(EMPTY, steps).txs
    decreases |steps|
  {
    var init := steps[..|steps| - 1];
    PrefixRun(steps, pool);
    TableWithinPool(init, pool);
    LastStepPublished(steps, pool);
    if i < |init| {
      assert init[..i] == steps[..i];
      BroughtIsKept(init, pool, i, id);
    }
  }

  lemma {:induction false} CaughtUpTable(steps: seq<Step>, pool: map<string, Tx>)
    requires Published(pool) && NodeRun(steps, pool) && TableTotal(pool, Mints) <= HARD_CAP && CaughtUp(steps, pool)
    ensures Run(EMPTY, steps).txs == pool
  {
    TableWithinPool(steps, pool);
    forall id | id in pool
      ensures id in Run(EMPTY, steps).txs
    {
      var i :| 0 <= i < |steps| && Brings(Run(EMPTY, steps[..i]), steps[i], id);
      BroughtIsKept(steps, pool, i, id);
    }
  }

  /** A node that has caught up holds exactly the published table iff the network mints within the cap. */
  lemma {:induction false} CaughtUpExactly(steps: seq<Step>, pool: map<string, Tx>)
    requires Published(pool) && NodeRun(steps, pool) && CaughtUp(steps, pool)
    ensures Run(EMPTY, steps).txs == pool <==> TableTotal(pool, Mints) <= HARD_CAP
  {
    if TableTotal(pool, Mints) <= HARD_CAP { CaughtUpTable(steps, pool); }
    SupplyIsTable(steps, pool);
    HardCap(EMPTY, steps);
  }

  /** What a node that has caught up holds: the sums over everything published, less what it did not book or count. */
  lemma {:induction false} NodeHolds(steps: seq<Step>, pool: map<string, Tx>, p: string)
    requires Published(pool) && TableTotal(pool, Mints) <= HARD_CAP && NodeRun(steps, pool) && CaughtUp(steps, pool)
    ensures var s, h := Run(EMPTY, steps), History(EMPTY, steps);
            && s.txs == pool && s.supply == TableTotal(pool, Mints)
            && s.relayFees == TableTotal(pool, FeesOf) - UncountedTotal(h)
            && Net(s.book, p) == TableTotal(pool, NetOf(p)) - UnbookedTotal(h, p)
  {
    CaughtUpTable(steps, pool);
    SupplyIsTable(steps, pool);
    FeeEquation(steps);
    LedgerEquation(steps, p);
  }

  /**
   * Eventual agreement of the whole network: any two nodes that have caught up with everything published,
   * whatever each did itself and in whatever order it learned of the rest, hold the same table and supply.
   * Their fee totals and net balances agree iff they left the same amounts uncounted and unbooked.
   *
   * A delivery is a call of `applyRemoteTransaction`. A transfer that the sync layer drops before that call
   * (packages/node/src/kernel/sync.ts:279-281, 314-321) has not reached the node in this sense.
   */
  lemma {:induction false} NodesAgree(a: seq<Step>, b: seq<Step>, pool: map<string, Tx>, p: string)
    requires Published(pool) && TableTotal(pool, Mints) <= HARD_CAP
    requires NodeRun(a, pool) && NodeRun(b, pool) && CaughtUp(a, pool) && CaughtUp(b, pool)
    ensures var s, t, h, k := Run(EMPTY, a), Run(EMPTY, b), History(EMPTY, a), History(EMPTY, b);
            && s.txs == t.txs == pool
            && s.supply == t.supply == TableTotal(pool, Mints)
            && (s.relayFees == t.relayFees <==> UncountedTotal(h) == UncountedTotal(k))
            && (Net(s.book, p) == Net(t.book, p) <==> UnbookedTotal(h, p) == UnbookedTotal(k, p))
  {
    NodeHolds(a, pool, p);
    NodeHolds(b, pool, p);
  }

  /**
   * With the credited parties registered on both nodes, they agree on the fee total and on every account
   * but NETWORK; on NETWORK they agree iff they spent the same in its name.
   */
  lemma {:induction false} RegularNodesAgree(a: seq<Step>, b: seq<Step>, pool: map<string, Tx>, p: string)
    requires Published(pool) && TableTotal(pool, Mints) <= HARD_CAP
    requires NodeRun(a, pool) && NodeRun(b, pool) && CaughtUp(a, pool) && CaughtUp(b, pool)
    requires RegularRun(EMPTY, a) && RegularRun(EMPTY, b)
    ensures var s, t := Run(EMPTY, a), Run(EMPTY, b);
            && s.relayFees == t.relayFees == TableTotal(pool, FeesOf)
            && (p != NETWORK ==> Net(s.book, p) == Net(t.book, p) == TableTotal(pool, NetOf(p)))
            && (p == NETWORK ==>
                (Net(s.book, p) == Net(t.book, p) <==>
                 NetworkSpent(History(EMPTY, a)) == NetworkSpent(History(EMPTY, b))))
  {
    NodeHolds(a, pool, p);
    NodeHolds(b, pool, p);
    NetworkStepsValidated(a, pool);
    NetworkStepsValidated(b, pool);
    RegularIsBooked(EMPTY, a, p);
    RegularIsBooked(EMPTY, b, p);
  }
}
