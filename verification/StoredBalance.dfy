/** Stored balances, which clamping makes order-dependent: exactly when all deliveries leave the same one. */
module StoredBalance {
  import opened Lux
  import opened Ledger
  import opened Accounting
  import opened Convergence
  import Sums
  import C = Clamping

  function DebitOf(tx: Tx, p: string): int {
    if tx.kind.Transfer? && tx.from == p && p != NETWORK then tx.amount + tx.fee else 0
  }

  function CreditOf(tx: Tx, registered: set<string>, p: string): int {
    (if tx.to == p then tx.amount else 0) + (if tx.relay == p && RelayPaid(tx, registered) then tx.fee else 0)
  }

  /** What the transactions of a table do to account `p`. */
  function ItemsOf(txs: map<string, Tx>, registered: set<string>, p: string): C.Items {
    map id | id in txs :: C.Item(DebitOf(txs[id], p), CreditOf(txs[id], registered, p))
  }

  lemma DebitStep(b: Book, tx: Tx, p: string)
    requires p in b.balance && BalanceOf(b, p) >= 0 && tx.amount >= 0 && tx.fee >= 0
    ensures var d := if tx.kind.Transfer? && tx.from != NETWORK then ForceSubtract(b, tx.from, tx.amount + tx.fee) else b;
            d.balance.Keys == b.balance.Keys && BalanceOf(d, p) == Max(0, BalanceOf(b, p) - DebitOf(tx, p))
  {
  }

  lemma CreditStep(b: Book, tx: Tx, p: string)
    requires p in b.balance
    ensures Credited(b, tx).balance.Keys == b.balance.Keys
    ensures BalanceOf(Credited(b, tx), p) == BalanceOf(b, p) + CreditOf(tx, b.balance.Keys, p)
  {
  }

  /** A remote transaction debits, clamping at zero, and then credits. */
  lemma BalanceStep(b: Book, tx: Tx, p: string)
    requires p in b.balance && BalanceOf(b, p) >= 0 && tx.amount >= 0 && tx.fee >= 0
    ensures p in RemoteBook(b, tx).balance && RemoteBook(b, tx).balance.Keys == b.balance.Keys
    ensures BalanceOf(RemoteBook(b, tx), p)
         == Max(0, BalanceOf(b, p) - DebitOf(tx, p)) + CreditOf(tx, b.balance.Keys, p)
  {
    DebitStep(b, tx, p);
    CreditStep(if tx.kind.Transfer? && tx.from != NETWORK then ForceSubtract(b, tx.from, tx.amount + tx.fee) else b, tx, p);
  }

  // ---------------------------------------------------------------- the order in which a log is recorded

  /** The ids that a log adds to the table, in the order in which it adds them. */
  function Recorded(c: Tally, log: seq<Tx>): seq<string> {
    if log == [] then []
    else
      var init, tx := log[..|log| - 1], log[|log| - 1];
      var t := CountAll(c, init);
      Recorded(c, init) + if tx.id in t.txs || !Admissible(t.supply, tx) then [] else [tx.id]
  }

  lemma {:induction false} RecordedShape(c: Tally, log: seq<Tx>)
    ensures C.Distinct(Recorded(c, log)) && C.Elements(Recorded(c, log)) !! c.txs.Keys
    ensures CountAll(c, log).txs.Keys == c.txs.Keys + C.Elements(Recorded(c, log))
    decreases |log|
  {
    if log != [] {
      var init, tx := log[..|log| - 1], log[|log| - 1];
      RecordedShape(c, init);
      var o, o' := Recorded(c, init), Recorded(c, log);
      if o' != o {
        assert o' == o + [tx.id] && o'[..|o|] == o;
        C.ElementsSnoc(o');
        assert forall i | 0 <= i < |o| :: o[i] in C.Elements(o);
      } else {
        assert CountAll(c, log) == CountAll(c, init);
      }
    }
  }

  /** The transactions that the pool adds to the table, as they are recorded. */
  function Added(s: State, pool: map<string, Tx>): map<string, Tx> {
    Expected(TallyOf(s), pool, pool.Keys)
  }

  lemma {:induction false} RecordedArranges(c: Tally, pool: map<string, Tx>, log: seq<Tx>)
    requires Pool(pool) && From(log, pool) && c.supply <= HARD_CAP && OrderInvisible(c, pool)
    ensures C.Distinct(Recorded(c, log)) && C.Elements(Recorded(c, log)) == Expected(c, pool, Ids(log)).Keys
    ensures C.Among(Recorded(c, log), Expected(c, pool, pool.Keys).Keys)
  {
    RecordedShape(c, log);
    TableAfter(c, pool, log);
    var o := Recorded(c, log);
    assert forall id | id in C.Elements(o) :: id in Expected(c, pool, Ids(log));
    assert C.Elements(o) == Expected(c, pool, Ids(log)).Keys;
    assert forall i | 0 <= i < |o| :: o[i] in C.Elements(o);
  }

  /** A transaction is recorded as it stands in `Added`. */
  lemma {:induction false} RecordedAsAdded(s: State, pool: map<string, Tx>, log: seq<Tx>, tx: Tx)
    requires Pool(pool) && From(log, pool) && s.supply <= HARD_CAP && OrderInvisible(TallyOf(s), pool)
    requires tx.id in pool && pool[tx.id] == tx
    requires tx.id !in CountAll(TallyOf(s), log).txs && Admissible(CountAll(TallyOf(s), log).supply, tx)
    ensures tx.id in Added(s, pool) && Effective(CountAll(TallyOf(s), log).supply, tx) == Added(s, pool)[tx.id]
  {
    var c := TallyOf(s);
    TableAfter(c, pool, log);
    SupplyAfter(c, pool, log);
    TableStep(c, pool, Ids(log), CountAll(c, log), tx);
  }

  /** `t` was reached from `s` by recording the transactions of `order`; only their items count for `p`. */
  ghost predicate Follows(s: State, added: map<string, Tx>, p: string, t: State, order: seq<string>) {
    && C.Among(order, added.Keys)
    && t.book.balance.Keys == s.book.balance.Keys
    && BalanceOf(t.book, p) >= 0
    && BalanceOf(t.book, p) == C.Final(BalanceOf(s.book, p), ItemsOf(added, s.book.balance.Keys, p), order)
  }

  lemma {:induction false} FollowsOne(s: State, added: map<string, Tx>, p: string, t: State, order: seq<string>, tx: Tx)
    requires Follows(s, added, p, t, order) && p in s.book.balance && tx.amount >= 0 && tx.fee >= 0
    requires tx.id !in t.txs && Admissible(t.supply, tx)
    requires tx.id in added && added[tx.id] == Effective(t.supply, tx)
    ensures Follows(s, added, p, ApplyRemote(t, tx), order + [tx.id])
  {
    BalanceStep(t.book, Effective(t.supply, tx), p);
    C.FinalSnoc(BalanceOf(s.book, p), ItemsOf(added, s.book.balance.Keys, p), order, tx.id);
  }

  lemma {:induction false} FollowsAll(s: State, pool: map<string, Tx>, log: seq<Tx>, p: string)
    requires Pool(pool) && From(log, pool) && s.supply <= HARD_CAP && OrderInvisible(TallyOf(s), pool)
    requires p in s.book.balance && BalanceOf(s.book, p) >= 0
    ensures Follows(s, Added(s, pool), p, Replay(s, log), Recorded(TallyOf(s), log))
    decreases |log|
  {
    if log != [] {
      var init, tx := log[..|log| - 1], log[|log| - 1];
      FollowsAll(s, pool, init, p);
      ReplayCounts(s, init);
      var t, order, added := Replay(s, init), Recorded(TallyOf(s), init), Added(s, pool);
      if tx.id !in t.txs && Admissible(t.supply, tx) {
        RecordedAsAdded(s, pool, init, tx);
        FollowsOne(s, added, p, t, order, tx);
      } else {
        assert order + [] == order;
      }
    }
  }

  /** The stored balance after any delivery is that of its items, in the order in which they were recorded. */
  lemma {:induction false} BalanceAfter(s: State, pool: map<string, Tx>, log: seq<Tx>, p: string)
    requires Pool(pool) && From(log, pool) && s.supply <= HARD_CAP && OrderInvisible(TallyOf(s), pool)
    requires p in s.book.balance && BalanceOf(s.book, p) >= 0
    ensures C.Among(Recorded(TallyOf(s), log), Added(s, pool).Keys)
    ensures var items := ItemsOf(Added(s, pool), s.book.balance.Keys, p);
            BalanceOf(Replay(s, log).book, p) == C.Final(BalanceOf(s.book, p), items, Recorded(TallyOf(s), log))
  {
    FollowsAll(s, pool, log, p);
  }

  // ---------------------------------------------------------------- every order is the order of some delivery

  function LogOf(pool: map<string, Tx>, order: seq<string>): (log: seq<Tx>)
    requires C.Among(order, pool.Keys)
    ensures |log| == |order| && forall i | 0 <= i < |order| :: log[i] == pool[order[i]]
  {
    seq(|order|, i requires 0 <= i < |order| => pool[order[i]])
  }

  lemma {:induction false} RecordedNext(c: Tally, pool: map<string, Tx>, log: seq<Tx>, id: string)
    requires Pool(pool) && From(log, pool) && c.supply <= HARD_CAP && OrderInvisible(c, pool)
    requires id in Expected(c, pool, pool.Keys) && id !in Ids(log)
    ensures Recorded(c, log + [pool[id]]) == Recorded(c, log) + [id]
  {
    SupplyAfter(c, pool, log);
    SameVerdict(c, pool, Ids(log), CountAll(c, log), pool[id]);
    assert (log + [pool[id]])[..|log|] == log;
  }

  lemma {:induction false} RecordedOf(c: Tally, pool: map<string, Tx>, order: seq<string>)
    requires Pool(pool) && c.supply <= HARD_CAP && OrderInvisible(c, pool)
    requires C.Distinct(order) && C.Among(order, Expected(c, pool, pool.Keys).Keys)
    ensures C.Among(order, pool.Keys) && Recorded(c, LogOf(pool, order)) == order
    decreases |order|
  {
    if order != [] {
      var init, id := order[..|order| - 1], order[|order| - 1];
      RecordedOf(c, pool, init);
      var before := LogOf(pool, init);
      assert LogOf(pool, order) == before + [pool[id]];
      assert id !in Ids(before);
      RecordedNext(c, pool, before, id);
    }
  }

  lemma {:induction false} RecordedPrefix(c: Tally, a: seq<Tx>, b: seq<Tx>)
    ensures Recorded(c, a) <= Recorded(c, a + b)
    decreases |b|
  {
    if b == [] {
      assert a + b == a;
    } else {
      assert (a + b)[..|a + b| - 1] == a + b[..|b| - 1];
      RecordedPrefix(c, a, b[..|b| - 1]);
    }
  }

  lemma {:induction false} SameElementsSameLength(a: seq<string>, b: seq<string>)
    requires C.Distinct(a) && C.Distinct(b) && C.Elements(a) == C.Elements(b) && a <= b
    ensures a == b
  {
    ElementsCount(a);
    ElementsCount(b);
  }

  lemma {:induction false} ElementsCount(order: seq<string>)
    requires C.Distinct(order)
    ensures |C.Elements(order)| == |order|
    decreases |order|
  {
    if order != [] {
      ElementsCount(order[..|order| - 1]);
      C.ElementsSnoc(order);
    }
  }

  lemma DeliversMore(pool: map<string, Tx>, head: seq<Tx>, tail: seq<Tx>)
    requires From(head, pool) && Delivers(tail, pool)
    ensures Delivers(head + tail, pool)
  {
    var log := head + tail;
    assert forall i | 0 <= i < |tail| :: log[|head| + i] == tail[i];
    assert Ids(tail) <= Ids(log) <= pool.Keys;
  }

  lemma {:induction false} SomeDelivery(s: State, pool: map<string, Tx>, order: seq<string>) returns (log: seq<Tx>)
    requires Pool(pool) && s.supply <= HARD_CAP && OrderInvisible(TallyOf(s), pool)
    requires C.Distinct(order) && C.Elements(order) == Added(s, pool).Keys
    ensures Delivers(log, pool) && Recorded(TallyOf(s), log) == order
  {
    var c := TallyOf(s);
    assert forall i | 0 <= i < |order| :: order[i] in C.Elements(order);
    RecordedOf(c, pool, order);
    var head, tail := LogOf(pool, order), Enumerate(pool);
    log := head + tail;
    DeliversMore(pool, head, tail);
    RecordedPrefix(c, head, tail);
    RecordedArranges(c, pool, log);
    SameElementsSameLength(order, Recorded(c, log));
  }

  // ---------------------------------------------------------------- the condition

  /** Every delivery of the pool leaves account `p` with the same stored balance. */
  ghost predicate OneStoredBalance(s: State, pool: map<string, Tx>, p: string) {
    forall q, r | Delivers(q, pool) && Delivers(r, pool) ::
      BalanceOf(Replay(s, q).book, p) == BalanceOf(Replay(s, r).book, p)
  }

  /**
   * Stored balances, exactly: every delivery of the pool leaves account `p` with the same stored balance iff
   * the order of what the pool does to it is hidden.
   */
  lemma {:induction false} StoredBalanceExactly(s: State, pool: map<string, Tx>, p: string)
    requires Pool(pool) && s.supply <= HARD_CAP && OrderInvisible(TallyOf(s), pool)
    requires p in s.book.balance && BalanceOf(s.book, p) >= 0
    ensures C.OrderHidden(ItemsOf(Added(s, pool), s.book.balance.Keys, p), BalanceOf(s.book, p)) <==> OneStoredBalance(s, pool, p)
  {
    var items, start := ItemsOf(Added(s, pool), s.book.balance.Keys, p), BalanceOf(s.book, p);
    ItemsNonNegative(s, pool, p);
    if C.OrderHidden(items, start) {
      forall q, r | Delivers(q, pool) && Delivers(r, pool)
        ensures BalanceOf(Replay(s, q).book, p) == BalanceOf(Replay(s, r).book, p)
      {
        HiddenBalance(s, pool, q, p);
        HiddenBalance(s, pool, r, p);
      }
    } else {
      var q, r := BalancesDiffer(s, pool, p);
    }
  }

  lemma ItemsNonNegative(s: State, pool: map<string, Tx>, p: string)
    requires Pool(pool) && s.supply <= HARD_CAP
    ensures C.NonNegative(ItemsOf(Added(s, pool), s.book.balance.Keys, p))
  {
  }

  lemma {:induction false} HiddenBalance(s: State, pool: map<string, Tx>, log: seq<Tx>, p: string)
    requires Pool(pool) && Delivers(log, pool) && s.supply <= HARD_CAP && OrderInvisible(TallyOf(s), pool)
    requires p in s.book.balance && BalanceOf(s.book, p) >= 0
    requires C.OrderHidden(ItemsOf(Added(s, pool), s.book.balance.Keys, p), BalanceOf(s.book, p))
    ensures var items := ItemsOf(Added(s, pool), s.book.balance.Keys, p);
            BalanceOf(Replay(s, log).book, p) == Sums.Sum(C.Gains(items)) + Max(BalanceOf(s.book, p), C.Depth(items))
  {
    BalanceAfter(s, pool, log, p);
    RecordedArranges(TallyOf(s), pool, log);
    ItemsNonNegative(s, pool, p);
    C.HiddenFinal(ItemsOf(Added(s, pool), s.book.balance.Keys, p), BalanceOf(s.book, p), Recorded(TallyOf(s), log));
  }

  lemma {:induction false} BalancesDiffer(s: State, pool: map<string, Tx>, p: string) returns (q: seq<Tx>, r: seq<Tx>)
    requires Pool(pool) && s.supply <= HARD_CAP && OrderInvisible(TallyOf(s), pool)
    requires p in s.book.balance && BalanceOf(s.book, p) >= 0
    requires !C.OrderHidden(ItemsOf(Added(s, pool), s.book.balance.Keys, p), BalanceOf(s.book, p))
    ensures Delivers(q, pool) && Delivers(r, pool)
    ensures BalanceOf(Replay(s, q).book, p) > BalanceOf(Replay(s, r).book, p)
  {
    var items := ItemsOf(Added(s, pool), s.book.balance.Keys, p);
    ItemsNonNegative(s, pool, p);
    var a, b := C.ShownFinals(items, BalanceOf(s.book, p));
    q := SomeDelivery(s, pool, a);
    r := SomeDelivery(s, pool, b);
    BalanceAfter(s, pool, q, p);
    BalanceAfter(s, pool, r, p);
  }

  /** The debits of a table on an account, by transaction. */
  function DebitsOn(txs: map<string, Tx>, p: string): map<string, int> {
    map id | id in txs :: DebitOf(txs[id], p)
  }

  predicate CreditedBy(txs: map<string, Tx>, registered: set<string>, p: string, id: string) {
    id in txs && CreditOf(txs[id], registered, p) != 0
  }

  /** No transaction both debits and credits the account. */
  predicate Plain(txs: map<string, Tx>, registered: set<string>, p: string) {
    forall id | id in txs :: DebitOf(txs[id], p) == 0 || CreditOf(txs[id], registered, p) == 0
  }

  lemma {:induction false} PlainHidden(txs: map<string, Tx>, registered: set<string>, p: string, start: int)
    requires C.NonNegative(ItemsOf(txs, registered, p)) && Plain(txs, registered, p) && start >= 0
    ensures C.OrderHidden(ItemsOf(txs, registered, p), start) <==>
            Sums.Sum(DebitsOn(txs, p)) <= start || forall id :: !CreditedBy(txs, registered, p, id)
  {
    var items := ItemsOf(txs, registered, p);
    C.PlainOrderHidden(items, start);
    assert DebitsOn(txs, p) == C.DebitsOf(items);
    assert forall id | id in items :: items[id].credit != 0 <==> CreditedBy(txs, registered, p, id);
  }

  /**
   * If no transaction of the pool both debits and credits `p`, all deliveries leave it the same stored
   * balance iff its balance covers all its debits, or the pool does not credit it.
   */
  lemma {:induction false} PlainStoredBalance(s: State, pool: map<string, Tx>, p: string)
    requires Pool(pool) && s.supply <= HARD_CAP && OrderInvisible(TallyOf(s), pool)
    requires p in s.book.balance && BalanceOf(s.book, p) >= 0
    requires Plain(Added(s, pool), s.book.balance.Keys, p)
    ensures OneStoredBalance(s, pool, p) <==>
            || Sums.Sum(DebitsOn(Added(s, pool), p)) <= BalanceOf(s.book, p)
            || forall id :: !CreditedBy(Added(s, pool), s.book.balance.Keys, p, id)
  {
    StoredBalanceExactly(s, pool, p);
    ItemsNonNegative(s, pool, p);
    PlainHidden(Added(s, pool), s.book.balance.Keys, p, BalanceOf(s.book, p));
  }

  /** The smallest case: a credit and a debit commute on the stored balance iff the debit is covered without it. */
  lemma FundingOrderShowsInBalance(b: Book, fund: Tx, pay: Tx, p: string)
    requires p in b.balance && BalanceOf(b, p) >= 0
    requires fund.amount >= 0 && fund.fee >= 0 && pay.amount >= 0 && pay.fee >= 0
    requires DebitOf(fund, p) == 0 && CreditOf(pay, b.balance.Keys, p) == 0
    ensures BalanceOf(RemoteBook(RemoteBook(b, fund), pay), p) == BalanceOf(RemoteBook(RemoteBook(b, pay), fund), p) <==>
            DebitOf(pay, p) <= BalanceOf(b, p) || CreditOf(fund, b.balance.Keys, p) == 0
  {
    BalanceStep(b, fund, p);
    BalanceStep(RemoteBook(b, fund), pay, p);
    BalanceStep(b, pay, p);
    BalanceStep(RemoteBook(b, pay), fund, p);
  }
}
