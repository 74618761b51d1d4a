/** Replaying a node's own log on a replica, and restarting from a snapshot. */
module Replication {
  import opened Lux
  import opened Ledger
  import opened Accounting

  // ---------------------------------------------------------------- replaying a local log

  predicate OwnSteps(steps: seq<Step>) {
    forall i | 0 <= i < |steps| :: steps[i].DoTransfer? || steps[i].DoEmit?
  }

  /** The transactions a local run publishes, in order. */
  function Log(s: State, steps: seq<Step>): seq<Tx>
    requires OwnSteps(steps)
  {
    if steps == [] then []
    else
      var init := steps[..|steps| - 1];
      var r := Local(Run(s, init), steps[|steps| - 1]);
      Log(s, init) + if r.Posted? then [r.tx] else []
  }

  function Missed(e: Posting): int {
    if RelayMissing(e) then e.tx.fee else 0
  }

  function MissingFees(h: seq<Posting>): int {
    if h == [] then 0 else MissingFees(h[..|h| - 1]) + Missed(h[|h| - 1])
  }

  lemma SpentSnoc(h: seq<Posting>, e: Posting)
    ensures NetworkSpent(h + [e]) == NetworkSpent(h) + Spent(e)
    ensures MissingFees(h + [e]) == MissingFees(h) + Missed(e)
  {
    UnbookedSnoc(h, e, "");
    assert (h + [e])[..|h|] == h;
  }

  /** `r` is `l` except for `x` more units at NETWORK. */
  ghost predicate BookMirrors(l: Book, r: Book, x: int) {
    r == AddBalance(l, NETWORK, x) && (NETWORK !in l.balance ==> x == 0)
  }

  /** `r` is `l` except for `x` more units at NETWORK and `y` fewer units of relay fees. */
  ghost predicate Mirrors(l: State, r: State, x: int, y: int) {
    r.txs == l.txs && r.supply == l.supply && BookMirrors(l.book, r.book, x) && r.relayFees == l.relayFees - y
  }

  lemma AddCommutes(b: Book, p: string, m: int, q: string, n: int)
    ensures AddBalance(AddBalance(b, p, m), q, n) == AddBalance(AddBalance(b, q, n), p, m)
  {
  }

  /** Paying a relay without an account changes nothing, so the remote check for one is not visible in balances. */
  lemma PayOutIsCredited(b: Book, tx: Tx)
    ensures PayOut(b, tx) == Credited(b, tx)
  {
  }

  lemma MirrorCredits(l: Book, r: Book, x: int, tx: Tx)
    requires BookMirrors(l, r, x)
    ensures BookMirrors(PayOut(l, tx), Credited(r, tx), x)
  {
    PayOutIsCredited(l, tx);
    AddCommutes(l, NETWORK, x, tx.to, tx.amount);
    AddCommutes(AddBalance(l, tx.to, tx.amount), NETWORK, x, tx.relay, tx.fee);
  }

  lemma MirrorDebit(l: Book, r: Book, x: int, p: string, units: int)
    requires BookMirrors(l, r, x) && p in l.balance && p != NETWORK && 0 <= units <= BalanceOf(l, p)
    ensures BookMirrors(SetBalance(l, p, BalanceOf(l, p) - units), ForceSubtract(r, p, units), x)
  {
  }

  lemma MirrorTransferBook(l: Book, r: Book, x: int, tx: Tx)
    requires BookMirrors(l, r, x) && tx.kind.Transfer?
    requires tx.from in l.balance && tx.amount >= 0 && tx.fee >= 0 && tx.amount + tx.fee <= BalanceOf(l, tx.from)
    ensures BookMirrors(TransferBook(l, tx), RemoteBook(r, tx), x + if tx.from == NETWORK then tx.amount + tx.fee else 0)
  {
    var units := tx.amount + tx.fee;
    var l' := SetBalance(l, tx.from, BalanceOf(l, tx.from) - units);
    if tx.from == NETWORK {
      assert BookMirrors(l', r, x + units);
      MirrorCredits(l', r, x + units, tx);
    } else {
      MirrorDebit(l, r, x, tx.from, units);
      MirrorCredits(l', ForceSubtract(r, tx.from, units), x, tx);
    }
  }

  /** What a local step posts is accepted as it is by a replica in step. */
  ghost predicate Followed(l: State, r: State, x: int, y: int, step: Step, tx: Tx) {
    var e := Posting(tx, l.book.balance.Keys, true);
    && ApplyRemote(r, tx) == PostRemote(r, tx)
    && Mirrors(Next(l, step), PostRemote(r, tx), x + Spent(e), y + Missed(e))
  }

  lemma MirrorTransfer(l: State, r: State, x: int, y: int, step: Step)
    requires Mirrors(l, r, x, y) && step.DoTransfer? && Local(l, step).Posted?
    ensures Followed(l, r, x, y, step, Local(l, step).tx)
  {
    LocalFeePassesCeiling(step.amount, step.relay);
    MirrorTransferBook(l.book, r.book, x, Local(l, step).tx);
  }

  lemma MirrorEmit(l: State, r: State, x: int, y: int, step: Step)
    requires Mirrors(l, r, x, y) && step.DoEmit? && Local(l, step).Posted?
    ensures Followed(l, r, x, y, step, Local(l, step).tx)
  {
  }

  /** One step of the simulation. */
  lemma {:induction false} FollowStep(l: State, r: State, h: seq<Posting>, step: Step)
    requires Mirrors(l, r, NetworkSpent(h), MissingFees(h)) && (step.DoTransfer? || step.DoEmit?) && Local(l, step).Posted?
    ensures Accepted(l, step) == [Posting(Local(l, step).tx, l.book.balance.Keys, true)]
    ensures Mirrors(Next(l, step), ApplyRemote(r, Local(l, step).tx),
                    NetworkSpent(h + Accepted(l, step)), MissingFees(h + Accepted(l, step)))
  {
    var x, y := NetworkSpent(h), MissingFees(h);
    SpentSnoc(h, Posting(Local(l, step).tx, l.book.balance.Keys, true));
    if step.DoTransfer? { MirrorTransfer(l, r, x, y, step); } else { MirrorEmit(l, r, x, y, step); }
  }

  /** Replaying a local log, one step at a time. */
  lemma LogStep(s: State, steps: seq<Step>)
    requires steps != [] && OwnSteps(steps)
    ensures var init := steps[..|steps| - 1]; var out := Local(Run(s, init), steps[|steps| - 1]);
            Replay(s, Log(s, steps)) ==
            if out.Posted? then ApplyRemote(Replay(s, Log(s, init)), out.tx) else Replay(s, Log(s, init))
  {
    var init := steps[..|steps| - 1];
    var out := Local(Run(s, init), steps[|steps| - 1]);
    if out.Posted? {
      ReplaySnoc(s, Log(s, init), out.tx);
    } else {
      assert Log(s, init) + [] == Log(s, init);
    }
  }

  /** Replaying a local log never rejects and never clamps; the replica differs in at most two known amounts. */
  lemma {:induction false} ReplaySimulates(s: State, steps: seq<Step>)
    requires OwnSteps(steps)
    ensures Mirrors(Run(s, steps), Replay(s, Log(s, steps)),
                    NetworkSpent(History(s, steps)), MissingFees(History(s, steps)))
    decreases |steps|
  {
    if steps != [] {
      var init, last := steps[..|steps| - 1], steps[|steps| - 1];
      ReplaySimulates(s, init);
      LogStep(s, steps);
      if Local(Run(s, init), last).Posted? {
        FollowStep(Run(s, init), Replay(s, Log(s, init)), History(s, init), last);
      } else {
        assert History(s, init) + [] == History(s, init);
      }
    }
  }

  lemma {:induction false} AmountsVanish(h: seq<Posting>)
    requires forall e | e in h :: LocallyPosted(e)
    ensures NetworkSpent(h) >= 0 && MissingFees(h) >= 0
    ensures NetworkSpent(h) == 0 <==> forall e | e in h :: !FromNetwork(e)
    ensures MissingFees(h) == 0 <==> forall e | e in h :: !RelayMissing(e)
  {
    if h != [] {
      var last := h[|h| - 1];
      AmountsVanish(h[..|h| - 1]);
      assert last in h && LocallyPosted(last);
      assert forall e | e in h :: e in h[..|h| - 1] || e == last;
    }
  }

  /**
   * Replay, exactly: table, supply and deficits always agree; balances agree iff no accepted transfer was
   * sent in the name of NETWORK; fee totals agree iff every named relay had an account.
   */
  lemma {:induction false} ReplayExactly(s: State, steps: seq<Step>)
    requires OwnSteps(steps)
    ensures var l, r, h := Run(s, steps), Replay(s, Log(s, steps)), History(s, steps);
            && r.txs == l.txs && r.supply == l.supply && r.book.deficit == l.book.deficit == s.book.deficit
            && (r.book.balance == l.book.balance <==> forall e | e in h :: !FromNetwork(e))
            && (r.relayFees == l.relayFees <==> forall e | e in h :: !RelayMissing(e))
  {
    var h := History(s, steps);
    ReplaySimulates(s, steps);
    LocalHistory(s, steps);
    AmountsVanish(h);
    MirrorBalances(Run(s, steps).book, Replay(s, Log(s, steps)).book, NetworkSpent(h));
  }

  lemma MirrorBalances(l: Book, r: Book, x: int)
    requires BookMirrors(l, r, x)
    ensures r.balance == l.balance <==> x == 0
    ensures r.deficit == l.deficit
  {
  }

  // ---------------------------------------------------------------- snapshots

  datatype Entry = Entry(peer: string, balance: int)

  datatype Snapshot = Snapshot(version: int, transactionCount: nat, totalSupply: int, accounts: seq<Entry>)

  /** Rows are inserted or overwritten one by one. */
  function LoadAccounts(balance: map<string, int>, accounts: seq<Entry>): map<string, int> {
    if accounts == [] then balance
    else
      var e := accounts[|accounts| - 1];
      LoadAccounts(balance, accounts[..|accounts| - 1])[e.peer := e.balance]
  }

  /** The part of a ledger that loading an accepted snapshot changes. */
  function Loaded(s: State, snap: Snapshot): State {
    s.(book := s.book.(balance := LoadAccounts(s.book.balance, snap.accounts)), supply := snap.totalSupply)
  }

  /** The snapshot lists every account once, with its balance, and the supply. */
  ghost predicate SnapshotOf(snap: Snapshot, s: State) {
    && snap.version == 1 && snap.transactionCount == |s.txs| && snap.totalSupply == s.supply
    && (forall i, j | 0 <= i < j < |snap.accounts| :: snap.accounts[i].peer != snap.accounts[j].peer)
    && (forall i | 0 <= i < |snap.accounts| ::
          snap.accounts[i].peer in s.book.balance && s.book.balance[snap.accounts[i].peer] == snap.accounts[i].balance)
    && (forall p | p in s.book.balance :: exists i :: 0 <= i < |snap.accounts| && snap.accounts[i].peer == p)
  }

  lemma {:induction false} LoadAccountsContents(balance: map<string, int>, accounts: seq<Entry>, p: string)
    requires forall i, j | 0 <= i < j < |accounts| :: accounts[i].peer != accounts[j].peer
    ensures forall i | 0 <= i < |accounts| ::
              accounts[i].peer in LoadAccounts(balance, accounts) && LoadAccounts(balance, accounts)[accounts[i].peer] == accounts[i].balance
    ensures (forall i | 0 <= i < |accounts| :: accounts[i].peer != p) ==>
              (p in LoadAccounts(balance, accounts) <==> p in balance)
              && (p in balance ==> LoadAccounts(balance, accounts)[p] == balance[p])
    decreases |accounts|
  {
    if accounts != [] { LoadAccountsContents(balance, accounts[..|accounts| - 1], p); }
  }

  /** Loading into any ledger: listed accounts get the listed balance, the others and everything else stay. */
  lemma LoadedExactly(s: State, snap: Snapshot, p: string)
    requires forall i, j | 0 <= i < j < |snap.accounts| :: snap.accounts[i].peer != snap.accounts[j].peer
    ensures var l := Loaded(s, snap);
            && l.supply == snap.totalSupply && l == s.(book := Book(l.book.balance, s.book.deficit), supply := l.supply)
            && (forall i | 0 <= i < |snap.accounts| && snap.accounts[i].peer == p ::
                  p in l.book.balance && l.book.balance[p] == snap.accounts[i].balance)
            && ((forall i | 0 <= i < |snap.accounts| :: snap.accounts[i].peer != p) ==>
                  (p in l.book.balance <==> p in s.book.balance) && BalanceOf(l.book, p) == BalanceOf(s.book, p))
  {
    LoadAccountsContents(s.book.balance, snap.accounts, p);
  }

  /** Loading a snapshot into a fresh ledger restores balances and supply, and nothing else. */
  lemma SnapshotRoundTrip(s: State, snap: Snapshot)
    requires SnapshotOf(snap, s)
    ensures Loaded(EMPTY, snap) == EMPTY.(book := Book(s.book.balance, map[]), supply := s.supply)
  {
    var loaded := LoadAccounts(map[], snap.accounts);
    forall p
      ensures p in loaded <==> p in s.book.balance
      ensures p in loaded ==> loaded[p] == s.book.balance[p]
    {
      LoadAccountsContents(map[], snap.accounts, p);
    }
    assert loaded == s.book.balance;
  }

  /** `o` continued from the ledger `s`, `r` from its snapshot: balances and supply agree, the rest is split at the snapshot. */
  ghost predicate Continues(s: State, o: State, r: State) {
    && BookContinuesFrom(s.book, o.book, r.book) && r.supply == o.supply
    && o.relayFees == s.relayFees + r.relayFees
    && o.txs == s.txs + r.txs && s.txs.Keys !! r.txs.Keys
  }

  lemma {:induction false} ContinuesStep(s: State, o: State, r: State, tx: Tx)
    requires Continues(s, o, r) && tx.id !in s.txs
    ensures Continues(s, ApplyRemote(o, tx), ApplyRemote(r, tx))
  {
    if tx.id !in o.txs && Admissible(o.supply, tx) {
      var t := Effective(o.supply, tx);
      BookContinues(s.book, o.book, r.book, t);
      assert o.txs[t.id := t] == s.txs + r.txs[t.id := t];
    }
  }

  ghost predicate BookContinuesFrom(s: Book, o: Book, r: Book) {
    r.balance == o.balance && forall p :: DeficitOf(o, p) == DeficitOf(s, p) + DeficitOf(r, p)
  }

  lemma ForceContinues(s: Book, o: Book, r: Book, p: string, units: int)
    requires BookContinuesFrom(s, o, r)
    ensures BookContinuesFrom(s, ForceSubtract(o, p, units), ForceSubtract(r, p, units))
  {
  }

  lemma AddContinues(s: Book, o: Book, r: Book, p: string, amount: int)
    requires BookContinuesFrom(s, o, r)
    ensures BookContinuesFrom(s, AddBalance(o, p, amount), AddBalance(r, p, amount))
  {
  }

  lemma {:induction false} BookContinues(s: Book, o: Book, r: Book, tx: Tx)
    requires BookContinuesFrom(s, o, r)
    ensures BookContinuesFrom(s, RemoteBook(o, tx), RemoteBook(r, tx))
  {
    var debits := tx.kind.Transfer? && tx.from != NETWORK;
    var o1 := if debits then ForceSubtract(o, tx.from, tx.amount + tx.fee) else o;
    var r1 := if debits then ForceSubtract(r, tx.from, tx.amount + tx.fee) else r;
    if debits { ForceContinues(s, o, r, tx.from, tx.amount + tx.fee); }
    AddContinues(s, o1, r1, tx.to, tx.amount);
    if RelayPaid(tx, o.balance.Keys) {
      AddContinues(s, AddBalance(o1, tx.to, tx.amount), AddBalance(r1, tx.to, tx.amount), tx.relay, tx.fee);
    }
  }

  lemma {:induction false} ContinuesAtStart(s: State, snap: Snapshot)
    requires SnapshotOf(snap, s)
    ensures Continues(s, s, Loaded(EMPTY, snap))
  {
    SnapshotRoundTrip(s, snap);
  }

  /**
   * Snapshot plus suffix equals full history: restoring the snapshot of `s` and applying transactions that
   * `s` had not recorded gives the balances and supply of the ledger that never restarted.
   */
  lemma {:induction false} SnapshotThenSuffix(s: State, snap: Snapshot, log: seq<Tx>)
    requires SnapshotOf(snap, s)
    requires forall i | 0 <= i < |log| :: log[i].id !in s.txs
    ensures Continues(s, Replay(s, log), Replay(Loaded(EMPTY, snap), log))
    decreases |log|
  {
    if log == [] {
      ContinuesAtStart(s, snap);
    } else {
      var init, tx := log[..|log| - 1], log[|log| - 1];
      SnapshotThenSuffix(s, snap, init);
      var o, r := Replay(s, init), Replay(Loaded(EMPTY, snap), init);
      ContinuesStep(s, o, r, tx);
    }
  }

  /** A node restored from the snapshot follows the original node's own later operations. */
  lemma {:induction false} SnapshotFollowsLocalRun(s: State, snap: Snapshot, steps: seq<Step>)
    requires SnapshotOf(snap, s) && OwnSteps(steps)
    requires forall e | e in History(s, steps) :: !FromNetwork(e)
    ensures var r := Replay(Loaded(EMPTY, snap), Log(s, steps));
            r.book.balance == Run(s, steps).book.balance && r.supply == Run(s, steps).supply
  {
    ReplayExactly(s, steps);
    LogIsFresh(s, steps);
    SnapshotThenSuffix(s, snap, Log(s, steps));
  }

  lemma {:induction false} LogIsFresh(s: State, steps: seq<Step>)
    requires OwnSteps(steps)
    ensures s.txs.Keys <= Run(s, steps).txs.Keys
    ensures forall i | 0 <= i < |Log(s, steps)| :: Log(s, steps)[i].id !in s.txs
    decreases |steps|
  {
    if steps != [] { LogIsFresh(s, steps[..|steps| - 1]); }
  }

  lemma RecipientGains(b: Book, tx: Tx)
    requires tx.from != tx.to && tx.to in b.balance && tx.amount > 0 && tx.fee >= 0
    ensures BalanceOf(RemoteBook(b, tx), tx.to) > BalanceOf(b, tx.to)
  {
  }

  /**
   * The snapshot forgets which transactions it covers: for a transaction that moves something, the restored
   * ledger stays in step iff the original had not recorded it.
   */
  lemma {:induction false} ResendExactly(s: State, snap: Snapshot, tx: Tx)
    requires SnapshotOf(snap, s) && tx.amount > 0 && tx.fee >= 0 && tx.from != tx.to && tx.to in s.book.balance
    requires Admissible(s.supply, tx)
    ensures var o, r := ApplyRemote(s, tx), ApplyRemote(Loaded(EMPTY, snap), tx);
            (r.book.balance == o.book.balance && r.supply == o.supply) <==> tx.id !in s.txs
  {
    SnapshotRoundTrip(s, snap);
    var blank := Loaded(EMPTY, snap);
    if tx.id in s.txs {
      RecipientGains(blank.book, Effective(s.supply, tx));
    } else {
      ContinuesStep(s, s, blank, tx);
    }
  }
}
