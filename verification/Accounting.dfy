/** What every run of ledger steps keeps: the ledger equation, conservation, the hard cap, deficits. */
module Accounting {
  import opened Lux
  import opened Ledger
  import opened Sums

  /** A transaction as it was posted: who was registered at that moment, and by which path it came. */
  datatype Posting = Posting(tx: Tx, registered: set<string>, local: bool)

  /** What a step posts: nothing or one transaction. */
  function Accepted(s: State, step: Step): seq<Posting> {
    match step
    case Create(_) => []
    case Remote(tx) =>
      if tx.id in s.txs || !Admissible(s.supply, tx) then []
      else [Posting(Effective(s.supply, tx), s.book.balance.Keys, false)]
    case _ =>
      var r := Local(s, step);
      if r.Posted? then [Posting(r.tx, s.book.balance.Keys, true)] else []
  }

  /** All postings of a run, oldest first. */
  function History(s: State, steps: seq<Step>): seq<Posting> {
    if steps == [] then []
    else
      var init := steps[..|steps| - 1];
      History(s, init) + Accepted(Run(s, init), steps[|steps| - 1])
  }

  /** Amounts and fees of remote transactions are validated before they reach the ledger. */
  predicate Validated(step: Step) {
    step.Remote? ==> step.tx.amount >= 0 && step.tx.fee >= 0
  }

  predicate AllValidated(steps: seq<Step>) {
    forall i | 0 <= i < |steps| :: Validated(steps[i])
  }

  // ---------------------------------------------------------------- per-account and global effect of a posting

  predicate Debits(e: Posting) {
    e.tx.kind.Transfer? && (e.local || e.tx.from != NETWORK)
  }

  /** What a posting adds to the net holding of account `p`. */
  function Delta(e: Posting, p: string): int {
    (if e.tx.to == p && p in e.registered then e.tx.amount else 0)
    + (if e.tx.relay == p && RelayPaid(e.tx, e.registered) then e.tx.fee else 0)
    - (if e.tx.from == p && Debits(e) then e.tx.amount + e.tx.fee else 0)
  }

  /** Units that leave circulation (or, when negative, enter it unbacked) with a posting. */
  function Leak(e: Posting): int {
    (if Debits(e) then e.tx.amount + e.tx.fee else 0) + Minted(e.tx)
    - (if e.tx.to in e.registered then e.tx.amount else 0)
    - (if RelayPaid(e.tx, e.registered) then e.tx.fee else 0)
  }

  function DeltaTotal(h: seq<Posting>, p: string): int {
    if h == [] then 0 else DeltaTotal(h[..|h| - 1], p) + Delta(h[|h| - 1], p)
  }

  function LeakTotal(h: seq<Posting>): int {
    if h == [] then 0 else LeakTotal(h[..|h| - 1]) + Leak(h[|h| - 1])
  }

  lemma TotalsSnoc(h: seq<Posting>, e: Posting, p: string)
    ensures DeltaTotal(h + [e], p) == DeltaTotal(h, p) + Delta(e, p)
    ensures LeakTotal(h + [e]) == LeakTotal(h) + Leak(e)
  {
  }

  function Debited(b: Book, e: Posting): Book {
    if !Debits(e) then b
    else if e.local then SetBalance(b, e.tx.from, BalanceOf(b, e.tx.from) - (e.tx.amount + e.tx.fee))
    else ForceSubtract(b, e.tx.from, e.tx.amount + e.tx.fee)
  }

  /** What holds of a posting made in state `s`. */
  predicate PostingFacts(s: State, e: Posting) {
    && e.registered == s.book.balance.Keys
    && e.tx.id !in s.txs
    && e.tx.amount >= 0 && e.tx.fee >= 0 && (e.local ==> e.tx.amount > 0)
    && (e.local && Debits(e) ==> e.tx.from in s.book.balance && BalanceOf(s.book, e.tx.from) >= e.tx.amount + e.tx.fee)
  }

  /** Every step is a create, a no-op, or posts one transaction under a fresh id: a debit, then the credits. */
  lemma StepShape(s: State, step: Step)
    requires Validated(step)
    ensures |Accepted(s, step)| <= 1
    ensures Accepted(s, step) == [] ==>
              Next(s, step) == (if step.Create? then s.(book := CreateAccount(s.book, step.peer)) else s)
    ensures forall e | e in Accepted(s, step) ::
              && PostingFacts(s, e)
              && Next(s, step).txs == s.txs[e.tx.id := e.tx]
              && Next(s, step).supply == s.supply + Minted(e.tx)
              && Next(s, step).book == Credited(Debited(s.book, e), e.tx)
  {
  }

  lemma NetDebited(s: State, e: Posting, p: string)
    requires PostingFacts(s, e)
    ensures Net(Debited(s.book, e), p)
         == Net(s.book, p) - (if e.tx.from == p && Debits(e) then e.tx.amount + e.tx.fee else 0)
    ensures Debited(s.book, e).balance.Keys == s.book.balance.Keys
  {
  }

  lemma NetCredited(b: Book, tx: Tx, p: string)
    ensures Net(Credited(b, tx), p)
         == Net(b, p) + (if tx.to == p && p in b.balance then tx.amount else 0)
                      + (if tx.relay == p && RelayPaid(tx, b.balance.Keys) then tx.fee else 0)
    ensures Credited(b, tx).balance.Keys == b.balance.Keys
  {
  }

  lemma PostingNet(s: State, e: Posting, p: string)
    requires PostingFacts(s, e)
    ensures Net(Credited(Debited(s.book, e), e.tx), p) == Net(s.book, p) + Delta(e, p)
  {
    NetDebited(s, e, p);
    NetCredited(Debited(s.book, e), e.tx, p);
  }

  lemma {:induction false} StepNet(s: State, step: Step, p: string)
    requires Validated(step)
    ensures Net(Next(s, step).book, p) == Net(s.book, p) + DeltaTotal(Accepted(s, step), p)
  {
    StepShape(s, step);
    if Accepted(s, step) != [] {
      var e := Accepted(s, step)[0];
      assert Accepted(s, step) == [] + [e];
      TotalsSnoc([], e, p);
      PostingNet(s, e, p);
    }
  }

  /** Ledger equation over the history: every account's net holding is the fold of everything posted. */
  lemma {:induction false} NetIsHistory(s: State, steps: seq<Step>, p: string)
    requires AllValidated(steps)
    ensures Net(Run(s, steps).book, p) == Net(s.book, p) + DeltaTotal(History(s, steps), p)
  {
    if steps != [] {
      var init, last := steps[..|steps| - 1], steps[|steps| - 1];
      NetIsHistory(s, init, p);
      StepNet(Run(s, init), last, p);
      var h, a := History(s, init), Accepted(Run(s, init), last);
      if a == [] { assert h + a == h; }
      else {
        TotalsSnoc(h, a[0], p);
        TotalsSnoc([], a[0], p);
        assert a == [a[0]] == [] + [a[0]];
      }
    }
  }

  // ---------------------------------------------------------------- conservation

  /** Sum of balances minus sum of deficits. */
  ghost function Worth(b: Book): int {
    Sum(b.balance) - Sum(b.deficit)
  }

  lemma WorthSet(b: Book, p: string, v: int)
    ensures Worth(SetBalance(b, p, v)) == Worth(b) + (if p in b.balance then v - b.balance[p] else 0)
  {
    if p in b.balance { SumUpdate(b.balance, p, v); }
  }

  lemma WorthForce(b: Book, p: string, amount: int)
    requires amount >= 0
    ensures Worth(ForceSubtract(b, p, amount)) == Worth(b) - amount
  {
    var next := BalanceOf(b, p) - amount;
    if next < 0 {
      var d := b.(deficit := b.deficit[p := DeficitOf(b, p) - next]);
      if p in b.deficit { SumUpdate(b.deficit, p, d.deficit[p]); } else { SumInsert(b.deficit, p, d.deficit[p]); }
      WorthSet(d, p, 0);
    } else {
      WorthSet(b, p, next);
    }
  }

  lemma WorthCredited(b: Book, tx: Tx)
    ensures Worth(Credited(b, tx))
         == Worth(b) + (if tx.to in b.balance then tx.amount else 0)
                     + (if RelayPaid(tx, b.balance.Keys) then tx.fee else 0)
  {
    var c := AddBalance(b, tx.to, tx.amount);
    WorthSet(b, tx.to, BalanceOf(b, tx.to) + tx.amount);
    if RelayPaid(tx, b.balance.Keys) { WorthSet(c, tx.relay, BalanceOf(c, tx.relay) + tx.fee); }
  }

  lemma WorthDebited(s: State, e: Posting)
    requires PostingFacts(s, e)
    ensures Worth(Debited(s.book, e)) == Worth(s.book) - (if Debits(e) then e.tx.amount + e.tx.fee else 0)
  {
    if Debits(e) {
      if e.local { WorthSet(s.book, e.tx.from, BalanceOf(s.book, e.tx.from) - (e.tx.amount + e.tx.fee)); }
      else { WorthForce(s.book, e.tx.from, e.tx.amount + e.tx.fee); }
    }
  }

  lemma PostingWorth(s: State, e: Posting)
    requires PostingFacts(s, e)
    ensures Worth(Credited(Debited(s.book, e), e.tx)) == Worth(s.book) + Minted(e.tx) - Leak(e)
  {
    WorthDebited(s, e);
    NetDebited(s, e, "");
    WorthCredited(Debited(s.book, e), e.tx);
  }

  lemma StepWorth(s: State, step: Step)
    requires Validated(step)
    ensures Worth(Next(s, step).book) - Next(s, step).supply
         == Worth(s.book) - s.supply - LeakTotal(Accepted(s, step))
  {
    StepShape(s, step);
    if Accepted(s, step) == [] {
      if step.Create? && step.peer !in s.book.balance { SumInsert(s.book.balance, step.peer, 0); }
    } else {
      var e := Accepted(s, step)[0];
      assert Accepted(s, step) == [] + [e];
      TotalsSnoc([], e, "");
      PostingWorth(s, e);
    }
  }

  /**
   * Conservation, with no restriction on the run: balances minus deficits move with the supply, except
   * for exactly what the postings leak.
   */
  lemma {:induction false} Conservation(s: State, steps: seq<Step>)
    requires AllValidated(steps)
    ensures Worth(Run(s, steps).book) - Run(s, steps).supply
         == Worth(s.book) - s.supply - LeakTotal(History(s, steps))
  {
    if steps != [] {
      var init, last := steps[..|steps| - 1], steps[|steps| - 1];
      Conservation(s, init);
      StepWorth(Run(s, init), last);
      var h, a := History(s, init), Accepted(Run(s, init), last);
      StepShape(Run(s, init), last);
      if a == [] { assert h + a == h; }
      else {
        TotalsSnoc(h, a[0], "");
        TotalsSnoc([], a[0], "");
        assert a == [a[0]] == [] + [a[0]];
      }
    }
  }

  /**
   * A remote emission puts the fee of a registered relay into circulation unbacked: an accepted one keeps
   * circulation and supply in step iff it pays no relay.
   */
  lemma EmissionFeeIsUnbacked(s: State, tx: Tx)
    requires tx.kind.Emission? && tx.id !in s.txs && tx.amount >= 0 && tx.fee >= 0
    requires Admissible(s.supply, tx) && tx.to in s.book.balance
    ensures var after := ApplyRemote(s, tx); var paid := RelayPaid(tx, s.book.balance.Keys);
            && Worth(after.book) - after.supply == Worth(s.book) - s.supply + (if paid then tx.fee else 0)
            && (Worth(after.book) - after.supply == Worth(s.book) - s.supply <==> !paid)
  {
    var e := Posting(Effective(s.supply, tx), s.book.balance.Keys, false);
    StepWorth(s, Remote(tx));
    TotalsSnoc([], e, "");
    assert Accepted(s, Remote(tx)) == [] + [e];
  }

  /** Recipient registered, and nothing credited that was neither debited nor minted. */
  predicate Backed(e: Posting) {
    && e.tx.to in e.registered
    && (e.tx.kind.Transfer? ==> Debits(e))
    && (e.tx.kind.Emission? ==> !RelayPaid(e.tx, e.registered))
  }

  function LostFees(h: seq<Posting>): int {
    if h == [] then 0
    else
      var e := h[|h| - 1];
      LostFees(h[..|h| - 1]) + if e.tx.kind.Transfer? && !RelayPaid(e.tx, e.registered) then e.tx.fee else 0
  }

  lemma {:induction false} BackedLeak(h: seq<Posting>)
    requires forall i | 0 <= i < |h| :: Backed(h[i])
    ensures LeakTotal(h) == LostFees(h)
  {
    if h != [] { BackedLeak(h[..|h| - 1]); }
  }

  /**
   * Without transfers from NETWORK, emissions with fees or unregistered recipients, all that ever leaves
   * circulation is the fees of transfers whose relay is absent or has no account.
   */
  lemma {:induction false} ConservationUpToLostFees(steps: seq<Step>)
    requires AllValidated(steps)
    requires forall i | 0 <= i < |History(EMPTY, steps)| :: Backed(History(EMPTY, steps)[i])
    ensures Worth(Run(EMPTY, steps).book) == Run(EMPTY, steps).supply - LostFees(History(EMPTY, steps))
  {
    Conservation(EMPTY, steps);
    BackedLeak(History(EMPTY, steps));
  }

  predicate LocalOnly(steps: seq<Step>) {
    forall i | 0 <= i < |steps| :: !steps[i].Remote?
  }

  /** A relay that was named but had no account: the fee is debited and paid to nobody. */
  predicate RelayMissing(e: Posting) {
    e.tx.relay != "" && e.tx.relay !in e.registered
  }

  predicate LocallyPosted(e: Posting) {
    && e.local && e.tx.to in e.registered
    && (e.tx.kind.Transfer? ==> e.tx.amount > 0 && e.tx.fee == RelayFee(e.tx.amount, e.tx.relay))
    && (e.tx.kind.Emission? ==> e.tx.fee == 0 && e.tx.relay == "")
  }

  lemma {:induction false} LocalHistory(s: State, steps: seq<Step>)
    requires LocalOnly(steps)
    ensures forall e | e in History(s, steps) :: LocallyPosted(e)
    ensures Run(s, steps).book.deficit == s.book.deficit
  {
    if steps != [] {
      LocalHistory(s, steps[..|steps| - 1]);
    }
  }

  lemma {:induction false} LocalLeak(h: seq<Posting>)
    requires forall e | e in h :: LocallyPosted(e)
    ensures LeakTotal(h) >= 0
    ensures LeakTotal(h) == 0 <==> forall e | e in h :: !RelayMissing(e)
  {
    if h != [] {
      var last := h[|h| - 1];
      LocalLeak(h[..|h| - 1]);
      assert last in h && LocallyPosted(last);
      LocalFeePassesCeiling(Max(1, last.tx.amount), last.tx.relay);
      assert forall e | e in h :: e in h[..|h| - 1] || e == last;
    }
  }

  /**
   * With local steps only, the balances add up to the total supply exactly when no accepted transfer
   * named a relay without an account; otherwise they fall short by the fees of those transfers.
   */
  lemma {:induction false} LocalConservation(steps: seq<Step>)
    requires LocalOnly(steps)
    ensures var end := Run(EMPTY, steps);
            && Sum(end.book.balance) == end.supply - LeakTotal(History(EMPTY, steps))
            && (Sum(end.book.balance) == end.supply <==> forall e | e in History(EMPTY, steps) :: !RelayMissing(e))
  {
    Conservation(EMPTY, steps);
    LocalHistory(EMPTY, steps);
    LocalLeak(History(EMPTY, steps));
  }

  // ---------------------------------------------------------------- the transaction table

  /** A quantity that the transaction table determines. */
  datatype Measure =
    | NetOf(p: string)                              // with every credited party registered
    | NetAmong(registered: set<string>, p: string)  // with a fixed set of registered accounts
    | Mints
    | FeesOf                                        // with every named relay registered
    | FeesAmong(registered: set<string>)

  function Eval(m: Measure, tx: Tx): int {
    match m
    case NetOf(p) =>
      (if tx.to == p then tx.amount else 0)
      + (if tx.relay == p && p != "" && tx.fee > 0 then tx.fee else 0)
      - (if tx.from == p && p != NETWORK && tx.kind.Transfer? then tx.amount + tx.fee else 0)
    case NetAmong(registered, p) => Delta(Posting(tx, registered, false), p)
    case Mints => Minted(tx)
    case FeesOf => if tx.fee > 0 && tx.relay != "" then tx.fee else 0
    case FeesAmong(registered) => if RelayPaid(tx, registered) then tx.fee else 0
  }

  function Column(txs: map<string, Tx>, m: Measure): map<string, int> {
    map id | id in txs :: Eval(m, txs[id])
  }

  ghost function TableTotal(txs: map<string, Tx>, m: Measure): int {
    Sum(Column(txs, m))
  }

  lemma TableInsert(txs: map<string, Tx>, tx: Tx, m: Measure)
    requires tx.id !in txs
    ensures TableTotal(txs[tx.id := tx], m) == TableTotal(txs, m) + Eval(m, tx)
  {
    SumInsert(Column(txs, m), tx.id, Eval(m, tx));
    assert Column(txs[tx.id := tx], m) == Column(txs, m)[tx.id := Eval(m, tx)];
  }

  /** A local transfer in the name of NETWORK: debited here, and on no other node. */
  predicate FromNetwork(e: Posting) {
    e.local && e.tx.kind.Transfer? && e.tx.from == NETWORK
  }

  function Spent(e: Posting): int {
    if FromNetwork(e) then e.tx.amount + e.tx.fee else 0
  }

  function NetworkSpent(h: seq<Posting>): int {
    if h == [] then 0 else NetworkSpent(h[..|h| - 1]) + Spent(h[|h| - 1])
  }

  /** What the table says of `p` and its account did not see: credits while it had no row, and spending as NETWORK. */
  function Unbooked(e: Posting, p: string): int {
    (if e.tx.to == p && p !in e.registered then e.tx.amount else 0)
    + (if e.tx.relay == p && RelayMissing(e) then e.tx.fee else 0)
    + (if p == NETWORK then Spent(e) else 0)
  }

  function UnbookedTotal(h: seq<Posting>, p: string): int {
    if h == [] then 0 else UnbookedTotal(h[..|h| - 1], p) + Unbooked(h[|h| - 1], p)
  }

  /** Whatever the posting credits to `p` finds its account, and it is not spent in the name of NETWORK. */
  predicate Booked(e: Posting, p: string) {
    && (e.tx.to == p && e.tx.amount > 0 ==> p in e.registered)
    && (e.tx.relay == p && e.tx.fee > 0 ==> !RelayMissing(e))
    && !(p == NETWORK && FromNetwork(e))
  }

  /** A fee that the remote path does not count, because the relay has no account. */
  function Uncounted(e: Posting): int {
    if !e.local && RelayMissing(e) then e.tx.fee else 0
  }

  function UncountedTotal(h: seq<Posting>): int {
    if h == [] then 0 else UncountedTotal(h[..|h| - 1]) + Uncounted(h[|h| - 1])
  }

  /** Amounts and fees of postings are non-negative, and those of local ones move something. */
  predicate Sane(e: Posting) {
    e.tx.amount >= 0 && e.tx.fee >= 0 && (e.local ==> e.tx.amount > 0)
  }

  lemma {:induction false} HistorySane(s: State, steps: seq<Step>)
    requires AllValidated(steps)
    ensures forall e | e in History(s, steps) :: Sane(e)
  {
    if steps != [] {
      HistorySane(s, steps[..|steps| - 1]);
      StepShape(Run(s, steps[..|steps| - 1]), steps[|steps| - 1]);
    }
  }

  lemma UnbookedSnoc(h: seq<Posting>, e: Posting, p: string)
    ensures UnbookedTotal(h + [e], p) == UnbookedTotal(h, p) + Unbooked(e, p)
    ensures UncountedTotal(h + [e]) == UncountedTotal(h) + Uncounted(e)
    ensures NetworkSpent(h + [e]) == NetworkSpent(h) + Spent(e)
  {
    assert (h + [e])[..|h|] == h;
  }

  lemma DeltaBooked(e: Posting, p: string)
    requires Sane(e)
    ensures Delta(e, p) == Eval(NetOf(p), e.tx) - Unbooked(e, p)
  {
  }

  lemma EquationStep(s: State, h: seq<Posting>, step: Step, p: string)
    requires Validated(step) && Net(s.book, p) == TableTotal(s.txs, NetOf(p)) - UnbookedTotal(h, p)
    ensures Net(Next(s, step).book, p)
         == TableTotal(Next(s, step).txs, NetOf(p)) - UnbookedTotal(h + Accepted(s, step), p)
  {
    StepShape(s, step);
    StepNet(s, step, p);
    if Accepted(s, step) == [] {
      assert h + [] == h;
    } else {
      var e := Accepted(s, step)[0];
      assert Accepted(s, step) == [e] == [] + [e];
      TotalsSnoc([], e, p);
      UnbookedSnoc(h, e, p);
      DeltaBooked(e, p);
      TableInsert(s.txs, e.tx, NetOf(p));
    }
  }

  lemma {:induction false} EquationUpToUnbooked(steps: seq<Step>, p: string)
    requires AllValidated(steps)
    ensures Net(Run(EMPTY, steps).book, p)
         == TableTotal(Run(EMPTY, steps).txs, NetOf(p)) - UnbookedTotal(History(EMPTY, steps), p)
  {
    if steps == [] {
      assert Column(map[], NetOf(p)) == map[];
    } else {
      var init := steps[..|steps| - 1];
      EquationUpToUnbooked(init, p);
      EquationStep(Run(EMPTY, init), History(EMPTY, init), steps[|steps| - 1], p);
    }
  }

  lemma {:induction false} UnbookedVanishes(h: seq<Posting>, p: string)
    requires forall e | e in h :: Sane(e)
    ensures UnbookedTotal(h, p) >= 0
    ensures UnbookedTotal(h, p) == 0 <==> forall e | e in h :: Booked(e, p)
  {
    if h != [] {
      var last := h[|h| - 1];
      UnbookedVanishes(h[..|h| - 1], p);
      assert last in h && Sane(last);
      assert Unbooked(last, p) >= 0 && (Unbooked(last, p) == 0 <==> Booked(last, p));
      assert forall e | e in h :: e in h[..|h| - 1] || e == last;
    }
  }

  /**
   * Ledger equation, exactly: over any mix of local and remote steps from an empty ledger, an account's
   * balance minus deficit is the fold of the transaction table, less what was never booked on it. The two
   * agree iff every credit found the account and nothing was spent locally in the name of NETWORK.
   */
  lemma {:induction false} LedgerEquation(steps: seq<Step>, p: string)
    requires AllValidated(steps)
    ensures var s, h := Run(EMPTY, steps), History(EMPTY, steps);
            && Net(s.book, p) == TableTotal(s.txs, NetOf(p)) - UnbookedTotal(h, p)
            && (Net(s.book, p) == TableTotal(s.txs, NetOf(p)) <==> forall e | e in h :: Booked(e, p))
  {
    EquationUpToUnbooked(steps, p);
    HistorySane(EMPTY, steps);
    UnbookedVanishes(History(EMPTY, steps), p);
  }

  /** The parties a step credits are registered. */
  predicate Regular(s: State, step: Step) {
    match step
    case Create(_) => true
    case DoTransfer(_, _, _, _, _, relay) => relay == "" || relay in s.book.balance
    case DoEmit(_, _, _, _, _, _) => true
    case Remote(tx) => tx.to in s.book.balance && (tx.relay == "" || tx.relay in s.book.balance)
  }

  predicate RegularRun(s: State, steps: seq<Step>) {
    forall i | 0 <= i < |steps| :: Regular(Run(s, steps[..i]), steps[i])
  }

  lemma BookedSnoc(h: seq<Posting>, a: seq<Posting>, p: string)
    requires |a| <= 1
    requires forall e | e in a :: Unbooked(e, p) == (if p == NETWORK then Spent(e) else 0) && Uncounted(e) == 0
    requires UnbookedTotal(h, p) == (if p == NETWORK then NetworkSpent(h) else 0) && UncountedTotal(h) == 0
    ensures UnbookedTotal(h + a, p) == (if p == NETWORK then NetworkSpent(h + a) else 0) && UncountedTotal(h + a) == 0
  {
    if a == [] {
      assert h + a == h;
    } else {
      assert a == [a[0]];
      UnbookedSnoc(h, a[0], p);
    }
  }

  lemma RegularPosting(s: State, step: Step, p: string)
    requires Validated(step) && Regular(s, step)
    ensures forall e | e in Accepted(s, step) ::
              Unbooked(e, p) == (if p == NETWORK then Spent(e) else 0) && Uncounted(e) == 0
  {
  }

  lemma {:induction false} RegularIsBooked(s: State, steps: seq<Step>, p: string)
    requires AllValidated(steps) && RegularRun(s, steps)
    ensures UnbookedTotal(History(s, steps), p) == if p == NETWORK then NetworkSpent(History(s, steps)) else 0
    ensures UncountedTotal(History(s, steps)) == 0
    decreases |steps|
  {
    if steps != [] {
      var init, last := steps[..|steps| - 1], steps[|steps| - 1];
      assert forall i | 0 <= i < |init| :: init[..i] == steps[..i];
      RegularIsBooked(s, init, p);
      var h, a := History(s, init), Accepted(Run(s, init), last);
      assert Regular(Run(s, steps[..|steps| - 1]), last);
      RegularPosting(Run(s, init), last, p);
      BookedSnoc(h, a, p);
    }
  }

  /** With registered parties the equation holds for every account but NETWORK, whose account also shows what it spent locally. */
  lemma {:induction false} RegularLedgerEquation(steps: seq<Step>, p: string)
    requires AllValidated(steps) && RegularRun(EMPTY, steps)
    ensures var s, h := Run(EMPTY, steps), History(EMPTY, steps);
            && (p != NETWORK ==> Net(s.book, p) == TableTotal(s.txs, NetOf(p)))
            && Net(s.book, NETWORK) == TableTotal(s.txs, NetOf(NETWORK)) - NetworkSpent(h)
            && (Net(s.book, NETWORK) == TableTotal(s.txs, NetOf(NETWORK)) <==> forall e | e in h :: !FromNetwork(e))
  {
    EquationUpToUnbooked(steps, p);
    EquationUpToUnbooked(steps, NETWORK);
    RegularIsBooked(EMPTY, steps, p);
    RegularIsBooked(EMPTY, steps, NETWORK);
    HistorySane(EMPTY, steps);
    SpentVanishes(History(EMPTY, steps));
  }

  lemma {:induction false} SpentVanishes(h: seq<Posting>)
    requires forall e | e in h :: Sane(e)
    ensures NetworkSpent(h) >= 0
    ensures NetworkSpent(h) == 0 <==> forall e | e in h :: !FromNetwork(e)
  {
    if h != [] {
      var last := h[|h| - 1];
      SpentVanishes(h[..|h| - 1]);
      assert last in h && Sane(last);
      assert forall e | e in h :: e in h[..|h| - 1] || e == last;
    }
  }

  lemma FeeStep(s: State, h: seq<Posting>, step: Step)
    requires Validated(step) && s.relayFees == TableTotal(s.txs, FeesOf) - UncountedTotal(h)
    ensures Next(s, step).relayFees == TableTotal(Next(s, step).txs, FeesOf) - UncountedTotal(h + Accepted(s, step))
  {
    StepShape(s, step);
    if Accepted(s, step) == [] {
      assert h + [] == h;
    } else {
      var e := Accepted(s, step)[0];
      assert Accepted(s, step) == [e];
      UnbookedSnoc(h, e, "");
      TableInsert(s.txs, e.tx, FeesOf);
      FeeCounted(s, step);
    }
  }

  lemma FeeCounted(s: State, step: Step)
    requires Validated(step)
    ensures forall e | e in Accepted(s, step) ::
              Next(s, step).relayFees == s.relayFees + Eval(FeesOf, e.tx) - Uncounted(e)
  {
  }

  /**
   * Over any run from an empty ledger the relay-fee total is the sum of the recorded fees, less those of
   * remote transactions whose relay had no account; the two agree iff there were none.
   */
  lemma {:induction false} FeeEquation(steps: seq<Step>)
    requires AllValidated(steps)
    ensures var s, h := Run(EMPTY, steps), History(EMPTY, steps);
            && s.relayFees == TableTotal(s.txs, FeesOf) - UncountedTotal(h)
            && (s.relayFees == TableTotal(s.txs, FeesOf) <==>
                forall e | e in h :: e.local || e.tx.fee == 0 || !RelayMissing(e))
  {
    FeesUpToUncounted(steps);
    HistorySane(EMPTY, steps);
    UncountedVanishes(History(EMPTY, steps));
  }

  lemma {:induction false} FeesUpToUncounted(steps: seq<Step>)
    requires AllValidated(steps)
    ensures Run(EMPTY, steps).relayFees == TableTotal(Run(EMPTY, steps).txs, FeesOf) - UncountedTotal(History(EMPTY, steps))
  {
    if steps == [] {
      assert Column(map[], FeesOf) == map[];
    } else {
      var init := steps[..|steps| - 1];
      FeesUpToUncounted(init);
      FeeStep(Run(EMPTY, init), History(EMPTY, init), steps[|steps| - 1]);
    }
  }

  lemma {:induction false} UncountedVanishes(h: seq<Posting>)
    requires forall e | e in h :: Sane(e)
    ensures UncountedTotal(h) >= 0
    ensures UncountedTotal(h) == 0 <==> forall e | e in h :: e.local || e.tx.fee == 0 || !RelayMissing(e)
  {
    if h != [] {
      var last := h[|h| - 1];
      UncountedVanishes(h[..|h| - 1]);
      assert last in h && Sane(last);
      assert forall e | e in h :: e in h[..|h| - 1] || e == last;
    }
  }

  /** Every row of the emissions table belongs to a recorded emission, with the same recipient and amount. */
  predicate EmissionsMatch(s: State) {
    forall id | id in s.emissions ::
      id in s.txs && s.txs[id].kind.Emission? && s.txs[id].to == s.emissions[id].peer && s.txs[id].amount == s.emissions[id].amount
  }

  /** Every recorded emission has its row; remote emissions are recorded without one. */
  predicate EmissionsComplete(s: State) {
    forall id | id in s.txs && s.txs[id].kind.Emission? :: id in s.emissions
  }

  lemma {:induction false} EmissionsAccounted(steps: seq<Step>)
    ensures EmissionsMatch(Run(EMPTY, steps))
    ensures LocalOnly(steps) ==> EmissionsComplete(Run(EMPTY, steps))
  {
    if steps != [] { EmissionsAccounted(steps[..|steps| - 1]); }
  }

  // ---------------------------------------------------------------- hard cap

  /** The supply never shrinks, never passes the cap, and is the sum of the recorded emissions. */
  lemma {:induction false} HardCap(s: State, steps: seq<Step>)
    requires AllValidated(steps) && s.supply <= HARD_CAP
    ensures s.supply <= Run(s, steps).supply <= HARD_CAP
    ensures Run(s, steps).supply - TableTotal(Run(s, steps).txs, Mints) == s.supply - TableTotal(s.txs, Mints)
    decreases |steps|
  {
    if steps != [] {
      var init, last := steps[..|steps| - 1], steps[|steps| - 1];
      HardCap(s, init);
      StepShape(Run(s, init), last);
      if Accepted(Run(s, init), last) != [] {
        TableInsert(Run(s, init).txs, Accepted(Run(s, init), last)[0].tx, Mints);
      }
    }
  }

  /** An emission by either path mints the requested amount or what is left under the cap. */
  lemma EmissionMintsRemainder(s: State, step: Step)
    requires s.supply <= HARD_CAP && Validated(step)
    requires step.DoEmit? || (step.Remote? && step.tx.kind.Emission?)
    ensures var requested := if step.DoEmit? then step.amount else step.tx.amount;
            forall e | e in Accepted(s, step) ::
              && e.tx.amount == Min(requested, HARD_CAP - s.supply)
              && Next(s, step).supply == s.supply + e.tx.amount
  {
  }

  // ---------------------------------------------------------------- deficits

  datatype Move = Credit(units: int) | Debit(units: int)

  function CreditsOf(tx: Tx, registered: set<string>, p: string): seq<Move> {
    (if tx.to == p then [Credit(tx.amount)] else [])
    + (if RelayPaid(tx, registered) && tx.relay == p then [Credit(tx.fee)] else [])
  }

  function DebitsOf(e: Posting, p: string): seq<Move> {
    if Debits(e) && e.tx.from == p then [Debit(e.tx.amount + e.tx.fee)] else []
  }

  /** The credits and forced debits that a history makes on account `p`, in program order. */
  function Moves(h: seq<Posting>, p: string): seq<Move> {
    if h == [] then []
    else
      var e := h[|h| - 1];
      Moves(h[..|h| - 1], p) + DebitsOf(e, p) + CreditsOf(e.tx, e.registered, p)
  }

  /** The unclamped balance after the first `k` moves. */
  function Running(start: int, ms: seq<Move>, k: nat): int
    requires k <= |ms|
  {
    if k == 0 then start
    else Running(start, ms, k - 1) + match ms[k - 1] case Credit(n) => n case Debit(n) => -n
  }

  /** `w` is the largest amount by which the unclamped balance fell below zero over all prefixes, or 0. */
  ghost predicate WorstShortfall(start: int, ms: seq<Move>, w: int) {
    && w >= 0
    && (forall k | 0 <= k <= |ms| :: Running(start, ms, k) + w >= 0)
    && (w == 0 || exists k :: 0 <= k <= |ms| && Running(start, ms, k) + w == 0)
  }

  /** Stored balance and deficit of `p` relative to its start, given the moves so far. */
  ghost predicate Settled(b: Book, p: string, balance: int, deficit: int, ms: seq<Move>) {
    var w := DeficitOf(b, p) - deficit;
    WorstShortfall(balance, ms, w) && BalanceOf(b, p) == Running(balance, ms, |ms|) + w
  }

  lemma {:induction false} RunningPrefix(start: int, ms: seq<Move>, m: Move, k: nat)
    requires k <= |ms|
    ensures Running(start, ms + [m], k) == Running(start, ms, k)
  {
    if k > 0 { RunningPrefix(start, ms, m, k - 1); }
  }

  lemma ShortfallSnoc(start: int, ms: seq<Move>, w: int, m: Move, w': int)
    requires WorstShortfall(start, ms, w) && m.units >= 0
    requires w' == if m.Debit? then Max(w, m.units - Running(start, ms, |ms|)) else w
    ensures WorstShortfall(start, ms + [m], w')
    ensures Running(start, ms + [m], |ms| + 1)
         == Running(start, ms, |ms|) + match m case Credit(n) => n case Debit(n) => -n
  {
    var ms' := ms + [m];
    RunningPrefix(start, ms, m, |ms|);
    forall k | 0 <= k <= |ms'|
      ensures Running(start, ms', k) + w' >= 0
    {
      if k <= |ms| { RunningPrefix(start, ms, m, k); }
    }
    if w' == w && w != 0 {
      var k :| 0 <= k <= |ms| && Running(start, ms, k) + w == 0;
      RunningPrefix(start, ms, m, k);
      assert Running(start, ms', k) + w' == 0;
    } else if w' != w {
      assert Running(start, ms', |ms'|) + w' == 0;
    }
  }

  lemma SettleMove(b: Book, b': Book, p: string, balance: int, deficit: int, ms: seq<Move>, m: Move)
    requires Settled(b, p, balance, deficit, ms) && m.units >= 0 && p in b.balance
    requires b' == if m.Credit? then AddBalance(b, p, m.units) else ForceSubtract(b, p, m.units)
    ensures Settled(b', p, balance, deficit, ms + [m]) && p in b'.balance
  {
    ShortfallSnoc(balance, ms, DeficitOf(b, p) - deficit, m, DeficitOf(b', p) - deficit);
  }

  lemma SettleDebits(s: State, e: Posting, p: string, balance: int, deficit: int, ms: seq<Move>)
    requires PostingFacts(s, e) && p in s.book.balance && Settled(s.book, p, balance, deficit, ms)
    ensures Settled(Debited(s.book, e), p, balance, deficit, ms + DebitsOf(e, p))
    ensures p in Debited(s.book, e).balance
  {
    if DebitsOf(e, p) == [] {
      assert ms + DebitsOf(e, p) == ms;
      assert BalanceOf(Debited(s.book, e), p) == BalanceOf(s.book, p);
      assert DeficitOf(Debited(s.book, e), p) == DeficitOf(s.book, p);
    } else {
      assert Debited(s.book, e) == ForceSubtract(s.book, p, e.tx.amount + e.tx.fee);
      SettleMove(s.book, Debited(s.book, e), p, balance, deficit, ms, DebitsOf(e, p)[0]);
    }
  }

  lemma SettleCredits(b: Book, tx: Tx, p: string, balance: int, deficit: int, ms: seq<Move>)
    requires Settled(b, p, balance, deficit, ms) && p in b.balance && tx.amount >= 0 && tx.fee >= 0
    ensures Settled(Credited(b, tx), p, balance, deficit, ms + CreditsOf(tx, b.balance.Keys, p))
    ensures p in Credited(b, tx).balance
  {
    var c := AddBalance(b, tx.to, tx.amount);
    var m := if tx.to == p then [Credit(tx.amount)] else [];
    assert Settled(c, p, balance, deficit, ms + m) && p in c.balance by {
      if m == [] { assert ms + m == ms; }
      else { SettleMove(b, c, p, balance, deficit, ms, m[0]); }
    }
    if RelayPaid(tx, b.balance.Keys) && tx.relay == p {
      SettleMove(c, Credited(b, tx), p, balance, deficit, ms + m, Credit(tx.fee));
      assert ms + m + [Credit(tx.fee)] == ms + CreditsOf(tx, b.balance.Keys, p);
    } else {
      assert ms + m == ms + CreditsOf(tx, b.balance.Keys, p);
      assert BalanceOf(Credited(b, tx), p) == BalanceOf(c, p);
    }
  }

  lemma {:induction false} SettlePosting(s: State, h: seq<Posting>, e: Posting, p: string, balance: int, deficit: int)
    requires PostingFacts(s, e) && p in s.book.balance && Settled(s.book, p, balance, deficit, Moves(h, p))
    ensures p in Credited(Debited(s.book, e), e.tx).balance
    ensures Settled(Credited(Debited(s.book, e), e.tx), p, balance, deficit, Moves(h + [e], p))
  {
    SettleDebits(s, e, p, balance, deficit, Moves(h, p));
    NetDebited(s, e, p);
    SettleCredits(Debited(s.book, e), e.tx, p, balance, deficit, Moves(h, p) + DebitsOf(e, p));
    assert (h + [e])[..|h|] == h;
  }

  lemma {:induction false} SettleStep(s: State, h: seq<Posting>, step: Step, p: string, balance: int, deficit: int)
    requires Validated(step) && p in s.book.balance && Settled(s.book, p, balance, deficit, Moves(h, p))
    ensures p in Next(s, step).book.balance
    ensures Settled(Next(s, step).book, p, balance, deficit, Moves(h + Accepted(s, step), p))
  {
    StepShape(s, step);
    var a := Accepted(s, step);
    if a == [] {
      assert h + a == h;
      assert BalanceOf(Next(s, step).book, p) == BalanceOf(s.book, p);
    } else {
      assert a == [a[0]] && a[0] in a;
      SettlePosting(s, h, a[0], p, balance, deficit);
    }
  }

  /**
   * Over any run, an account's deficit grows by exactly its worst shortfall, and its stored balance is
   * the unclamped balance plus that shortfall; in particular it never goes negative.
   */
  lemma {:induction false} DeficitIsWorstShortfall(s: State, steps: seq<Step>, p: string)
    requires AllValidated(steps) && p in s.book.balance && BalanceOf(s.book, p) >= 0
    ensures p in Run(s, steps).book.balance
    ensures Settled(Run(s, steps).book, p, BalanceOf(s.book, p), DeficitOf(s.book, p), Moves(History(s, steps), p))
    ensures BalanceOf(Run(s, steps).book, p) >= 0
    decreases |steps|
  {
    if steps != [] {
      var init := steps[..|steps| - 1];
      DeficitIsWorstShortfall(s, init, p);
      SettleStep(Run(s, init), History(s, init), steps[|steps| - 1], p, BalanceOf(s.book, p), DeficitOf(s.book, p));
    }
  }
}
