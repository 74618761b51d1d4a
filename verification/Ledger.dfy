/** The ledger tables and the effect of each ledger operation on them. */
module Ledger {
  import opened Lux

  datatype Kind = Transfer | Emission

  datatype Tx = Tx(id: string, from: string, to: string, amount: int, fee: int,
                   relay: string, kind: Kind, timestamp: int)

  /** One row of the `emissions` table. */
  datatype EmissionRow = EmissionRow(peer: string, amount: int, workType: string, workProof: string)

  /** The balance column of `accounts` and the `deficit:<peer>` rows of `network_stats`. */
  datatype Book = Book(balance: map<string, int>, deficit: map<string, int>)

  datatype State = State(book: Book, txs: map<string, Tx>, supply: int, relayFees: int,
                         emissions: map<string, EmissionRow>)

  datatype Error = AmountNotPositive | SelfTransfer | SenderNotFound | RecipientNotFound
                 | InsufficientBalance | HardCapReached | DuplicateId
                 | ContributionNotFound | ContributionInactive | MonthlyCapExceeded

  datatype Outcome = Posted(state: State, tx: Tx) | Thrown(error: Error)

  const EMPTY := State(Book(map[], map[]), map[], 0, 0, map[])

  // ---------------------------------------------------------------- accounts

  function BalanceOf(b: Book, p: string): int {
    if p in b.balance then b.balance[p] else 0
  }

  function DeficitOf(b: Book, p: string): int {
    if p in b.deficit then b.deficit[p] else 0
  }

  /** Balance minus deficit: what the account would hold had nothing been clamped. */
  function Net(b: Book, p: string): int {
    BalanceOf(b, p) - DeficitOf(b, p)
  }

  /** An SQL UPDATE: a missing row is left missing. */
  function SetBalance(b: Book, p: string, v: int): Book {
    if p in b.balance then b.(balance := b.balance[p := v]) else b
  }

  function CreateAccount(b: Book, p: string): Book {
    if p in b.balance then b else b.(balance := b.balance[p := 0])
  }

  function AddBalance(b: Book, p: string, amount: int): Book {
    SetBalance(b, p, BalanceOf(b, p) + amount)
  }

  function ForceSubtract(b: Book, p: string, amount: int): Book {
    var next := BalanceOf(b, p) - amount;
    if next < 0 then
      SetBalance(b.(deficit := b.deficit[p := DeficitOf(b, p) - next]), p, 0)
    else
      SetBalance(b, p, next)
  }

  // ---------------------------------------------------------------- local operations

  /** Credits of a local transfer: the relay is paid by an UPDATE, which a missing account ignores. */
  function PayOut(b: Book, tx: Tx): Book {
    var paid := AddBalance(b, tx.to, tx.amount);
    if tx.fee > 0 && tx.relay != "" then AddBalance(paid, tx.relay, tx.fee) else paid
  }

  function TransferBook(b: Book, tx: Tx): Book {
    PayOut(SetBalance(b, tx.from, BalanceOf(b, tx.from) - (tx.amount + tx.fee)), tx)
  }

  function LocalTransfer(s: State, id: string, now: int, from: string, to: string, amount: int, relay: string): Outcome {
    var tx := Tx(id, from, to, amount, RelayFee(amount, relay), relay, Transfer, now);
    if amount <= 0 then Thrown(AmountNotPositive)
    else if from == to then Thrown(SelfTransfer)
    else if from !in s.book.balance then Thrown(SenderNotFound)
    else if to !in s.book.balance then Thrown(RecipientNotFound)
    else if BalanceOf(s.book, from) < amount + tx.fee then Thrown(InsufficientBalance)
    else if id in s.txs then Thrown(DuplicateId)
    else Posted(s.(book := TransferBook(s.book, tx),
                   txs := s.txs[id := tx],
                   relayFees := s.relayFees + tx.fee), tx)
  }

  /** The amount an emission request is cut down to. */
  function Clamp(supply: int, amount: int): int {
    if supply + amount > HARD_CAP then HARD_CAP - supply else amount
  }

  function LocalEmit(s: State, id: string, now: int, to: string, amount: int, workType: string, workProof: string): Outcome {
    var minted := Clamp(s.supply, amount);
    var tx := Tx(id, NETWORK, to, minted, 0, "", Emission, now);
    if amount <= 0 then Thrown(AmountNotPositive)
    else if to !in s.book.balance then Thrown(RecipientNotFound)
    else if s.supply + amount > HARD_CAP && s.supply >= HARD_CAP then Thrown(HardCapReached)
    else if id in s.txs || id in s.emissions then Thrown(DuplicateId)
    else Posted(s.(book := AddBalance(s.book, to, minted),
                   txs := s.txs[id := tx],
                   supply := s.supply + minted,
                   emissions := s.emissions[id := EmissionRow(to, minted, workType, workProof)]), tx)
  }

  // ---------------------------------------------------------------- remote transactions

  /** Whether an unrecorded remote transaction passes the cap and fee checks. */
  predicate Admissible(supply: int, tx: Tx) {
    match tx.kind
    case Emission => supply + tx.amount <= HARD_CAP || supply < HARD_CAP
    case Transfer => tx.fee <= 0 || FeeWithinCeiling(tx.amount, tx.fee)
  }

  /** The transaction as it is recorded: an emission over the cap has its amount rewritten. */
  function Effective(supply: int, tx: Tx): Tx {
    if tx.kind.Emission? then tx.(amount := Clamp(supply, tx.amount)) else tx
  }

  predicate RelayPaid(tx: Tx, registered: set<string>) {
    tx.fee > 0 && tx.relay != "" && tx.relay in registered
  }

  /** Credits of a remote transaction: the relay is paid only if it has an account. */
  function Credited(b: Book, tx: Tx): Book {
    var paid := AddBalance(b, tx.to, tx.amount);
    if RelayPaid(tx, b.balance.Keys) then AddBalance(paid, tx.relay, tx.fee) else paid
  }

  function RemoteBook(b: Book, tx: Tx): Book {
    Credited(if tx.kind.Transfer? && tx.from != NETWORK then ForceSubtract(b, tx.from, tx.amount + tx.fee) else b, tx)
  }

  function PostRemote(s: State, tx: Tx): State {
    s.(book := RemoteBook(s.book, tx),
       txs := s.txs[tx.id := tx],
       supply := s.supply + Minted(tx),
       relayFees := s.relayFees + if RelayPaid(tx, s.book.balance.Keys) then tx.fee else 0)
  }

  function Minted(tx: Tx): int {
    if tx.kind.Emission? then tx.amount else 0
  }

  function ApplyRemote(s: State, tx: Tx): State {
    if tx.id in s.txs || !Admissible(s.supply, tx) then s
    else PostRemote(s, Effective(s.supply, tx))
  }

  // ---------------------------------------------------------------- runs

  datatype Step =
    | Create(peer: string)
    | DoTransfer(id: string, now: int, from: string, to: string, amount: int, relay: string)
    | DoEmit(id: string, now: int, to: string, amount: int, workType: string, workProof: string)
    | Remote(tx: Tx)

  /** The outcome of one of the node's own operations. */
  function Local(s: State, step: Step): Outcome
    requires step.DoTransfer? || step.DoEmit?
  {
    match step
    case DoTransfer(id, now, from, to, amount, relay) => LocalTransfer(s, id, now, from, to, amount, relay)
    case DoEmit(id, now, to, amount, workType, workProof) => LocalEmit(s, id, now, to, amount, workType, workProof)
  }

  /** One step of a ledger; an operation that throws keeps the old state. */
  function Next(s: State, step: Step): State {
    match step
    case Create(p) => s.(book := CreateAccount(s.book, p))
    case Remote(tx) => ApplyRemote(s, tx)
    case _ => var r := Local(s, step); if r.Posted? then r.state else s
  }

  function Run(s: State, steps: seq<Step>): State {
    if steps == [] then s else Next(Run(s, steps[..|steps| - 1]), steps[|steps| - 1])
  }

  /** A run of remote transactions only. */
  function Replay(s: State, log: seq<Tx>): State {
    if log == [] then s else ApplyRemote(Replay(s, log[..|log| - 1]), log[|log| - 1])
  }

  lemma ReplaySnoc(s: State, log: seq<Tx>, tx: Tx)
    ensures Replay(s, log + [tx]) == ApplyRemote(Replay(s, log), tx)
  {
  }
}
