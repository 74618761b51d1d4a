/** Which operations the ledger lets through, in numbers: units of 10^-8 Lux. */
module Admission {
  import opened Lux
  import opened Ledger

  /** The relay fee: nothing without a relay, else the larger of 100 units and a thousandth rounded down. */
  lemma RelayFeeExactly(amount: int, relay: string)
    requires amount > 0
    ensures var fee := RelayFee(amount, relay);
            if relay == "" then fee == 0
            else fee >= 100 && amount < 1000 * (fee + 1) && (fee == 100 || 1000 * fee <= amount)
  {
  }

  /** The verdict of a local transfer, and what is recorded. */
  lemma TransferVerdict(s: State, id: string, now: int, from: string, to: string, amount: int, relay: string)
    ensures var r, fee := LocalTransfer(s, id, now, from, to, amount, relay), RelayFee(amount, relay);
            && (r == Thrown(AmountNotPositive) <==> amount <= 0)
            && (r == Thrown(SelfTransfer) <==> amount > 0 && from == to)
            && (r == Thrown(SenderNotFound) <==> amount > 0 && from != to && from !in s.book.balance)
            && (r == Thrown(RecipientNotFound) <==>
                amount > 0 && from != to && from in s.book.balance && to !in s.book.balance)
            && (r == Thrown(InsufficientBalance) <==>
                && amount > 0 && from != to && from in s.book.balance && to in s.book.balance
                && s.book.balance[from] < amount + fee)
            && (r == Thrown(DuplicateId) <==>
                && amount > 0 && from != to && from in s.book.balance && to in s.book.balance
                && s.book.balance[from] >= amount + fee && id in s.txs)
            && (r.Posted? <==>
                && amount > 0 && from != to && from in s.book.balance && to in s.book.balance
                && s.book.balance[from] >= amount + fee && id !in s.txs)
            && (r.Posted? ==>
                && r.tx == Tx(id, from, to, amount, fee, relay, Transfer, now) && r.state.txs == s.txs[id := r.tx]
                && r.state.supply == s.supply && r.state.emissions == s.emissions
                && r.state.book.deficit == s.book.deficit)
  {
  }

  const CAP := 1_000_000_000_000_000_000  // ten billion Lux

  /** The verdict of a local emission: cut at the cap, and refused only once nothing is left. */
  lemma EmissionVerdict(s: State, id: string, now: int, to: string, amount: int, workType: string, workProof: string)
    ensures var r := LocalEmit(s, id, now, to, amount, workType, workProof);
            && (r == Thrown(AmountNotPositive) <==> amount <= 0)
            && (r == Thrown(RecipientNotFound) <==> amount > 0 && to !in s.book.balance)
            && (r == Thrown(HardCapReached) <==> amount > 0 && to in s.book.balance && s.supply >= CAP)
            && (r == Thrown(DuplicateId) <==>
                amount > 0 && to in s.book.balance && s.supply < CAP && (id in s.txs || id in s.emissions))
            && (r.Posted? <==>
                && amount > 0 && to in s.book.balance && s.supply < CAP
                && id !in s.txs && id !in s.emissions)
            && (r.Posted? ==>
                var minted := Min(amount, CAP - s.supply);
                && r.tx == Tx(id, NETWORK, to, minted, 0, "", Emission, now) && r.state.txs == s.txs[id := r.tx]
                && r.state.supply == s.supply + minted
                && r.state.emissions == s.emissions[id := EmissionRow(to, minted, workType, workProof)]
                && r.state.book.deficit == s.book.deficit && r.state.relayFees == s.relayFees)
  {
  }

  /** A fresh remote transfer is refused iff its fee is over 100 units and over 0.15% of the amount. */
  lemma RemoteTransferVerdict(s: State, tx: Tx)
    requires tx.kind.Transfer? && tx.id !in s.txs
    ensures ApplyRemote(s, tx) == s <==> tx.fee > 100 && 10_000 * tx.fee > 15 * tx.amount
    ensures ApplyRemote(s, tx) != s ==> ApplyRemote(s, tx).txs == s.txs[tx.id := tx]
  {
    assert PostRemote(s, tx).txs[tx.id] == tx;
  }

  /** A fresh remote emission is refused iff it asks for something and nothing is left under the cap. */
  lemma RemoteEmissionVerdict(s: State, tx: Tx)
    requires tx.kind.Emission? && tx.id !in s.txs && s.supply <= CAP
    ensures ApplyRemote(s, tx) == s <==> tx.amount > 0 && s.supply == CAP
    ensures ApplyRemote(s, tx) != s ==>
              var minted := Min(tx.amount, CAP - s.supply);
              ApplyRemote(s, tx).txs == s.txs[tx.id := tx.(amount := minted)] && ApplyRemote(s, tx).supply == s.supply + minted
  {
    assert tx.id in PostRemote(s, Effective(s.supply, tx)).txs;
  }

  /** Over every run, each recorded transfer keeps to the fee ceiling. */
  lemma {:induction false} RecordedFees(steps: seq<Step>)
    ensures forall id | id in Run(EMPTY, steps).txs ::
              var tx := Run(EMPTY, steps).txs[id];
              tx.kind.Transfer? ==> tx.fee <= 100 || 10_000 * tx.fee <= 15 * tx.amount
  {
    if steps != [] {
      var init, last := steps[..|steps| - 1], steps[|steps| - 1];
      RecordedFees(init);
      FeeStep(Run(EMPTY, init), last);
    }
  }

  lemma FeeStep(s: State, step: Step)
    ensures forall id | id in Next(s, step).txs && id !in s.txs ::
              var tx := Next(s, step).txs[id];
              tx.kind.Transfer? ==> tx.fee <= 100 || 10_000 * tx.fee <= 15 * tx.amount
    ensures forall id | id in s.txs :: id in Next(s, step).txs && Next(s, step).txs[id] == s.txs[id]
  {
    match step
    case DoTransfer(id, now, from, to, amount, relay) =>
      TransferVerdict(s, id, now, from, to, amount, relay);
      if amount > 0 { RelayFeeExactly(amount, relay); }
    case Remote(tx) =>
      if tx.id !in s.txs && tx.kind.Transfer? { RemoteTransferVerdict(s, tx); }
    case _ =>
  }

  function CreatedBy(steps: seq<Step>): set<string> {
    set i | 0 <= i < |steps| && steps[i].Create? :: steps[i].peer
  }

  lemma StepAccounts(s: State, step: Step)
    ensures Next(s, step).book.balance.Keys == s.book.balance.Keys + if step.Create? then {step.peer} else {}
  {
  }

  /** Exactly the peers that were created have an account; nothing else opens or closes one. */
  lemma {:induction false} RegisteredExactly(steps: seq<Step>)
    ensures Run(EMPTY, steps).book.balance.Keys == CreatedBy(steps)
  {
    if steps != [] {
      var init, last := steps[..|steps| - 1], steps[|steps| - 1];
      RegisteredExactly(init);
      StepAccounts(Run(EMPTY, init), last);
      assert CreatedBy(steps) == CreatedBy(init) + if last.Create? then {last.peer} else {};
    }
  }

  // ---------------------------------------------------------------- the emissions table

  /** The step is an accepted local emission that fills the row. */
  predicate Fills(s: State, step: Step, id: string, row: EmissionRow) {
    && step.DoEmit? && step.id == id && Local(s, step).Posted?
    && row.peer == step.to && row.workType == step.workType && row.workProof == step.workProof
    && row.amount == Min(step.amount, CAP - s.supply)
  }

  /** Every row of the emissions table is filled by the local emission of that id, in all its columns. */
  lemma {:induction false} EmissionRowsExactly(steps: seq<Step>, id: string)
    ensures id in Run(EMPTY, steps).emissions <==>
            exists i :: 0 <= i < |steps| && steps[i].DoEmit? && steps[i].id == id && Local(Run(EMPTY, steps[..i]), steps[i]).Posted?
    ensures id in Run(EMPTY, steps).emissions ==>
            exists i :: 0 <= i < |steps| && Fills(Run(EMPTY, steps[..i]), steps[i], id, Run(EMPTY, steps).emissions[id])
  {
    if steps != [] {
      var n := |steps| - 1;
      var init, last := steps[..n], steps[n];
      EmissionRowsExactly(init, id);
      assert forall i | 0 <= i < n :: init[..i] == steps[..i] && init[i] == steps[i];
      var s, t := Run(EMPTY, init), Run(EMPTY, steps);
      EmissionStep(s, last, id);
      if last.DoEmit? && last.id == id && Local(s, last).Posted? {
        assert Fills(Run(EMPTY, steps[..n]), steps[n], id, t.emissions[id]);
      } else if id in t.emissions {
        var i :| 0 <= i < n && Fills(Run(EMPTY, init[..i]), init[i], id, s.emissions[id]);
        assert Fills(Run(EMPTY, steps[..i]), steps[i], id, t.emissions[id]);
      }
    }
  }

  lemma EmissionStep(s: State, step: Step, id: string)
    ensures var fills := step.DoEmit? && step.id == id && Local(s, step).Posted?;
            && (id in Next(s, step).emissions <==> id in s.emissions || fills)
            && (fills ==> Fills(s, step, id, Next(s, step).emissions[id]))
            && (!fills && id in s.emissions ==> Next(s, step).emissions[id] == s.emissions[id])
  {
  }
}
