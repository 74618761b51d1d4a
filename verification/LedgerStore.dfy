/** The ledger as the node runs it: tables updated in place, proved against the steps of module Ledger. */
module LedgerStore {
  import opened Lux
  import opened Ledger
  import opened Replication
  import opened Strings

  datatype Reply = Ok(tx: Tx) | Failed(error: Error)

  /** The first peer id in order. */
  method Smallest(ids: set<string>) returns (least: string)
    requires ids != {}
    ensures least in ids && forall q | q in ids && q != least :: Less(least, q)
  {
    least :| least in ids;
    var left := ids - {least};
    while left != {}
      invariant left <= ids && least in ids - left
      invariant forall q | q in ids - left && q != least :: Less(least, q)
      decreases left
    {
      var p :| p in left;
      LessTotal(p, least);
      if Less(p, least) {
        forall q | q in ids - left && q != least
          ensures Less(p, q)
        {
          LessTransitive(p, least, q);
        }
        least := p;
      }
      left := left - {p};
    }
  }

  /** Every peer but those left has an entry. */
  predicate Listed(peers: set<string>, rows: seq<Entry>, left: set<string>) {
    forall p | p in peers && p !in left :: exists i :: 0 <= i < |rows| && rows[i].peer == p
  }

  lemma ListedOneMore(peers: set<string>, rows: seq<Entry>, left: set<string>, e: Entry)
    requires Listed(peers, rows, left)
    ensures Listed(peers, rows + [e], left - {e.peer})
  {
    var after := rows + [e];
    forall q | q in peers && q !in left - {e.peer}
      ensures exists i :: 0 <= i < |after| && after[i].peer == q
    {
      if q == e.peer {
        assert after[|rows|].peer == q;
      } else {
        var i :| 0 <= i < |rows| && rows[i].peer == q;
        assert after[i].peer == q;
      }
    }
  }

  class Store {
    var balance: map<string, int>
    var deficit: map<string, int>
    var txs: map<string, Tx>
    var supply: int
    var relayFees: int
    var emissions: map<string, EmissionRow>

    ghost function Abs(): State
      reads this
    {
      State(Book(balance, deficit), txs, supply, relayFees, emissions)
    }

    constructor ()
      ensures Abs() == EMPTY
    {
      balance, deficit, txs, supply, relayFees, emissions := map[], map[], map[], 0, 0, map[];
    }

    function GetBalance(p: string): int
      reads this
    {
      if p in balance then balance[p] else 0
    }

    /** INSERT OR IGNORE of an account row. */
    method Create(p: string)
      modifies this`balance
      ensures Abs() == Next(old(Abs()), Step.Create(p))
    {
      if p !in balance {
        balance := balance[p := 0];
      }
    }

    method UpdateBalance(p: string, v: int)
      modifies this`balance
      ensures Abs() == old(Abs()).(book := SetBalance(old(Abs()).book, p, v))
    {
      if p in balance {
        balance := balance[p := v];
      }
    }

    method AddBalance(p: string, amount: int)
      modifies this`balance
      ensures Abs() == old(Abs()).(book := Ledger.AddBalance(old(Abs()).book, p, amount))
    {
      var current := GetBalance(p);
      UpdateBalance(p, current + amount);
    }

    method SubtractBalance(p: string, amount: int) returns (ok: bool)
      modifies this`balance
      ensures ok == (amount <= BalanceOf(old(Abs()).book, p))
      ensures Abs() == if ok then old(Abs()).(book := SetBalance(old(Abs()).book, p, BalanceOf(old(Abs()).book, p) - amount))
                       else old(Abs())
    {
      var current := GetBalance(p);
      if current < amount {
        return false;
      }
      UpdateBalance(p, current - amount);
      return true;
    }

    method ForceSubtractBalance(p: string, amount: int)
      modifies this`balance, this`deficit
      ensures Abs() == old(Abs()).(book := ForceSubtract(old(Abs()).book, p, amount))
    {
      var newBalance := GetBalance(p) - amount;
      if newBalance < 0 {
        var shortfall := -newBalance;
        deficit := deficit[p := (if p in deficit then deficit[p] else 0) + shortfall];
        newBalance := 0;
      }
      UpdateBalance(p, newBalance);
    }

    /** INSERT into the table; a repeated primary key throws. */
    method RecordTransaction(tx: Tx) returns (ok: bool)
      modifies this`txs
      ensures ok == (tx.id !in old(txs))
      ensures Abs() == if ok then old(Abs()).(txs := old(txs)[tx.id := tx]) else old(Abs())
    {
      ok := tx.id !in txs;
      if ok {
        txs := txs[tx.id := tx];
      }
    }

    /** Credit the recipient and pay the relay; the fee counts even if the relay has no account. */
    method PayLocal(tx: Tx)
      modifies this`balance, this`relayFees
      ensures Abs() == old(Abs()).(book := PayOut(old(Abs()).book, tx),
                                   relayFees := old(relayFees) + if tx.fee > 0 && tx.relay != "" then tx.fee else 0)
    {
      AddBalance(tx.to, tx.amount);
      if tx.fee > 0 && tx.relay != "" {
        AddBalance(tx.relay, tx.fee);
        relayFees := relayFees + tx.fee;
      }
    }

    /** Credit the recipient and pay the relay, provided it has an account. */
    method PayRemote(tx: Tx)
      modifies this`balance, this`relayFees
      ensures Abs() == old(Abs()).(book := Credited(old(Abs()).book, tx),
                                   relayFees := old(relayFees) + if RelayPaid(tx, old(balance).Keys) then tx.fee else 0)
    {
      AddBalance(tx.to, tx.amount);
      if tx.fee > 0 && tx.relay != "" && tx.relay in balance {
        AddBalance(tx.relay, tx.fee);
        relayFees := relayFees + tx.fee;
      }
    }

    method Transfer(id: string, now: int, from: string, to: string, amount: int, relay: string) returns (r: Reply)
      modifies this
      ensures match LocalTransfer(old(Abs()), id, now, from, to, amount, relay)
              case Posted(s, tx) => Abs() == s && r == Ok(tx)
              case Thrown(e) => Abs() == old(Abs()) && r == Failed(e)
    {
      if amount <= 0 { return Failed(AmountNotPositive); }
      if from == to { return Failed(SelfTransfer); }
      if from !in balance { return Failed(SenderNotFound); }
      if to !in balance { return Failed(RecipientNotFound); }
      var fee := RelayFee(amount, relay);
      var totalDebit := amount + fee;
      if GetBalance(from) < totalDebit { return Failed(InsufficientBalance); }
      var tx := Tx(id, from, to, amount, fee, relay, Kind.Transfer, now);
      // one database transaction: a throw restores what was there
      var savedBalance, savedFees := balance, relayFees;
      var debited := SubtractBalance(from, totalDebit);
      PayLocal(tx);
      var recorded := RecordTransaction(tx);
      if !recorded {
        balance, relayFees := savedBalance, savedFees;
        return Failed(DuplicateId);
      }
      return Ok(tx);
    }

    method Emit(id: string, now: int, to: string, requested: int, workType: string, workProof: string) returns (r: Reply)
      modifies this
      ensures match LocalEmit(old(Abs()), id, now, to, requested, workType, workProof)
              case Posted(s, tx) => Abs() == s && r == Ok(tx)
              case Thrown(e) => Abs() == old(Abs()) && r == Failed(e)
    {
      var amount := requested;
      if amount <= 0 { return Failed(AmountNotPositive); }
      if to !in balance { return Failed(RecipientNotFound); }
      if supply + amount > HARD_CAP {
        var remaining := HARD_CAP - supply;
        if remaining <= 0 { return Failed(HardCapReached); }
        amount := remaining;
      }
      var tx := Tx(id, NETWORK, to, amount, 0, "", Kind.Emission, now);
      var savedBalance, savedTxs, savedSupply := balance, txs, supply;
      AddBalance(to, amount);
      var recorded := RecordTransaction(tx);
      supply := supply + amount;
      if !recorded || id in emissions {
        balance, txs, supply := savedBalance, savedTxs, savedSupply;
        return Failed(DuplicateId);
      }
      emissions := emissions[id := EmissionRow(to, amount, workType, workProof)];
      return Ok(tx);
    }

    method ApplyRemoteTransaction(remote: Tx)
      modifies this
      ensures Abs() == ApplyRemote(old(Abs()), remote)
    {
      var tx := remote;
      if tx.id in txs { return; }
      if tx.kind.Emission? {
        if supply + tx.amount > HARD_CAP {
          var remaining := HARD_CAP - supply;
          if remaining <= 0 { return; }
          tx := tx.(amount := remaining);
        }
      }
      if tx.kind.Transfer? && tx.fee > 0 {
        if !FeeWithinCeiling(tx.amount, tx.fee) { return; }
      }
      Post(tx);
    }

    /** The body of the remote database transaction. */
    method Post(tx: Tx)
      requires tx.id !in txs
      modifies this
      ensures Abs() == PostRemote(old(Abs()), tx)
    {
      if tx.kind.Transfer? && tx.from != NETWORK {
        ForceSubtractBalance(tx.from, tx.amount + tx.fee);
      }
      PayRemote(tx);
      var recorded := RecordTransaction(tx);
      if tx.kind.Emission? {
        supply := supply + tx.amount;
      }
    }

    /** Reads the account table into a record, ordered by peer id. */
    method CreateSnapshot() returns (snap: Snapshot)
      ensures SnapshotOf(snap, Abs())
      ensures forall i, j | 0 <= i < j < |snap.accounts| :: Less(snap.accounts[i].peer, snap.accounts[j].peer)
    {
      var rows: seq<Entry> := [];
      var left := balance.Keys;
      while left != {}
        invariant left <= balance.Keys
        invariant forall i | 0 <= i < |rows| ::
                    rows[i].peer in balance && rows[i].peer !in left && balance[rows[i].peer] == rows[i].balance
        invariant forall i, q | 0 <= i < |rows| && q in left :: Less(rows[i].peer, q)
        invariant forall i, j | 0 <= i < j < |rows| :: rows[i].peer != rows[j].peer && Less(rows[i].peer, rows[j].peer)
        invariant Listed(balance.Keys, rows, left)
        decreases left
      {
        var p := Smallest(left);
        ListedOneMore(balance.Keys, rows, left, Entry(p, balance[p]));
        rows := rows + [Entry(p, balance[p])];
        left := left - {p};
      }
      snap := Snapshot(1, |txs|, supply, rows);
    }

    method LoadSnapshot(snap: Snapshot) returns (ok: bool)
      modifies this`balance, this`supply
      ensures ok == (snap.version == 1)
      ensures Abs() == if ok then Loaded(old(Abs()), snap) else old(Abs())
    {
      if snap.version != 1 { return false; }
      var i := 0;
      while i < |snap.accounts|
        invariant 0 <= i <= |snap.accounts|
        invariant balance == LoadAccounts(old(balance), snap.accounts[..i])
      {
        var acct := snap.accounts[i];
        balance := balance[acct.peer := acct.balance];
        assert snap.accounts[..i + 1][..i] == snap.accounts[..i];
        i := i + 1;
      }
      assert snap.accounts[..i] == snap.accounts;
      supply := snap.totalSupply;
      return true;
    }
  }
}
