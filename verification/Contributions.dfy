/** API-key contributions: usage caps and the Lux paid for them. */
module Contributions {
  import opened Lux
  import opened Ledger
  import opened Accounting
  import LedgerStore

  const API_REWARD := 2 * UNITS_PER_LUX

  datatype Contribution = Contribution(peer: string, monthlyCap: real, usedUsd: real,
                                       tasksCompleted: nat, luxEarned: int, active: bool)

  /** The ledger and the contribution rows; row ids are counted from 0 and never reused. */
  datatype World = World(ledger: State, rows: seq<Contribution>)

  function Multiplier(accountCount: nat): (m: int) {
    if accountCount <= 100 then 5
    else if accountCount <= 1000 then 3
    else if accountCount <= 10000 then 2
    else 1
  }

  function Reward(s: State): int {
    API_REWARD * Multiplier(|s.book.balance|)
  }

  /** The reward never grows with the network, and stays between one and five base rewards. */
  lemma RewardShrinks(s: State, t: State)
    requires |s.book.balance| <= |t.book.balance|
    ensures API_REWARD <= Reward(t) <= Reward(s) <= 5 * API_REWARD
  {
  }

  /** The reward in units: ten, six, four or two Lux by the number of accounts. */
  lemma RewardInLux(s: State)
    ensures var n := |s.book.balance|;
            && (n <= 100 ==> Reward(s) == 1_000_000_000)
            && (100 < n <= 1000 ==> Reward(s) == 600_000_000)
            && (1000 < n <= 10_000 ==> Reward(s) == 400_000_000)
            && (n > 10_000 ==> Reward(s) == 200_000_000)
  {
  }

  datatype Event =
    | Register(peer: string, monthlyCap: real)
    | Use(row: nat, costUsd: real, txId: string, now: int, workProof: string)
    | Deactivate(row: nat)
    | OnLedger(step: Step)

  datatype UseOutcome = Rewarded(world: World, tx: Tx) | Refused(error: Error)

  function RecordUsage(w: World, row: nat, costUsd: real, txId: string, now: int, workProof: string): UseOutcome {
    if row >= |w.rows| then Refused(ContributionNotFound)
    else
      var c := w.rows[row];
      if !c.active then Refused(ContributionInactive)
      else if c.usedUsd + costUsd > c.monthlyCap then Refused(MonthlyCapExceeded)
      else
        var reward := Reward(w.ledger);
        match LocalEmit(w.ledger, txId, now, c.peer, reward, "api_contributed", workProof)
        case Thrown(e) => Refused(e)
        case Posted(s, tx) =>
          Rewarded(World(s, w.rows[row := c.(usedUsd := c.usedUsd + costUsd, tasksCompleted := c.tasksCompleted + 1,
                                             luxEarned := c.luxEarned + reward)]), tx)
  }

  function After(w: World, e: Event): World {
    match e
    case Register(peer, cap) =>
      if peer in w.ledger.book.balance then w.(rows := w.rows + [Contribution(peer, cap, 0.0, 0, 0, true)]) else w
    case Use(row, cost, txId, now, proof) =>
      var r := RecordUsage(w, row, cost, txId, now, proof);
      if r.Rewarded? then r.world else w
    case Deactivate(row) =>
      if row < |w.rows| then w.(rows := w.rows[row := w.rows[row].(active := false)]) else w
    case OnLedger(step) => w.(ledger := Next(w.ledger, step))
  }

  function Trace(w: World, events: seq<Event>): World {
    if events == [] then w else After(Trace(w, events[..|events| - 1]), events[|events| - 1])
  }

  /** The event is a usage of the row that goes through. */
  predicate RewardedUse(w: World, e: Event, row: nat) {
    e.Use? && e.row == row && RecordUsage(w, row, e.costUsd, e.txId, e.now, e.workProof).Rewarded?
  }

  /** The emission that the event makes for the row. */
  function Emission(w: World, e: Event, row: nat): Tx
    requires RewardedUse(w, e, row)
  {
    RecordUsage(w, row, e.costUsd, e.txId, e.now, e.workProof).tx
  }

  /** The units that an event emits for a row. */
  function Paid(w: World, e: Event, row: nat): int {
    if RewardedUse(w, e, row) then Emission(w, e, row).amount else 0
  }

  /** The reward would take the supply past the hard cap. */
  predicate MeetsCap(w: World) {
    w.ledger.supply + Reward(w.ledger) > HARD_CAP
  }

  /** The units by which a reward overshoots the hard cap. */
  function CutOff(w: World, e: Event, row: nat): int {
    if RewardedUse(w, e, row) && MeetsCap(w) then w.ledger.supply + Reward(w.ledger) - HARD_CAP else 0
  }

  function PaidTotal(w: World, events: seq<Event>, row: nat): int {
    if events == [] then 0
    else
      var init := events[..|events| - 1];
      PaidTotal(w, init, row) + Paid(Trace(w, init), events[|events| - 1], row)
  }

  function CutOffTotal(w: World, events: seq<Event>, row: nat): int {
    if events == [] then 0
    else
      var init := events[..|events| - 1];
      CutOffTotal(w, init, row) + CutOff(Trace(w, init), events[|events| - 1], row)
  }

  predicate CapsNonNegative(events: seq<Event>) {
    forall i | 0 <= i < |events| :: events[i].Register? ==> events[i].monthlyCap >= 0.0
  }

  const START := World(EMPTY, [])

  /** The dollars charged for the usages of the row that went through. */
  function CostTotal(w: World, events: seq<Event>, row: nat): real {
    if events == [] then 0.0
    else
      var init, e := events[..|events| - 1], events[|events| - 1];
      CostTotal(w, init, row) + if RewardedUse(Trace(w, init), e, row) then e.costUsd else 0.0
  }

  /** How many usages of the row went through. */
  function UseCount(w: World, events: seq<Event>, row: nat): nat {
    if events == [] then 0
    else
      var init, e := events[..|events| - 1], events[|events| - 1];
      UseCount(w, init, row) + if RewardedUse(Trace(w, init), e, row) then 1 else 0
  }

  /** What one event does to one row. */
  lemma RowStep(w: World, e: Event, row: nat)
    ensures |w.rows| <= |After(w, e).rows| <= |w.rows| + 1
    ensures |After(w, e).rows| == |w.rows| + 1 <==> e.Register? && e.peer in w.ledger.book.balance
    ensures row < |w.rows| ==>
              var c, d := w.rows[row], After(w, e).rows[row];
              && d.peer == c.peer && d.monthlyCap == c.monthlyCap && (d.active <==> c.active && e != Deactivate(row))
              && d.usedUsd == c.usedUsd + (if RewardedUse(w, e, row) then e.costUsd else 0.0)
              && d.tasksCompleted == c.tasksCompleted + (if RewardedUse(w, e, row) then 1 else 0)
    ensures |w.rows| == row < |After(w, e).rows| ==>
              e.Register? && After(w, e).rows[row] == Contribution(e.peer, e.monthlyCap, 0.0, 0, 0, true)
  {
  }

  /** Every row is charged the costs of exactly its usages that went through, and counts them. */
  lemma {:induction false} UsageCharged(events: seq<Event>, row: nat)
    ensures var rows := Trace(START, events).rows;
            if row < |rows| then
              rows[row].usedUsd == CostTotal(START, events, row) && rows[row].tasksCompleted == UseCount(START, events, row)
            else CostTotal(START, events, row) == 0.0 && UseCount(START, events, row) == 0
    decreases |events|
  {
    if events != [] {
      var init := events[..|events| - 1];
      UsageCharged(init, row);
      RowStep(Trace(START, init), events[|events| - 1], row);
    }
  }

  /** Event `k` registered the row, which has its peer and cap, and is active until it is deactivated. */
  ghost predicate RegisteredBy(events: seq<Event>, row: nat, k: nat) {
    var w := Trace(START, events);
    && k < |events| && events[k].Register? && row < |w.rows|
    && |Trace(START, events[..k]).rows| == row && events[k].peer in Trace(START, events[..k]).ledger.book.balance
    && w.rows[row].peer == events[k].peer && w.rows[row].monthlyCap == events[k].monthlyCap
    && (w.rows[row].active <==> forall j | k < j < |events| :: events[j] != Deactivate(row))
  }

  lemma {:induction false} RowOrigin(events: seq<Event>, row: nat) returns (k: nat)
    requires row < |Trace(START, events).rows|
    ensures RegisteredBy(events, row, k)
    decreases |events|
  {
    var n := |events| - 1;
    var init := events[..n];
    RowStep(Trace(START, init), events[n], row);
    if row < |Trace(START, init).rows| {
      k := RowOrigin(init, row);
      assert init[..k] == events[..k];
      assert forall j | k < j < n :: init[j] == events[j];
    } else {
      k := n;
    }
  }

  /**
   * The monthly cap, exactly: a use of an active row is refused for it iff the costs of the row's usages so
   * far and the new one exceed the cap given at registration.
   */
  lemma {:induction false} CapRefusesExactly(
      events: seq<Event>, row: nat, costUsd: real, txId: string, now: int, workProof: string) returns (k: nat)
    requires row < |Trace(START, events).rows|
    ensures RegisteredBy(events, row, k)
    ensures (forall j | k < j < |events| :: events[j] != Deactivate(row)) ==>
              (RecordUsage(Trace(START, events), row, costUsd, txId, now, workProof) == Refused(MonthlyCapExceeded) <==>
               CostTotal(START, events, row) + costUsd > events[k].monthlyCap)
  {
    k := RowOrigin(events, row);
    UsageCharged(events, row);
  }

  /** The verdict of a usage, case by case. */
  lemma UseVerdict(w: World, row: nat, costUsd: real, txId: string, now: int, workProof: string)
    ensures var r := RecordUsage(w, row, costUsd, txId, now, workProof);
            && (r == Refused(ContributionNotFound) <==> row >= |w.rows|)
            && (r == Refused(ContributionInactive) <==> row < |w.rows| && !w.rows[row].active)
            && (r == Refused(MonthlyCapExceeded) <==>
                row < |w.rows| && w.rows[row].active && w.rows[row].usedUsd + costUsd > w.rows[row].monthlyCap)
            && (r.Rewarded? <==>
                && row < |w.rows| && w.rows[row].active && w.rows[row].usedUsd + costUsd <= w.rows[row].monthlyCap
                && w.rows[row].peer in w.ledger.book.balance && w.ledger.supply < 1_000_000_000_000_000_000
                && txId !in w.ledger.txs && txId !in w.ledger.emissions)
            && (r.Rewarded? ==>
                && txId in r.world.ledger.emissions
                && r.world.ledger.emissions[txId].workType == "api_contributed"
                && r.world.ledger.emissions[txId].workProof == workProof)
  {
  }

  /** No usage ever takes a row past its monthly cap: what it was charged stays within it. */
  lemma {:induction false} UsageWithinCap(events: seq<Event>)
    requires CapsNonNegative(events)
    ensures forall row | 0 <= row < |Trace(START, events).rows| ::
              var c := Trace(START, events).rows[row]; c.usedUsd == CostTotal(START, events, row) <= c.monthlyCap
  {
    if events != [] {
      UsageWithinCap(events[..|events| - 1]);
    }
    forall row | 0 <= row < |Trace(START, events).rows|
      ensures Trace(START, events).rows[row].usedUsd == CostTotal(START, events, row) <= Trace(START, events).rows[row].monthlyCap
    {
      UsageCharged(events, row);
    }
  }

  /** What is emitted is really minted: supply, the peer's balance and the table all move by it. */
  lemma PaidIsMinted(w: World, e: Event, row: nat)
    requires RewardedUse(w, e, row)
    ensures var tx, after := Emission(w, e, row), After(w, e);
            && tx.to == w.rows[row].peer && tx.to in w.ledger.book.balance
            && after.ledger.supply == w.ledger.supply + Paid(w, e, row)
            && BalanceOf(after.ledger.book, tx.to) == BalanceOf(w.ledger.book, tx.to) + Paid(w, e, row)
            && tx.id !in w.ledger.txs && after.ledger.txs == w.ledger.txs[tx.id := tx]
  {
  }

  /** A reward is paid in full iff the hard cap leaves room for it; otherwise it is cut by the overshoot. */
  lemma CutOffExactly(w: World, e: Event, row: nat)
    requires RewardedUse(w, e, row)
    ensures 0 < Paid(w, e, row) == Reward(w.ledger) - CutOff(w, e, row)
    ensures Paid(w, e, row) == Reward(w.ledger) <==> !MeetsCap(w)
  {
  }

  function EarnedBy(w: World, row: nat): int {
    if row < |w.rows| then w.rows[row].luxEarned else 0
  }

  lemma EarnedStep(w: World, e: Event, row: nat)
    ensures EarnedBy(After(w, e), row) == EarnedBy(w, row) + Paid(w, e, row) + CutOff(w, e, row)
  {
    if RewardedUse(w, e, row) { CutOffExactly(w, e, row); }
  }

  /** Every usage of the row that went through found room for its reward under the hard cap. */
  predicate AlwaysRoom(events: seq<Event>, row: nat) {
    events == [] ||
    (var w, e := Trace(START, events[..|events| - 1]), events[|events| - 1];
     AlwaysRoom(events[..|events| - 1], row) && (RewardedUse(w, e, row) ==> !MeetsCap(w)))
  }

  /**
   * Recorded earnings are the Lux emitted for the row plus what the hard cap cut off, so never less than
   * what was emitted, and equal to it iff every usage found room under the cap.
   */
  lemma {:induction false} EarningsAccounted(events: seq<Event>, row: nat)
    ensures EarnedBy(Trace(START, events), row) == PaidTotal(START, events, row) + CutOffTotal(START, events, row)
    ensures EarnedBy(Trace(START, events), row) >= PaidTotal(START, events, row)
    ensures EarnedBy(Trace(START, events), row) == PaidTotal(START, events, row) <==> AlwaysRoom(events, row)
  {
    if events != [] {
      EarningsAccounted(events[..|events| - 1], row);
      EarnedStep(Trace(START, events[..|events| - 1]), events[|events| - 1], row);
    }
  }

  datatype Reply = Earned(units: int) | Rejected(error: Error)

  class Store {
    const ledger: LedgerStore.Store
    var rows: seq<Contribution>

    constructor (ledger: LedgerStore.Store)
      ensures this.ledger == ledger && rows == []
    {
      this.ledger := ledger;
      rows := [];
    }

    ghost function Abs(): World
      reads this, ledger
    {
      World(ledger.Abs(), rows)
    }

    method Register(peer: string, monthlyCap: real) returns (ok: bool)
      modifies this
      ensures Abs() == After(old(Abs()), Event.Register(peer, monthlyCap)) && ok == (peer in ledger.balance)
    {
      ok := peer in ledger.balance;
      if ok {
        rows := rows + [Contribution(peer, monthlyCap, 0.0, 0, 0, true)];
      }
    }

    method Deactivate(row: nat)
      modifies this
      ensures Abs() == After(old(Abs()), Event.Deactivate(row))
    {
      if row < |rows| {
        rows := rows[row := rows[row].(active := false)];
      }
    }

    /** A usage that throws, at any point, changes no table. */
    method Use(row: nat, costUsd: real, txId: string, now: int, workProof: string) returns (r: Reply)
      modifies this, ledger
      ensures match RecordUsage(old(Abs()), row, costUsd, txId, now, workProof)
              case Rewarded(w, tx) => Abs() == w && r == Earned(Reward(old(ledger.Abs())))
              case Refused(e) => Abs() == old(Abs()) && r == Rejected(e)
    {
      if row >= |rows| { return Rejected(ContributionNotFound); }
      var c := rows[row];
      if !c.active { return Rejected(ContributionInactive); }
      if c.usedUsd + costUsd > c.monthlyCap { return Rejected(MonthlyCapExceeded); }
      var reward := API_REWARD * Multiplier(|ledger.balance|);
      var saved := rows;
      rows := rows[row := c.(usedUsd := c.usedUsd + costUsd, tasksCompleted := c.tasksCompleted + 1,
                             luxEarned := c.luxEarned + reward)];
      var emitted := ledger.Emit(txId, now, c.peer, reward, "api_contributed", workProof);
      if emitted.Failed? {
        rows := saved;
        return Rejected(emitted.error);
      }
      return Earned(reward);
    }
  }
}
