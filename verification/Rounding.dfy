/** Local transfers of any positive real amount: what rounding every balance to the grid does to the sum. */
module Rounding {
  import opened Lux
  import opened Sums
  import Ledger

  /** Rounding to eight decimal places, halves upwards, on Lux values. */
  function RoundLux(value: real): real {
    (value * 100000000.0 + 0.5).Floor as real / 100000000.0
  }

  /** The same on values counted in units of 10^-8 Lux. */
  function Round(units: real): int {
    (units + 0.5).Floor
  }

  lemma RoundLuxInUnits(units: real)
    ensures RoundLux(units / 100000000.0) == Round(units) as real / 100000000.0
  {
  }

  /** Rounding goes to the nearest unit, upwards from the middle. */
  lemma RoundNearest(x: real)
    ensures Round(x) as real - 0.5 <= x < Round(x) as real + 0.5
  {
  }

  /** Rounding an amount and its negation cancels, except at a half unit. */
  lemma {:induction false} RoundNegation(x: real)
    ensures Round(x) + Round(-x) == if IsHalf(x) then 1 else 0
  {
    var n := x.Floor;
    assert n as real <= x < (n + 1) as real;
    if x - n as real < 0.5 {
      assert Round(x) == n;
      if x == n as real { assert Round(-x) == -n; } else { assert Round(-x) == -n; }
    } else {
      assert Round(x) == n + 1;
      if IsHalf(x) { assert Round(-x) == -n; } else { assert Round(-x) == -n - 1; }
    }
  }

  predicate IsHalf(x: real) {
    x - x.Floor as real == 0.5
  }

  /** The fee is computed on the grid whatever the amount. */
  function Fee(amount: real, relay: string): int {
    if relay == "" then 0 else Max(MIN_RELAY_FEE, (amount / 1000.0).Floor)
  }

  /** Nothing without a relay, else the larger of 100 units and a thousandth rounded down to whole units. */
  lemma FeeExactly(amount: real, relay: string)
    requires amount > 0.0
    ensures var fee := Fee(amount, relay);
            if relay == "" then fee == 0
            else fee >= 100 && amount < 1000.0 * (fee + 1) as real && (fee == 100 || 1000.0 * fee as real <= amount)
  {
    var f := (amount / 1000.0).Floor;
    assert f as real <= amount / 1000.0 < f as real + 1.0;
  }

  datatype Order = Order(from: string, to: string, amount: real, relay: string)

  predicate Accepts(balance: map<string, int>, o: Order) {
    && o.amount > 0.0 && o.from != o.to && o.from in balance && o.to in balance
    && balance[o.from] as real >= o.amount + Fee(o.amount, o.relay) as real
  }

  predicate RelayRegistered(balance: map<string, int>, o: Order) {
    o.relay == "" || o.relay in balance
  }

  /** Balances after a transfer; every write goes through the rounding. */
  function Transfer(balance: map<string, int>, o: Order): map<string, int> {
    if !Accepts(balance, o) then balance
    else
      var fee := Fee(o.amount, o.relay);
      var debited := balance[o.from := Round(balance[o.from] as real - (o.amount + fee as real))];
      var credited := debited[o.to := Round(debited[o.to] as real + o.amount)];
      if fee > 0 && o.relay in credited then credited[o.relay := Round(credited[o.relay] as real + fee as real)] else credited
  }

  function Drift(balance: map<string, int>, o: Order): int {
    if Accepts(balance, o) && IsHalf(o.amount) then 1 else 0
  }

  function Bump(balance: map<string, int>, p: string, units: int): map<string, int> {
    if p in balance then balance[p := balance[p] + units] else balance
  }

  /** The three writes in whole units: `taken` from the sender, `given` to the recipient, the fee to the relay. */
  function Writes(balance: map<string, int>, o: Order, taken: int, given: int, fee: int): map<string, int> {
    var moved := Bump(Bump(balance, o.from, -taken), o.to, given);
    if fee > 0 then Bump(moved, o.relay, fee) else moved
  }

  lemma {:induction false} BumpSum(balance: map<string, int>, p: string, units: int)
    requires p in balance
    ensures Sum(Bump(balance, p, units)) == Sum(balance) + units && Bump(balance, p, units).Keys == balance.Keys
  {
    var v := balance[p] + units;
    assert Bump(balance, p, units) == balance[p := v];
    SumUpdate(balance, p, v);
  }

  lemma TransferInUnits(balance: map<string, int>, o: Order)
    requires Accepts(balance, o)
    ensures var fee := Fee(o.amount, o.relay);
            Transfer(balance, o) == Writes(balance, o, fee - Round(-o.amount), Round(o.amount), fee)
    ensures var fee := Fee(o.amount, o.relay); fee - Round(-o.amount) <= balance[o.from]
  {
  }

  lemma {:induction false} WritesSum(balance: map<string, int>, o: Order, taken: int, given: int, fee: int)
    requires o.from in balance && o.to in balance
    requires fee == 0 || (fee > 0 && o.relay in balance)
    ensures Sum(Writes(balance, o, taken, given, fee)) == Sum(balance) - taken + given + fee
  {
    var debited := Bump(balance, o.from, -taken);
    var credited := Bump(debited, o.to, given);
    BumpSum(balance, o.from, -taken);
    BumpSum(debited, o.to, given);
    if fee > 0 { BumpSum(credited, o.relay, fee); }
  }

  lemma WritesStayNonNegative(balance: map<string, int>, o: Order, taken: int, given: int, fee: int)
    requires o.from in balance && o.to in balance && o.from != o.to && fee >= 0
    requires taken <= balance[o.from] && given >= 0 && forall p | p in balance :: balance[p] >= 0
    ensures Writes(balance, o, taken, given, fee).Keys == balance.Keys
    ensures forall p | p in balance :: Writes(balance, o, taken, given, fee)[p] >= 0
  {
  }

  /**
   * A transfer changes the sum of all balances by nothing, or by exactly one unit when the amount has a
   * fractional unit of one half; balances stay on the grid and non-negative, also when the relay is the
   * sender or the recipient.
   */
  lemma {:induction false} TransferDrift(balance: map<string, int>, o: Order)
    requires RelayRegistered(balance, o)
    requires forall p | p in balance :: balance[p] >= 0
    ensures Transfer(balance, o).Keys == balance.Keys
    ensures Sum(Transfer(balance, o)) == Sum(balance) + Drift(balance, o)
    ensures forall p | p in balance :: Transfer(balance, o)[p] >= 0
  {
    if Accepts(balance, o) {
      var fee := Fee(o.amount, o.relay);
      TransferInUnits(balance, o);
      WritesSum(balance, o, fee - Round(-o.amount), Round(o.amount), fee);
      WritesStayNonNegative(balance, o, fee - Round(-o.amount), Round(o.amount), fee);
      RoundNegation(o.amount);
    }
  }

  function TransferAll(balance: map<string, int>, orders: seq<Order>): map<string, int> {
    if orders == [] then balance else Transfer(TransferAll(balance, orders[..|orders| - 1]), orders[|orders| - 1])
  }

  /** How many accepted transfers of a run had a half unit. */
  function HalfUnits(balance: map<string, int>, orders: seq<Order>): int {
    if orders == [] then 0
    else
      var init := orders[..|orders| - 1];
      HalfUnits(balance, init) + Drift(TransferAll(balance, init), orders[|orders| - 1])
  }

  /** Over any run of transfers the sum of balances grows by one unit per half-unit transfer, and by nothing else. */
  lemma {:induction false} RunDrift(balance: map<string, int>, orders: seq<Order>)
    requires forall i | 0 <= i < |orders| :: RelayRegistered(balance, orders[i])
    requires forall p | p in balance :: balance[p] >= 0
    ensures TransferAll(balance, orders).Keys == balance.Keys
    ensures forall p | p in balance :: TransferAll(balance, orders)[p] >= 0
    ensures Sum(TransferAll(balance, orders)) == Sum(balance) + HalfUnits(balance, orders)
    decreases |orders|
  {
    if orders != [] {
      RunDrift(balance, orders[..|orders| - 1]);
      TransferDrift(TransferAll(balance, orders[..|orders| - 1]), orders[|orders| - 1]);
    }
  }

  /** On-grid amounts make this the exact transfer of module Ledger: the same orders are accepted, with the same balances. */
  lemma OnGridTransfer(s: Ledger.State, id: string, now: int, from: string, to: string, amount: int, relay: string)
    ensures var o := Order(from, to, amount as real, relay);
            var r := Ledger.LocalTransfer(s, id, now, from, to, amount, relay);
            && (r.Posted? <==> Accepts(s.book.balance, o) && id !in s.txs)
            && (r.Posted? ==> r.state.book.balance == Transfer(s.book.balance, o))
  {
    assert (amount as real / 1000.0).Floor == amount / 1000;
    assert Fee(amount as real, relay) == RelayFee(amount, relay);
  }
}
