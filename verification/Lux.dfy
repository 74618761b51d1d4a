/** Token constants and the fee and cap arithmetic, in exact units of 10^-8 Lux. */
module Lux {

  const UNITS_PER_LUX := 100_000_000
  const HARD_CAP := 10_000_000_000 * UNITS_PER_LUX
  const MIN_RELAY_FEE := 100
  const NETWORK := "NETWORK"

  function Max(a: int, b: int): (r: int) {
    if a >= b then a else b
  }

  function Min(a: int, b: int): (r: int) {
    if a <= b then a else b
  }

  /** The fee a node charges on a local transfer; an empty relay means no relay. */
  function RelayFee(amount: int, relay: string): (fee: int) {
    if relay == "" then 0 else Max(MIN_RELAY_FEE, amount / 1000)
  }

  /** The fee ceiling of a remote transfer: max(minimum fee, 1.5 * 0.1% of the amount). */
  predicate FeeWithinCeiling(amount: int, fee: int) {
    fee <= MIN_RELAY_FEE || 2000 * fee <= 3 * amount
  }

  /** Every locally computed fee is accepted by every remote node. */
  lemma LocalFeePassesCeiling(amount: int, relay: string)
    requires amount > 0
    ensures FeeWithinCeiling(amount, RelayFee(amount, relay))
    ensures relay != "" ==> RelayFee(amount, relay) >= MIN_RELAY_FEE
  {
  }
}
