# Pando: the Lux ledger and the node protocols around it

A Dafny model of the parts of Pando that have to stay right over long runs: the replicated Lux
ledger, the protocols by which nodes find each other and share work, and three small state machines
driven by a clock. Every module has a pure specification (a state and its steps), theorems over all
runs of those steps, and, where the system updates tables or fields in place, a class whose methods
are proved to perform exactly those steps.

| file | models |
|---|---|
| `Lux.dfy`, `Sums.dfy`, `Strings.dfy` | token constants, the fee and cap arithmetic; sums over tables; the order of peer ids |
| `Ledger.dfy` | accounts, deficits, transactions, supply; local and remote operations; runs |
| `Admission.dfy` | which operations go through, in numbers; accounts and emissions rows over any run |
| `LedgerStore.dfy` | the ledger as mutable tables, with rollback, proved against `Ledger` |
| `Accounting.dfy` | ledger equation, conservation, hard cap, emissions table, deficits over any run |
| `Convergence.dfy` | replicas that receive the same transactions in different orders |
| `Clamping.dfy`, `StoredBalance.dfy` | when the order of clamped debits and credits shows in a stored balance |
| `Gossip.dfy` | a whole network of nodes that act on their own and gossip |
| `Replication.dfy` | replaying a node's own log; restarting from a snapshot |
| `Rounding.dfy` | transfers of arbitrary real amounts, rounded to the grid |
| `Contributions.dfy` | API-key usage caps and rewards |
| `Usernames.dfy` | username claims that arrive over the network |
| `PeerExchange.dfy` | neighbour-list gossip and dialling |
| `TaskClaims.dfy` | conflict resolution between nodes that claim the same task |
| `NodePool.dfy` | the gateway's circuit-breaking node pool |
| `Revocation.dfy` | token revocation with a blacklist that is cleaned up |
| `Supervisor.dfy` | the supervisor's sliding crash window |
| `Decimals.dfy`, `Encodings.dfy` | printed numbers and the signed transaction text; base64 and base64url |

Amounts are exact integers in units of 10^-8 Lux (`roundLux` is the identity on them);
`Rounding` treats real amounts and shows that on-grid amounts reduce to the integer model
(`OnGridTransfer`). Clocks, ids, random picks, dial results and HTTP results are parameters.
An operation that throws inside a database transaction keeps the old state.

## What turned out differently from what the code suggests

Each of these is a theorem, with the exact condition where the expected property does hold.

- Replicas agree on table, supply, fees and net balances in every delivery order iff the hard cap is
  already reached, or leaves room for all pending emissions, or at most one of them asks for anything
  (`ConvergenceExactly`).
- Stored balances may differ even then, because a clamped debit leaves a deficit that nothing in the
  ledger reads again. For transactions that never both debit and credit the account, all delivery
  orders leave it the same stored balance iff its balance covers all its debits, or nothing is credited
  to it (`PlainStoredBalance`); with transfers to oneself or relayed by oneself the exact condition is
  `Clamping.OrderHidden` (`StoredBalanceExactly`).
- A local transfer may be sent in the name of `NETWORK`; it debits that account, and no other node does.
  The transaction table explains the balance of every other registered account; it explains that of
  `NETWORK` iff no such transfer was accepted (`LedgerEquation`, `RegularLedgerEquation`).
- Replaying a local log reproduces the balances iff no transfer was sent in the name of `NETWORK`, and
  the fee total iff every named relay had an account (`ReplayExactly`): a local transfer debits
  `NETWORK` and counts the fee of a missing relay, the remote path does neither.
- A remote emission may carry a fee; circulation and supply stay in step iff it pays no relay
  (`EmissionFeeIsUnbacked`).
- A snapshot does not record which transactions it covers, so resending one keeps the restored ledger
  in step iff the original had not recorded it (`ResendExactly`).
- Recorded contribution earnings exceed the emitted Lux unless every rewarded usage found room under the
  hard cap (`EarningsAccounted`).
- Username claims are "first come, first served" only while nothing else writes `updated_at`: after a
  mere balance change a rival takes the name iff it claimed before that write (`TouchForgetsClaimTime`).
  Tied claim times never resolve: the holders agree in every delivery order iff no name is still open
  between tied earliest claims (`UsernamesConvergeExactly`).
- A node that loses a task claim goes on naming the first claim that beat it, whoever wins
  (`LoserKeepsFirstBeater`; `RowIsFirstBeater` gives the row in every run).
- The comment in the node pool says that an expired circuit allows one try. It does not: expiry
  readmits nobody, and circuit state has no influence on routing at all (`SeedCandidateExactly`,
  `RoutingIgnoresCircuit`).
- Only the latest revocation of a token counts: revoking it again keeps it refused iff the new entry is
  kept until the token expires, or it has expired by then (`LatestRevocationDecides`).
- The signed text of a transaction stands for that transaction alone iff none of its texts contains a
  colon (`CanonicalExactly`).

## Model

| member | source | states |
|---|---|---|
| Lux.LocalFeePassesCeiling | packages/ledger/src/transactions.ts:33-34 | every locally computed fee passes the remote fee ceiling, for every amount |
| Admission.RelayFeeExactly | packages/ledger/src/transactions.ts:33-34 | the fee is 0 without a relay, else the larger of 100 units and a thousandth of the amount rounded down |
| Admission.TransferVerdict | packages/ledger/src/transactions.ts:28-75 | a local transfer goes through, or throws each of its errors, iff the stated conditions on parties, balance and id hold; the recorded row in full |
| Admission.EmissionVerdict | packages/ledger/src/transactions.ts:82-115 | an emission goes through iff it asks for something, the recipient is registered, anything is left under the cap and the id is fresh; the recorded rows, work type and proof included |
| Admission.RemoteTransferVerdict | packages/ledger/src/transactions.ts:152-158 | a fresh remote transfer leaves the ledger unchanged iff its fee is over 100 units and over 0.15% of the amount |
| Admission.RemoteEmissionVerdict | packages/ledger/src/transactions.ts:138-149 | a fresh remote emission leaves the ledger unchanged iff it asks for something and nothing is left; else it is recorded, cut to what is left |
| Admission.RecordedFees | packages/ledger/src/transactions.ts:152-158 | over every run each recorded transfer keeps to the fee ceiling |
| Admission.RegisteredExactly | packages/ledger/src/accounts.ts:13-25 | over every run exactly the created peers have an account |
| Admission.EmissionRowsExactly | packages/ledger/src/transactions.ts:113-115 | over every run an id has an emissions row iff a local emission of that id went through, and the row has its recipient, amount, work type and proof |
| LedgerStore.Store.Create | packages/ledger/src/accounts.ts:13-25 | inserts a zero balance or leaves an existing row alone |
| LedgerStore.Store.AddBalance | packages/ledger/src/accounts.ts:57-63 | credits a registered account; a missing row stays missing |
| LedgerStore.Store.SubtractBalance | packages/ledger/src/accounts.ts:65-74 | debits iff the balance suffices, and reports which |
| LedgerStore.Store.ForceSubtractBalance | packages/ledger/src/accounts.ts:82-101 | debits, clamping at zero and adding the shortfall to the deficit |
| LedgerStore.Store.RecordTransaction | packages/ledger/src/transactions.ts:277-281 | inserts under a fresh id, refuses a repeated one |
| LedgerStore.Store.PayLocal | packages/ledger/src/transactions.ts:57-64 | recipient and relay credits of a local transfer; the fee is counted even without a relay account |
| LedgerStore.Store.PayRemote | packages/ledger/src/transactions.ts:168-175 | recipient and relay credits of a remote transaction; relay and counter only with an account |
| LedgerStore.Store.Transfer | packages/ledger/src/transactions.ts:27-75 | all-or-nothing local transfer with every error case, as the specification step |
| LedgerStore.Store.Emit | packages/ledger/src/transactions.ts:81-123 | all-or-nothing emission, cut at the cap, as the specification step |
| LedgerStore.Store.ApplyRemoteTransaction | packages/ledger/src/transactions.ts:133-191 | duplicate, cap and fee checks, then the posting, as the specification step |
| LedgerStore.Store.Post | packages/ledger/src/transactions.ts:161-190 | debit, credits, record and supply of an accepted remote transaction |
| LedgerStore.Store.CreateSnapshot | packages/ledger/src/index.ts:306-329 | lists every account exactly once with its balance, strictly ordered by peer id, and the supply |
| LedgerStore.Store.LoadSnapshot | packages/ledger/src/index.ts:351-386 | overwrites or inserts the listed rows and sets the supply; other versions change nothing |
| Accounting.StepShape | packages/ledger/src/transactions.ts:55-75 | every step creates an account, does nothing, or posts one transaction under a fresh id as a debit followed by credits |
| Accounting.NetIsHistory | packages/ledger/src/transactions.ts:161-190 | for every run and account, balance minus deficit is the fold of everything posted, with no registration assumed |
| Accounting.LedgerEquation | packages/ledger/src/transactions.ts:161-190 | for every run and account, balance minus deficit is the fold of the transaction table less what was never booked on the account; the two agree iff every credit found the account and nothing was spent locally in the name of NETWORK |
| Accounting.RegularLedgerEquation | packages/ledger/src/transactions.ts:27-75 | with the credited parties registered, the equation holds for every account but NETWORK; for NETWORK the difference is what was spent locally in its name, and it holds iff nothing was |
| Accounting.FeeEquation | packages/ledger/src/transactions.ts:61-64 | for every run, the relay-fee total is the sum of the recorded fees less those of remote transactions whose relay had no account; equal iff there were none |
| Accounting.Conservation | packages/ledger/src/transactions.ts:161-190 | for every run, balances minus deficits move with the supply except for exactly what the postings leak |
| Accounting.ConservationUpToLostFees | packages/ledger/src/transactions.ts:164-183 | without unbacked postings, the only loss is the fees of transfers whose relay is absent or unregistered |
| Accounting.LocalConservation | packages/ledger/src/transactions.ts:55-71 | local steps only: balances sum to the supply iff no accepted transfer named a missing relay, else they fall short by those fees |
| Accounting.EmissionFeeIsUnbacked | packages/ledger/src/transactions.ts:171-175 | every accepted remote emission to a registered recipient, clamped or not, adds the fee of a registered relay beyond the supply; circulation and supply stay in step iff no relay is paid |
| Accounting.EmissionsAccounted | packages/ledger/src/transactions.ts:108-115 | every emissions row matches a recorded emission; with local steps only, every emission has its row |
| Accounting.HardCap | packages/ledger/src/transactions.ts:137-149 | over any run the supply never shrinks, never passes the cap, and moves with the recorded emission amounts |
| Accounting.EmissionMintsRemainder | packages/ledger/src/transactions.ts:85-92 | an accepted emission by either path mints exactly min(requested, cap minus supply) |
| Accounting.DeficitIsWorstShortfall | packages/ledger/src/accounts.ts:82-101 | over any run, the deficit grows by exactly the worst shortfall of the unclamped balance over all prefixes; stored balance is unclamped balance plus shortfall, never negative |
| Convergence.SupplyAfter | packages/ledger/src/transactions.ts:137-149 | the supply after any delivery of remote emissions is min(cap, supply plus all requested), in every order |
| Convergence.TableAfter | packages/ledger/src/transactions.ts:133-159 | closed form of the table after any delivery when the cap cannot make the order visible |
| Convergence.ViewFollowsTable | packages/ledger/src/transactions.ts:161-190 | with fixed registered accounts the table determines supply, fee total and net balances |
| Convergence.ReplicasConverge | packages/ledger/src/transactions.ts:133-191 | agreeing replicas that receive the same transactions in any two orders with repetitions agree again on ids, recorded amounts, supply, fees and net balances |
| Convergence.OrderVisible | packages/ledger/src/transactions.ts:137-149 | otherwise two delivery orders record different tables |
| Convergence.ConvergenceExactly | packages/ledger/src/transactions.ts:133-191 | all delivery orders record the same table iff the cap is reached, or fits all, or at most one emission asks for anything |
| Clamping.HiddenFinal | packages/ledger/src/accounts.ts:82-101 | if the order of clamped debits and credits is hidden, every order ends with the same balance, in closed form |
| Clamping.ShownFinals | packages/ledger/src/accounts.ts:82-101 | otherwise two orders end with different balances |
| Clamping.PlainOrderHidden | packages/ledger/src/accounts.ts:82-101 | without items that both debit and credit, the order is hidden iff the start covers all debits or there are no credits |
| StoredBalance.BalanceAfter | packages/ledger/src/transactions.ts:133-191 | after any delivery an account stores what its clamped debits and credits leave, in the order in which they were recorded |
| StoredBalance.StoredBalanceExactly | packages/ledger/src/transactions.ts:133-191 | all deliveries leave a registered account the same stored balance iff the order of what the pool does to it is hidden, transfers to and relayed by oneself included |
| StoredBalance.HiddenBalance | packages/ledger/src/transactions.ts:161-183 | that balance in closed form |
| StoredBalance.BalancesDiffer | packages/ledger/src/transactions.ts:161-183 | otherwise two deliveries leave different stored balances |
| StoredBalance.PlainStoredBalance | packages/ledger/src/transactions.ts:161-183 | if no transaction both debits and credits the account: the same stored balance in every delivery iff its balance covers all its debits or the pool credits it nothing |
| StoredBalance.FundingOrderShowsInBalance | packages/ledger/src/accounts.ts:82-101 | a credit and a debit commute on the stored balance iff the debit is covered without the credit or there is no credit |
| Gossip.TableWithinPool | packages/ledger/src/transactions.ts:133-191 | while the network mints within the cap, a node's table holds only published transactions, as published, whoever is registered |
| Gossip.BroughtIsKept | packages/ledger/src/transactions.ts:133-191 | and everything that ever reached the node or was made by it |
| Gossip.CaughtUpExactly | packages/ledger/src/transactions.ts:137-149 | a node that has caught up holds exactly the published table iff the network mints within the cap |
| Gossip.NodeHolds | packages/ledger/src/transactions.ts:133-191 | its supply, fee total and net balances are the sums over everything published, less exactly what it did not count or book |
| Gossip.NodesAgree | packages/ledger/src/transactions.ts:133-191 | any two nodes that have caught up agree on table and supply, whatever they did themselves and in whatever order they learned the rest; on fees and net balances iff they left the same amounts uncounted and unbooked |
| Gossip.RegularNodesAgree | packages/ledger/src/transactions.ts:133-191 | with the credited parties registered they agree on fees and on every account but NETWORK, and on NETWORK iff they spent the same in its name |
| Replication.ReplaySimulates | packages/ledger/src/transactions.ts:133-191 | replaying a local log never rejects or clamps; the replica differs only in two known amounts |
| Replication.ReplayExactly | packages/ledger/src/transactions.ts:27-75 | table, supply and deficits always agree; balances iff no transfer from NETWORK; fee total iff all named relays had accounts |
| Replication.SnapshotRoundTrip | packages/ledger/src/index.ts:359-386 | loading a snapshot into a fresh ledger restores balances and supply and nothing else |
| Replication.LoadedExactly | packages/ledger/src/index.ts:360-383 | loading into any ledger overwrites or inserts the listed accounts, sets the supply and leaves everything else |
| Replication.SnapshotThenSuffix | packages/ledger/src/index.ts:346-386 | snapshot plus unrecorded later transactions gives the balances and supply of the full history; table, fees and deficits split at the snapshot |
| Replication.SnapshotFollowsLocalRun | packages/ledger/src/index.ts:346-386 | a restored node follows the original node's own later operations |
| Replication.ResendExactly | packages/ledger/src/index.ts:319-329 | for a transaction that moves something, the restored ledger stays in step iff the original had not recorded it |
| Rounding.RoundLuxInUnits | packages/shared/src/types.ts:292-294 | rounding Lux values to eight places is rounding units to integers, halves upwards |
| Rounding.RoundNearest | packages/shared/src/types.ts:292-294 | the result is the nearest unit, upwards from the middle |
| Rounding.FeeExactly | packages/ledger/src/transactions.ts:33-34 | for any real amount the fee is 0 without a relay, else the larger of 100 units and a thousandth rounded down |
| Rounding.TransferDrift | packages/ledger/src/transactions.ts:33-71 | a transfer of any positive real amount changes the sum of balances by 0, or by one unit iff the fractional unit is one half; balances stay on-grid and non-negative, for every coincidence of relay with sender or recipient |
| Rounding.RunDrift | packages/ledger/src/transactions.ts:33-71 | over a run the sum grows by exactly the number of accepted half-unit transfers |
| Rounding.OnGridTransfer | packages/ledger/src/transactions.ts:27-75 | for on-grid amounts the rounded transfer accepts exactly the orders that the exact one posts, fresh id aside, and leaves the same balances |
| Contributions.Store.Register | packages/ledger/src/contributions.ts:28-39 | adds a row for a registered peer |
| Contributions.Store.Deactivate | packages/ledger/src/contributions.ts:113-117 | clears the active flag of an existing row |
| Contributions.RewardShrinks | packages/ledger/src/contributions.ts:133-139 | the reward never grows with the number of accounts and stays between one and five base rewards |
| Contributions.RewardInLux | packages/ledger/src/contributions.ts:133-139 | ten, six, four or two Lux for up to 100, 1000, 10000 and more accounts |
| Contributions.Store.Use | packages/ledger/src/contributions.ts:62-96 | usage with every error case; one that throws changes no table, ledger included |
| Contributions.UsageCharged | packages/ledger/src/contributions.ts:79-83 | over every run a row is charged the sum of the costs of exactly its usages that went through, and counts them |
| Contributions.RowOrigin | packages/ledger/src/contributions.ts:28-39 | over every run a row has the peer and cap of the event that registered it and is active iff it was not deactivated since |
| Contributions.CapRefusesExactly | packages/ledger/src/contributions.ts:67-70 | over every run a use of an active row is refused for the cap iff the costs so far and the new one exceed the cap given at registration |
| Contributions.UseVerdict | packages/ledger/src/contributions.ts:62-92 | a usage is refused as unknown, inactive or over the cap, or goes through, iff the stated conditions hold |
| Contributions.UsageWithinCap | packages/ledger/src/contributions.ts:67-70 | on every run what a row was charged stays within its monthly cap |
| Contributions.PaidIsMinted | packages/ledger/src/contributions.ts:79-92 | what a usage emits moves the supply, the contributor's balance and the table by that amount |
| Contributions.CutOffExactly | packages/ledger/src/contributions.ts:72-92 | a reward is paid in full iff the hard cap leaves room for it, else it is short by the overshoot and still positive |
| Contributions.EarningsAccounted | packages/ledger/src/contributions.ts:79-92 | over every run recorded earnings are the Lux emitted for the row plus the overshoots over the hard cap; they equal the emitted Lux iff every rewarded usage met supply plus reward within the cap |
| Usernames.ApplyHolds | packages/ledger/src/accounts.ts:143-176 | who holds which name after a claim that is applied, rejected or refused by the unique index |
| Usernames.ApplyVerdict | packages/ledger/src/accounts.ts:144-157 | a claim is turned down iff another account with an older or equal time holds the name |
| Usernames.NamesStayApart | packages/ledger/src/database.ts:173-177 | no sequence of claims lets two accounts share a name, up to letter case |
| Usernames.KeyExactly | packages/ledger/src/database.ts:173-177 | names are the same to the index iff they have the same length and differ in ASCII letter case at most, letter by letter |
| Usernames.NoTwoHolders | packages/ledger/src/database.ts:173-177 | no sequence of claims gives two accounts names that differ in letter case only |
| Usernames.ContestedClaim | packages/ledger/src/accounts.ts:145-176 | a claim of a name that another account has, up to letter case, is rejected iff that account's time is not later; otherwise that row is cleared and the claimant's row installed, and no other row changes |
| Usernames.FreeClaim | packages/ledger/src/accounts.ts:160-176 | a claim of a name that nobody else has changes the claimant's row only |
| Usernames.EmptyClaim | packages/ledger/src/accounts.ts:144-176 | an empty name that somebody else has is refused by the index |
| Usernames.HolderIsEarliest | packages/ledger/src/accounts.ts:143-182 | from any directory left by earlier claims, once all claims have arrived, in any order with repetitions, each claimed name is held, by an earliest claimant |
| Usernames.EarliestKeepsForGood | packages/ledger/src/accounts.ts:144-157 | an earliest claimant that holds its name keeps it whatever arrives |
| Usernames.UsernamesConvergeExactly | packages/ledger/src/accounts.ts:143-182 | from any directory left by earlier claims, all delivery orders of the others give the same holders iff no name is still open between tied earliest claims |
| Usernames.TiesDisagree | packages/ledger/src/accounts.ts:150-153 | with an open tie, two delivery orders give different holders |
| Usernames.TouchForgetsClaimTime | packages/ledger/src/accounts.ts:57-63 | after any other write of updated_at, a rival takes the name iff it claimed before that write |
| Usernames.Directory.ApplyRemoteClaim | packages/ledger/src/accounts.ts:143-182 | the claim as in-place row updates, with rejection and constraint violation |
| PeerExchange.Node.SharePeers | packages/node/src/init-kernel.ts:950-967 | sends to each peer exactly all the other peers, and nothing when there are none |
| PeerExchange.Node.HandleExchange | packages/node/src/init-platform.ts:800-862 | connects to exactly the unknown peers that answer; cascades iff at least one did |
| PeerExchange.ComponentsNeverJoin | packages/node/src/init-platform.ts:800-862 | in every asynchronous run, with failures, losses, late and repeated messages, links stay within the components of the start |
| PeerExchange.ComponentsPreserved | packages/node/src/init-platform.ts:800-862 | while no link is lost the components are exactly those of the start |
| PeerExchange.RoundSquares | packages/node/src/init-kernel.ts:950-967 | one synchronous round links exactly the nodes at distance at most two, in whatever order its messages are handled |
| PeerExchange.RoundsReachExactly | packages/node/src/init-kernel.ts:950-967 | after r rounds two nodes are linked iff a path of at most 2^r links joined them |
| PeerExchange.QuietIffCliques | packages/node/src/init-platform.ts:805-810 | no exchange causes a dial iff every component is a clique |
| PeerExchange.DialShrinksMissing | packages/node/src/init-platform.ts:834-859 | every delivery that reaches a new peer strictly reduces the missing connections |
| PeerExchange.DialsBounded | packages/node/src/init-platform.ts:800-862 | in every asynchronous run without losses, at most as many deliveries lead to a new connection as connections were missing |
| PeerExchange.LogarithmicClosure | packages/node/src/init-kernel.ts:948-967 | once 2^r reaches the number of nodes, r rounds have made every component a clique |
| PeerExchange.ClosureIsQuiet | packages/node/src/init-kernel.ts:948-967 | and from then on no exchange causes a dial |
| TaskClaims.Queue.Release | packages/node/src/platform/task-queue.ts:805-818 | releases a claimed or running task, leaves any other alone |
| TaskClaims.Queue.UpdateRemote | packages/node/src/platform/task-queue.ts:248-285 | applies a remote status only along a valid transition, and reports whether it did |
| TaskClaims.Queue.HandleClaimed | packages/node/src/init-kernel.ts:260-296 | the conflict handler as in-place updates |
| TaskClaims.ClaimedExactly | packages/node/src/init-kernel.ts:260-296 | on any row: an own claim is given up iff the other is earlier, or as early with a smaller peer id; an open task is taken as claimed; any other row stays |
| TaskClaims.TransitionTable | packages/node/src/platform/task-queue.ts:95-104 | the status transitions that remote updates may make |
| TaskClaims.LifecycleExactly | packages/node/src/platform/task-queue.ts:248-285 | what a task can become under any sequence of remote updates: one in review or decided is never reopened |
| TaskClaims.RowIsFirstBeater | packages/node/src/init-kernel.ts:260-296 | at every moment of every run a node's row is its own claim, in progress iff it has begun, or the first better claim delivered to it |
| TaskClaims.ReleasedExactly | packages/node/src/init-kernel.ts:263-286 | a claimant releases iff an earlier claim, or an equally early one with a smaller peer id, has been delivered to it |
| TaskClaims.WinnerExists | packages/node/src/init-kernel.ts:266-274 | among any claimants there is one that beats all others by (claimedAt, peerId) |
| Strings.LessExactly | packages/node/src/init-kernel.ts:272-273 | one peer id is smaller iff it ends or has the smaller character where the two first differ |
| TaskClaims.WinnerNeverReleases | packages/node/src/init-kernel.ts:260-296 | the winner holds its claim at every moment of every run |
| TaskClaims.ExactlyOneHolder | packages/node/src/init-kernel.ts:260-296 | once every claim reached every other claimant, in any order with duplicates, exactly the winner holds its claim |
| TaskClaims.EarliestClaimHolds | packages/node/src/init-kernel.ts:266-274 | that is the claimant whose time is least, and among equal times whose peer id is least |
| TaskClaims.LoserKeepsFirstBeater | packages/node/src/platform/task-queue.ts:259-261 | a loser that hears a better and then the best claim goes on naming the better one |
| NodePool.SeedMatchesHistory | packages/hub/lib/node-pool.ts:181-241 | for every run, a seed's failure count is the failures since its last success, it is healthy iff these are below three, open implies unhealthy, and the circuit's deadline follows from the last tripping failure |
| NodePool.FailuresAfterLastSuccess | packages/hub/lib/node-pool.ts:181-241 | that count is the number of failure events after the last success event |
| NodePool.SeedCandidateExactly | packages/hub/lib/node-pool.ts:127-136 | at every time a seed may be routed to iff fewer than three failures were recorded since its last success |
| NodePool.ListedPositions | packages/hub/lib/node-pool.ts:155-163 | the listed entries are exactly those that are healthy and not closed off at that time, in pool order |
| NodePool.SeedListedExactly | packages/hub/lib/node-pool.ts:155-163 | over every run a seed's URL is listed iff fewer than three failures were recorded since its last success |
| NodePool.SeedTimes | packages/hub/lib/node-pool.ts:171-203 | over every run a seed's latency is that of its last success and its check time that of its last check |
| NodePool.SeedCircuitExactly | packages/hub/lib/node-pool.ts:127-133 | over every run a seed's circuit is open iff it has tripped and nothing was routed since at or after its deadline |
| NodePool.DiscoveredExactly | packages/hub/lib/node-pool.ts:277-300 | a discovered node that answers is appended, and from then on may be routed to iff it passed its check or succeeded since, and has not failed three times since its last success |
| NodePool.KnownExactly | packages/hub/lib/node-pool.ts:277-300 | over every run the pool knows exactly the seeds and the discovered nodes that answered |
| NodePool.UrlsStayDistinct | packages/hub/lib/node-pool.ts:276-284 | no URL is ever in the pool twice |
| NodePool.OpenIsUnhealthy | packages/hub/lib/node-pool.ts:191-237 | no entry, seed or discovered, is ever open and healthy, or healthy with three failures |
| NodePool.RoutingLeavesNoTrace | packages/hub/lib/node-pool.ts:127-136 | leaving all routing requests out of a history changes no field that routing reads later |
| NodePool.RoutingIgnoresCircuit | packages/hub/lib/node-pool.ts:121-152 | every routing answer is that of a pool that never saw a routing request, at any other time |
| NodePool.FastestIsFirst | packages/hub/lib/node-pool.ts:143-151 | no candidate is faster than the chosen one and every candidate before it is slower |
| NodePool.ChooseExactly | packages/hub/lib/node-pool.ts:138-151 | the answer is the primary without candidates, the random pick on a cold start, else the first candidate of least latency |
| NodePool.RoutesToListed | packages/hub/lib/node-pool.ts:121-152 | routing answers with a listed URL whenever there is one |
| NodePool.TrippedSeedNotRouted | packages/hub/lib/node-pool.ts:121-152 | over every run a seed with three failures since its last success is routed to only as the primary, when nobody is listed |
| NodePool.Pool.Record | packages/hub/lib/node-pool.ts:181-241 | success, failure and health-check outcomes as updates of the named entry |
| NodePool.Pool.AddDiscovered | packages/hub/lib/node-pool.ts:277-300 | adds an unknown node that answers, healthy iff its check passed; drops one that does not answer |
| NodePool.Pool.GetHealthyNodes | packages/hub/lib/node-pool.ts:155-163 | the URLs of the candidates in pool order: exactly those of entries that are healthy and not closed off |
| NodePool.Pool.Select | packages/hub/lib/node-pool.ts:138-151 | the primary without candidates, a random one on a cold start, else the first of least latency |
| NodePool.Pool.GetBestNodeUrl | packages/hub/lib/node-pool.ts:121-152 | routing with its expiry writes |
| Revocation.Store.RevokeToken | packages/identity/src/auth/jwt.ts:27-32 | stores the given expiry, or the default when it is missing or zero |
| Revocation.Store.CleanUp | packages/identity/src/auth/jwt.ts:15-22 | removes exactly the entries that have expired |
| Revocation.Store.Verify | packages/identity/src/auth/jwt.ts:92-98 | accepts iff unexpired and not listed |
| Revocation.CleanedBehavesLikeFull | packages/identity/src/auth/jwt.ts:13-37 | for tokens whose revocations are kept as long as they live, the cleaned blacklist answers like one never cleaned |
| Revocation.ListedExactly | packages/identity/src/auth/jwt.ts:15-32 | over every run an id is listed iff it was revoked and no cleanup came after its last revocation's time to be kept, the given one or a day |
| Revocation.AcceptedExactly | packages/identity/src/auth/jwt.ts:92-98 | over every run a token passes iff it has not expired and its id, if any, is not listed |
| Revocation.IssuedExactly | packages/identity/src/auth/jwt.ts:49-57 | an issued token passes for its lifetime, a day unless another was given, until its id is listed |
| Revocation.RefusedExactly | packages/identity/src/auth/jwt.ts:26-37 | a revoked token is refused at every later moment of every run iff the entry is kept until the token's expiry, or it has expired already |
| Revocation.DefaultRevocationSuffices | packages/identity/src/auth/jwt.ts:49-57 | the default expiry suffices for every token issued with at most the default lifetime |
| Revocation.LatestRevocationDecides | packages/identity/src/auth/jwt.ts:27-32 | after anything in between, revoking again at a later time keeps the token refused iff the new entry is kept until it expires, or it has expired by then |
| Revocation.ShorterRevocationUndoes | packages/identity/src/auth/jwt.ts:27-32 | so a shorter expiry, given at any later time before the token expires, ends the guarantee |
| Supervisor.PrunedIsWindow | packages/node/src/supervisor.ts:236-240 | the pruned list is always the in-window part of the whole crash history as of the latest crash |
| Supervisor.RespawnsExactly | packages/node/src/supervisor.ts:238-248 | a crash schedules a respawn iff the crash four places before it, if any, is a full window old |
| Supervisor.RespawnRateLimited | packages/node/src/supervisor.ts:236-248 | any stretch shorter than five minutes holds at most four crashes that schedule a respawn |
| Supervisor.Child.NoteCrash | packages/node/src/supervisor.ts:236-240 | a crash is appended, the list pruned to the window, and the answer is whether a respawn fits |
| Supervisor.Child.OnExit | packages/node/src/supervisor.ts:211-277 | each outcome from the exit code and the two flags: ignored, quit on 78, restart on 75, stopped, or a crash that respawns iff the window allows |
| Encodings.UnambiguousExactly | packages/shared/src/crypto.ts:98-101 | colon-joined text has one reading iff no field contains a colon |
| Decimals.AmountInjective | packages/shared/src/crypto.ts:98-101 | different amounts are printed differently, exponents below 10^-6 Lux included |
| Decimals.PlainAmount | packages/shared/src/crypto.ts:98-101 | a printed amount without exponent reads back as its whole part and digits after the point |
| Decimals.ShortAmount | packages/shared/src/crypto.ts:98-101 | one with an exponent reads back as digit, fraction and 10^-8 or 10^-7 |
| Encodings.CanonicalInjective | packages/shared/src/crypto.ts:98-101 | a signed text whose texts have no colon determines the whole transaction, amounts, fee and time included, up to absent and empty relay |
| Encodings.CanonicalExactly | packages/shared/src/crypto.ts:98-101 | it stands for that transaction alone iff id, sender, recipient, relay and type contain no colon |
| Encodings.CanonicalParts | packages/shared/src/crypto.ts:98-101 | split at its colons, the signed text shows the eight fields in order: amount fourth, fee fifth |
| Encodings.UrlRoundTripExactly | packages/identity/src/auth/jwt.ts:128-136 | base64 to base64url and back is the identity iff the text uses the plain alphabet and has correct padding |
| Encodings.WellFormedRoundTrip | packages/identity/src/auth/jwt.ts:128-136 | in particular for every well-formed padded base64 text (section 4 of RFC 4648) |
| Encodings.Base64RoundTripExactly | packages/identity/src/auth/jwt.ts:128-136 | base64url to base64 and back is the identity iff the text uses the URL alphabet and carries no padding |
| Encodings.FromUrlSpells | packages/identity/src/auth/jwt.ts:132-136 | base64url becomes base64 with the same six-bit values, padded to a multiple of four |
| Encodings.ToUrlSpells | packages/identity/src/auth/jwt.ts:128-130 | padded base64 becomes base64url with the same six-bit values and no padding |
| Encodings.Base64UrlToBase64 | packages/identity/src/auth/jwt.ts:132-136 | the conversion with its padding loop |

## Left out

- IEEE double rounding and the string storage of statistics: amounts are exact.
- Remote amounts and fees are taken as non-negative, as the sync layer checks before it calls the ledger (packages/node/src/kernel/sync.ts:286-290).
- The sync layer's own checks (signatures, sender balance, automatic registration) and its sync requests. A delivery is a call of `applyRemoteTransaction`: a transfer whose id the sync layer marks as processed and whose sender balance it then finds too low (packages/node/src/kernel/sync.ts:279-281, 314-321) is dropped before that call and has not reached the node in the sense of `NodesAgree`.
- Transaction timestamps are carried along and signatures are not; `updateSignature` and the read-only queries are not modelled.
- SQLite itself, migrations, snapshot files and their pruning, and the `total_accounts` counter.
- Account columns: balances and claim columns of the account table are modelled separately; `claimAccount`, bans, display names and password hashes are not modelled beyond their write to `updated_at`.
- Usernames.UsernamesConvergeExactly: one claim per peer, no other write of `updated_at` in between; names held at the start come from claims of the pool.
- `rewardWork` and the reward table for other kinds of work: the same emission with another constant.
- PeerExchange: peers whose addresses are unknown, parallel dials of several addresses, and timeouts; a dial succeeds or fails.
- TaskClaims: nodes that claimed nothing, stale-claim timeouts and the later life of the task.
- NodePool: peer ids, capabilities, the private-address filter, and requests that complete while a discovered node is being verified.
- Signing, hashing and JSON: tokens are their verified payload, transaction ids are given.
- Peer ids and texts are compared by character; the programs compare them by UTF-16 unit or by byte, which is the same for ASCII.
- Supervisor: manual starts, the delay before a respawn, and shutdown.
- Hub pages, the terminal interface, the MCP server, loggers and HTTP clients.
