# Verified models of the pricing and routing core

This project models, in Dafny, the parts of the DEX aggregation library that hold real state or real
arithmetic, and proves what they promise. `dafny verify dfyconfig.toml` checks all of it.

- **Event-sourced pool state** (`SubscriberSpec`, `StatefulEventSubscriber`, `SubscriberRuns`,
  `SubscriberPruning`, `SubscriberBoundaries`). The class `Subscriber` keeps the current state, the history
  by block and the invalid flag as its source does; each method is proved equal to a function on values.
  A block manager delivers logs, reorganises the chain, rolls back, restarts and skips; over every such run
  a stored state is the replay of the canonical chain. The block manager keeps the contract written at
  src/dex-helper/iblock-manager.ts:11-45. Pruning the history is never noticed within seven blocks of the
  highest state, as long as no rollback has gone deeper.
- **Composed subscribers** (`ComposedSubscriber`). Several parts share one state and one batch of calls;
  each part sees exactly what it would see alone.
- **Balancer V1** (`BalancerV1Math`, `BalancerV1Series`, `BalancerV1Pool`, `BalancerV1Accuracy`,
  `BalancerV1Selling`, `BalancerV1Buying`, `RoundedPowers`, `RealErrors`). The rounded binomial series against
  the exact one, the pool guard that keeps it in range, and the accuracy of the prices built on it, at the
  exact ratios of balances and fee: absolute for selling, whose base is at most one, relative for buying,
  whose base is at least one.
- **Balancer V2 paths** (`BalancerV2Pools`, `BalancerV2Batch`, `BalancerV2Execution`). Nested pools unfold to
  token paths, and these compile to the flat index-based batch. A batch interpreter gives the flat form a
  meaning; the compiler preserves it. Pools are keyed by address, and nesting is acyclic: a ghost rank falls
  from a pool to the pools among its tokens.
- **Balancer V2 LogExpMath** (`LogExpConstants`, `LogExpExponential`, `LogExpLogarithm`, `LogExpPower`, and
  against the natural exponential `NaturalExponential`, `ExponentialSeries`, `LogExpSeries`, `LogExpTable`,
  `LogExpAccuracy`, `LogarithmAccuracy`, `LogExpInverse`, `LogExpPowerAccuracy`). The greedy decompositions,
  the Taylor tails and signed truncating division; and what they are worth. The natural exponential is a
  parameter `e` with two laws, `e(x + y) = e(x) * e(y)` and `e(x) >= 1 + x`; no more than one function has
  them (`UniqueTheorem`). From these two laws alone follow the brackets of both series, the precomputed
  constants to their twentieth digit, that exponential and logarithm undo each other, and that a power rounded
  up is never below the exact one.
- **KyberDMM power** (`KyberPower`).
- **Cursors, greedy choices and roundings** (`Rfq`, `Interpolate`, `BasisPoints`, `TransferFee`,
  `AdapterMap`, `AdapterCoverage`, `PayloadRoutes`).
- **GMX prices and swaps** (`GmxPrices`, `GmxSwaps`).
- **Tagged serializer, promise scheduler and call packing** (`Serializer`, `PromiseScheduler`,
  `CalldataPacking`, `SimpleSwapCalls`).

Division of bigints truncates toward zero (`Truncating.Quot`). A thrown error is a `Failure` of
`Wrappers.Result`. `BigNumber` values and percentages are exact reals; their roundings are modelled
(`Rounding`). Asynchronous foreign calls are parameters: `generateState`, log processors, builders of call
data, the answers of a batch call, the quotes of a pool.

## Findings

- **Serializer.** `Parse(Serialize(v)) = v` fails in two families. The tags are put on the entries of a
  container, never on the argument itself, so a bare bigint makes `JSON.stringify` throw and a bare
  `BigNumber` comes back as text (`BareBigIntThrows`); a bare non-empty string throws too, because the
  traversal visits its characters and writes them back, which strict mode forbids. And an object with a
  numeric `length` is taken for an array: its other fields are never visited (`LengthHidesBigInt`).
  `RoundTripTheorem` gives the exact condition for every value; containers with neither tag prefixes nor
  such lengths meet it (`OrdinarySurvives`). The traversal is that of lodash 4.17.
- **Deep rollbacks.** A rollback below everything the pruned history keeps drops the state although older
  ones were recorded and never withdrawn, and so does a later rollback that is again within seven blocks of
  the highest state (`DeepRollbackLosesState`). `GroundedTheorem` gives the exact condition: the history
  still holds a block at or before the target, or nothing was ever recorded there.
- **Out-of-order setState.** Setting the state of a delivered block older than everything on record can
  leave a gap whose logs were never played. `LateStateLeavesGap` gives an input, `GapTheorem` the exact
  condition.
- **Repeated addresses.** A part that lists one address twice has its logs applied twice. `RunsOnce`
  proves for every part that listing each address once applies each log once, and `OnceTheorem` that a part
  which counts its logs needs it.
- **Zero amounts in a batch.** A pool swap with amount zero cannot be told from a continuation, so the
  compiled batch cannot execute; `CompilerTheorem` proves the amounts being non-zero necessary and
  sufficient.
- **Comments.** The comment above the exponential says the remainder falls below the smallest constant; the
  code stops at the ninth, and `ReduceAll` proves the remainder of division by that one. The comment in the
  logarithm, that what is left is smaller than the last constant, is proved (`RemainderTheorem`), and so is
  the relative error that the library allows a power, one in the fourteenth digit (`PowTheorem`,
  `PowUpTheorem`): both branches of the logarithm come to about two thirds of it.

## Model

| member | source | states |
|---|---|---|
| StatefulEventSubscriber.Subscriber.SetState | src/stateful-event-subscriber.ts:463-482 | the whole new state: the block recorded, the current state replaced only by one at least as new, the invalid flag cleared with it, the history pruned seven blocks below |
| StatefulEventSubscriber.Subscriber.PruneHistory | src/stateful-event-subscriber.ts:473-481 | deleting keys in ascending order keeps exactly the entries from the last one at or before the oldest block to keep |
| StatefulEventSubscriber.Subscriber.Restart | src/stateful-event-subscriber.ts:216-225 | entries before the block go, and a current state older than it is dropped |
| StatefulEventSubscriber.Subscriber.Invalidate | src/stateful-event-subscriber.ts:349-351 | only the flag changes |
| StatefulEventSubscriber.Subscriber.Rollback | src/stateful-event-subscriber.ts:320-347 | with the flag set, newer entries go and the state falls back to the last one left or to none; without it the current state stays on record |
| StatefulEventSubscriber.Subscriber.GetState | src/stateful-event-subscriber.ts:359-365 | a state is handed out only when set and valid, and tracked or not older than asked for |
| StatefulEventSubscriber.Subscriber.ProcessBlockLogs | src/stateful-event-subscriber.ts:190-205 | logs are folded in order, each onto the last state that a log produced |
| StatefulEventSubscriber.Subscriber.Update | src/stateful-event-subscriber.ts:234-285 | logs are played block by block, a missing state is generated at the first block, and the flag is cleared |
| StatefulEventSubscriber.Subscriber.StateBefore | src/stateful-event-subscriber.ts:265-271 | the search over ascending keys finds the last entry before the block |
| SubscriberRuns.StepSound | src/dex-helper/iblock-manager.ts:11-45 | every event the block manager may cause keeps the system sound, also between a reorganisation and its rollback |
| SubscriberRuns.ReplayTheorem | src/stateful-event-subscriber.ts:234-285 | after every run each history entry and the current state are the replay of the canonical chain to their blocks, and between recorded blocks nothing has been missed |
| SubscriberRuns.HandedOutTheorem | src/stateful-event-subscriber.ts:359-365 | at any point of any run, also in the middle of a reorganisation, a state that is handed out is the replay of the canonical chain to its block |
| SubscriberRuns.UpdateTheorem | src/stateful-event-subscriber.ts:234-285 | an update always ends with the flag cleared; with no logs nothing else changes; a state stays one and never goes back, and the first logs bring one where there was none |
| SubscriberRuns.DeliveredTheorem | src/stateful-event-subscriber.ts:359-365 | after any run, also an invalidation, delivering blocks hands the replay of the chain to its block to exactly those who track or ask for nothing newer |
| SubscriberRuns.FlagTheorem | src/stateful-event-subscriber.ts:349-365 | a state set at the current block or later is handed out at once, one set earlier changes nothing of it, and an invalidation or reorganisation stops it |
| SubscriberRuns.RollbackKeeps | src/stateful-event-subscriber.ts:320-347 | exactly the entries up to the target stay, without the flag the current one too; with it the state is the last one kept |
| SubscriberRuns.RestartKeeps | src/stateful-event-subscriber.ts:216-225 | exactly the entries from the block on stay, and the current state if it is one of them |
| SubscriberRuns.HistoryStaysShort | src/stateful-event-subscriber.ts:473-481 | when a state is set, all entries but the oldest lie within seven blocks of the current one |
| SubscriberRuns.SetStateConsistent | src/stateful-event-subscriber.ts:463-482 | recording a state keeps history and chain together unless it would open a gap |
| SubscriberRuns.DeliverConsistent | src/stateful-event-subscriber.ts:234-285 | delivering the logs of blocks d+1 to e takes a history faithful to d to one faithful to e: no log twice, none lost |
| SubscriberRuns.RollbackConsistent | src/stateful-event-subscriber.ts:320-347 | rolling an invalid subscriber back to the fork leaves only entries the new chain shares |
| SubscriberPruning.PruningTheorem | src/stateful-event-subscriber.ts:463-482 | after any operations whose rollbacks stay within seven blocks of the highest state, the latest state at or before a block in that window is what it would be without pruning |
| SubscriberPruning.RollbackTheorem | src/stateful-event-subscriber.ts:320-337 | after such operations an invalid rollback into the window lands on the latest state recorded there and not withdrawn, and on none exactly if there is none |
| SubscriberPruning.GroundedTheorem | src/stateful-event-subscriber.ts:320-337 | for rollbacks of any depth: history and rollback give what was recorded if and only if the history still has an entry at or before the target or nothing was recorded there |
| SubscriberPruning.DeepRollbackLosesState | src/stateful-event-subscriber.ts:320-337 | a run whose rollback below the history makes a later one, within the window, lose a recorded state |
| SubscriberBoundaries.SplitTheorem | src/stateful-event-subscriber.ts:234-285 | two updates cut between blocks do what one update with all logs does |
| SubscriberBoundaries.FreshStateIgnoresLogs | src/stateful-event-subscriber.ts:261-284 | a state generated at a block is not played that block's logs |
| SubscriberBoundaries.GapTheorem | src/stateful-event-subscriber.ts:463-482 | an older state keeps the history faithful if and only if it is pruned at once or nothing changed in the gap after it |
| SubscriberBoundaries.SilentGapIsHarmless | src/stateful-event-subscriber.ts:463-482 | if no log in the gap after it changes the state, an older state may be set |
| SubscriberBoundaries.LateStateLeavesGap | src/stateful-event-subscriber.ts:463-482 | a chain and a late state after which the history is no longer faithful |
| ComposedSubscriber.Composed.constructor | src/composed-event-subscriber.ts:45-76 | the address index lists the parts of each address in order and the slices are the running totals of the parts' calls |
| ComposedSubscriber.Composed.ProcessOne | src/composed-event-subscriber.ts:78-100 | the parts subscribed to the log's address take turns, each on the state the ones before it left |
| ComposedSubscriber.Composed.GenerateState | src/composed-event-subscriber.ts:102-130 | every part's piece is generated from its own slice and set in order |
| ComposedSubscriber.SimulationTheorem | src/composed-event-subscriber.ts:78-100 | with lawful disjoint lenses, a part's view after any logs is the part run alone over the logs it is subscribed to |
| ComposedSubscriber.OnceTheorem | src/composed-event-subscriber.ts:55-65 | for the part that counts its logs, running alone is folding each own log once exactly when no address is listed twice |
| ComposedSubscriber.RunsOnce | src/composed-event-subscriber.ts:55-65 | for every part that lists each address once, running alone is folding each own log once |
| ComposedSubscriber.SliceIsOwn | src/composed-event-subscriber.ts:67-75 | a part's slice of the answers is the answers to its own calls |
| ComposedSubscriber.GenerationTheorem | src/composed-event-subscriber.ts:102-130 | the generated state shows each part what it generates from its own answers |
| BalancerV1Math.Bpowi | src/dex/balancer-v1/balancer-v1-math.ts:53-65 | the square-and-multiply loop computes the recursive power, and every value on the way stays within one for a base within one |
| BalancerV1Math.PowiStaysWithinOne | src/dex/balancer-v1/balancer-v1-math.ts:53-65 | squares and products of a base between 0 and 1 stay between 0 and 1 at every iteration |
| BalancerV1Math.BpowApprox | src/dex/balancer-v1/balancer-v1-math.ts:94-118 | the series loop computes the recursive series and stops |
| BalancerV1Math.NextTermExists | src/dex/balancer-v1/balancer-v1-math.ts:103-108 | a next term always exists and is smaller, while the base keeps a margin from 0 and 2 |
| BalancerV1Series.PowerSeriesTheorem | src/dex/balancer-v1/balancer-v1-math.ts:94-118 | for guarded bases at most 34 iterations of the loop, the last one included, no failing subtraction, the right side of one, and the exact binomial series of any greater length to a fixed error |
| BalancerV1Series.TailBound | src/dex/balancer-v1/balancer-v1-math.ts:94-118 | the exact series converges geometrically: later terms add up to at most the term they follow |
| BalancerV1Accuracy.PowiTheorem | src/dex/balancer-v1/balancer-v1-math.ts:38-65 | for a base up to one the n-th power is within (n-1)/2 units of the exact one, and within one |
| BalancerV1Accuracy.PowerAccuracy | src/dex/balancer-v1/balancer-v1-math.ts:67-92 | bpow is the exact power to half a unit a whole factor plus the series error |
| BalancerV1Selling.SellAccuracy | src/dex/balancer-v1/balancer-v1-math.ts:120-136 | calcOutGivenIn is balanceOut * (1 - x^w) at the exact ratio x = balanceIn / (balanceIn + amountIn * (1 - fee)), to the error of the power and of the rounded base |
| BalancerV1Pool.SellRatioTheorem | src/dex/balancer-v1/balancer-v1-math.ts:129-131 | the selling base is that ratio, to the two half-up roundings |
| BalancerV1Pool.BuyRatioTheorem | src/dex/balancer-v1/balancer-v1-math.ts:147-148 | the buying base is balanceOut / (balanceOut - amountOut), rounded half up |
| BalancerV1Pool.GuardTheorem | src/dex/balancer-v1/balancer-v1-pool.ts:113-117 | amounts are admitted up to half of the incoming balance or a third of the outgoing one, and priced at zero beyond |
| BalancerV1Buying.PowerGrowth | src/dex/balancer-v1/balancer-v1-math.ts:67-92 | for a base from 1 to 3/2, bpow lies within half a unit in BONE a whole factor, compounded, and the series error of the exact power |
| BalancerV1Buying.BuyAccuracy | src/dex/balancer-v1/balancer-v1-math.ts:138-155 | calcInGivenOut is balanceIn * (x^w - 1) / (1 - fee) at the exact ratio x = balanceOut / (balanceOut - amountOut), between the least and the most the rounded power may be, to half a unit a rounding |
| BalancerV1Pool.GuardedBase | src/dex/balancer-v1/balancer-v1-pool.ts:113-117 | every admitted amount gives a base within 2/3 and 3/2, where the series stops |
| BalancerV1Pool.GuardedPower | src/dex/balancer-v1/balancer-v1-math.ts:67-92 | within the guard a power never throws and stays on its base's side of one |
| BalancerV1Pool.CalcPriceTheorem | src/dex/balancer-v1/balancer-v1-pool.ts:94-139 | no admitted amount makes the formulas throw; selling pays between nothing and the pool's balance, buying costs at least nothing |
| BalancerV2Pools.PoolGetMainTokens | src/dex/balancer-v2/utils.ts:100-159 | the recursive accumulation computes the main tokens of the pool's tokens in order |
| BalancerV2Pools.MainTokensExact | src/dex/balancer-v2/utils.ts:100-159 | a main token is found if and only if it is reached by entering every nested pool met and stopping at the first plain token, with exactly that path |
| BalancerV2Pools.PathTheorem | src/dex/balancer-v2/utils.ts:43-74 | the hops connect the incoming to the outgoing token through any nesting; a failure means one of the tokens is no main token |
| BalancerV2Batch.GetBalancerParam | src/dex/balancer-v2/balancer-v2.ts:1038-1120 | the loop compiles every pool swap or fails as the first one that cannot be unfolded |
| BalancerV2Execution.ExecutionTheorem | src/dex/balancer-v2/balancer-v2.ts:1038-1120 | executing compiled groups computes what swapping along each path hop by hop computes; when no path returns to its start, that takes non-zero amounts |
| BalancerV2Execution.CompilerTheorem | src/dex/balancer-v2/balancer-v2.ts:1038-1120 | for two different tokens, the compiled request executes, hop by hop along every path, exactly when every pool swap has an amount |
| BalancerV2Execution.OnePath | src/dex/balancer-v2/balancer-v2.ts:1077-1112 | one compiled group, on either side and after anything, computes its path |
| BalancerV2Execution.OrderTheorem | src/dex/balancer-v2/balancer-v2.ts:1077-1112 | in final order the first swap of a group carries its amount, all others are zero and share the connecting asset with the one before |
| BalancerV2Execution.GroupTheorem | src/dex/balancer-v2/balancer-v2.ts:1058-1099 | the hops of a group run from the source to the destination token, WETH for ETH, and its assets name each hop's tokens, WETH as the null address only when ETH is asked for |
| BalancerV2Execution.FlatTheorem | src/dex/balancer-v2/balancer-v2.ts:1077-1112 | in the flat batch every hop of every group has its swap, and the assets at its two indexes name the hop's tokens, the incoming one of the first hop up to case; as many limits as assets |
| BalancerV2Execution.AssetsTheorem | src/dex/balancer-v2/balancer-v2.ts:1046-1118 | without ETH in the request every asset is literally a token; with it no asset is WETH, the null address stands exactly where WETH was, and every other asset is its token; every limit is the largest signed number of 256 bits |
| BalancerV2Execution.SameGroup | src/dex/balancer-v2/balancer-v2.ts:1060-1073 | the double reversal of a purchase restores the path of a sale |
| LogExpExponential.ReduceAll | src/dex/balancer-v2/balancer-v2-math.ts:314-349 | the greedy steps leave the remainder of x by the last constant, and their product is the exact one but for eight roundings |
| LogExpExponential.Taylor | src/dex/balancer-v2/balancer-v2-math.ts:354-396 | twelve terms are at least 1 + x and below the exact sum by at most 24 roundings |
| LogExpExponential.ExpNonNegative | src/dex/balancer-v2/balancer-v2-math.ts:284-405 | the exponential is at least 1 + x and the exact value rounded down 33 times |
| LogExpPower.Exp | src/dex/balancer-v2/balancer-v2-math.ts:267-405 | fails exactly outside the admitted exponents; a negative one gives the rounded inverse, between nothing and one |
| NaturalExponential.ComparisonAbove | src/dex/balancer-v2/balancer-v2-math.ts:267-283 | a function that grows step by step at most as the exponential of another, but for quadratic errors, does so over the whole interval |
| NaturalExponential.ComparisonBelow | src/dex/balancer-v2/balancer-v2-math.ts:267-283 | the same for at least |
| NaturalExponential.UniqueTheorem | src/dex/balancer-v2/balancer-v2-math.ts:267-283 | the two laws leave only one natural exponential |
| ExponentialSeries.TaylorTheorem | src/dex/balancer-v2/balancer-v2-math.ts:354-396 | however many terms are taken, the exponential lies between their sum and the sum with twice the next term |
| ExponentialSeries.LogarithmTheorem | src/dex/balancer-v2/balancer-v2-math.ts:421-452 | twice the sum of the odd powers of (a - 1) / (a + 1), however many, is at most the logarithm of a, and with four times the next term at least |
| LogExpTable.ConstantsTheorem | src/dex/balancer-v2/balancer-v2-math.ts:189-209 | each constant with 20 decimals is the exponential of its exponent to half a digit |
| LogExpTable.WholeConstantsTheorem | src/dex/balancer-v2/balancer-v2-math.ts:184-187 | so are the two whole constants |
| LogExpAccuracy.ExpAccuracy | src/dex/balancer-v2/balancer-v2-math.ts:267-405 | the exponential of any admitted argument is the natural one rounded down, but for four units in the eighteenth digit |
| LogExpLogarithm.SeriesTail | src/dex/balancer-v2/balancer-v2-math.ts:421-452 | the series' partial sums keep the sign of z and stay below z plus the weighted next power |
| LogExpLogarithm.LnUpTheorem | src/dex/balancer-v2/balancer-v2-math.ts:459-591 | from one upward 0 <= ln(a) <= a - 1 |
| LogExpLogarithm.DecompositionTheorem | src/dex/balancer-v2/balancer-v2-math.ts:500-550 | remainder times the constants divided out make up the argument to one unit a step, and the sum is of exactly their logarithms |
| LogExpLogarithm.WholeDecompositionTheorem | src/dex/balancer-v2/balancer-v2-math.ts:483-550 | the same with the two whole constants: all twelve divisors and the remainder make up the argument to 210 units |
| LogExpLogarithm.RemainderTheorem | src/dex/balancer-v2/balancer-v2-math.ts:483-550 | from one upward what is left is at least one and smaller than the last constant |
| LogExpLogarithm.Ln | src/dex/balancer-v2/balancer-v2-math.ts:459-591 | one recursive call at most; the sign of a - 1; the decomposed sum plus the series, doubled |
| LogExpLogarithm.Ln36 | src/dex/balancer-v2/balancer-v2-math.ts:407-454 | seven terms with 36 decimals, with the sign of x - 1 |
| LogExpSeries.SeriesTheorem | src/dex/balancer-v2/balancer-v2-math.ts:407-454 | the rounded series of any number and length is twice the exact one at the exact ratio (a - 1) / (a + 1), short of it by at most 2 + 6k units toward zero |
| LogarithmAccuracy.LnAccuracy | src/dex/balancer-v2/balancer-v2-math.ts:459-591 | the logarithm of any admitted number is the natural one to four and a half units of the eighteenth decimal |
| LogExpInverse.ExpOfLnTheorem | src/dex/balancer-v2/balancer-v2-math.ts:267-591 | exp(ln(a)) is a to less than nine units in the eighteenth digit, rounded down |
| LogExpInverse.LnOfExpTheorem | src/dex/balancer-v2/balancer-v2-math.ts:267-591 | ln(exp(x)) is x to at most eight units above, and below to nine and what one unit of exp(x) is worth |
| LogExpPower.Pow | src/dex/balancer-v2/balancer-v2-math.ts:212-265 | every error exactly where it is thrown, otherwise the exponential of y * ln(x); the result lies on the same side of one as x |
| LogExpPowerAccuracy.PowTheorem | src/dex/balancer-v2/balancer-v2-math.ts:84-85 | pow(x, y) is the natural power x^y rounded down, but for seven in the fifteenth digit: within the documented largest relative error |
| LogExpPowerAccuracy.PowUpFixed | src/dex/balancer-v2/balancer-v2-math.ts:138-146 | the power and its largest error rounded up, and every error of the power |
| LogExpPowerAccuracy.PowUpTheorem | src/dex/balancer-v2/balancer-v2-math.ts:138-146 | a power rounded up is never below the exact one, and at most two in the fourteenth digit and three units above it |
| KyberPower.UnsafePowInPrecision | src/dex/kyberdmm/math-ext.ts:13-29 | fails exactly above the precision, otherwise the loop computes the recursive power |
| KyberPower.PowStaysWithinOne | src/dex/kyberdmm/math-ext.ts:13-29 | squares and products stay within the precision at every iteration |
| KyberPower.PowerTheorem | src/dex/kyberdmm/math-ext.ts:6-29 | the power is low by at most k - 1 units, never high, never above one |
| Rfq.CalcOutsFromAmounts | src/dex/generic-rfq/generic-rfq.ts:80-124 | the shared cursor gives every ascending amount the rounded value of filling it on its own |
| Rfq.ScratchTheorem | src/dex/generic-rfq/generic-rfq.ts:93-118 | filling one amount from the first order succeeds exactly within the book's depth and gives that value |
| Rfq.UnfilledTheorem | src/dex/generic-rfq/generic-rfq.ts:112-120 | outputs are zero from exactly the first amount beyond the depth on |
| Rfq.MonotoneTheorem | src/dex/generic-rfq/generic-rfq.ts:80-124 | a bigger amount never gives less, also after scaling and rounding |
| Rfq.FilledOutputsGrow | src/dex/generic-rfq/generic-rfq.ts:80-124 | filled outputs never fall along an ascending list |
| Rfq.OutputsTheorem | src/dex/generic-rfq/generic-rfq.ts:80-124 | every output is what filling its amount alone gives, times the multiplier, to the nearest unit |
| Interpolate.InterpolateAll | src/utils.ts:140-196 | the single cursor computes the sweep, and on ascending volumes what a search for each volume gives |
| Interpolate.ValidKnots | src/utils.ts:146-155 | the marks are exactly the prefix maxima |
| Interpolate.CursorTheorem | src/utils.ts:157-196 | on ascending volumes the moving cursor agrees with fresh searches and never divides by zero |
| Interpolate.Bracketed | src/utils.ts:161-195 | every sell price lies between the prices of the knots around its volume |
| Interpolate.MonotoneTheorem | src/utils.ts:140-196 | selling more never earns less on a rising curve |
| Interpolate.KnotTheorem | src/utils.ts:175-178 | at a valid knot the price is the knot's own, at an invalid one zero |
| Interpolate.LineTheorem | src/utils.ts:157-196 | selling or buying, between valid knots the price is linear to one unit; beyond the curve selling keeps the last price and buying asks for the largest number there is |
| BasisPoints.ConvertToBasisPoints | src/utils.ts:32-57 | fails only without a total; otherwise exactly 10000 in all and every entry within less than one of its exact share |
| BasisPoints.StableOrder | src/utils.ts:46-53 | the errors in order, equal ones by position |
| BasisPoints.CorrectionReaches | src/utils.ts:45-55 | the list of errors is long enough and every corrected entry errs the other way |
| BasisPoints.NeverNegative | src/utils.ts:32-57 | non-negative shares stay non-negative and empty ones empty |
| TransferFee.ApplyTransferFee | src/lib/token-transfer-fee.ts:3-42 | each amount through all transfers; the shortcut for nothing to charge is indistinguishable; a full fee divides by zero when buying |
| TransferFee.AdjointTheorem | src/lib/token-transfer-fee.ts:15-41 | sell^k(x) <= r if and only if x <= buy^k(r) |
| TransferFee.ExactTheorem | src/lib/token-transfer-fee.ts:15-41 | sell^k(buy^k(r)) = r |
| TransferFee.OneTransferTheorem | src/lib/token-transfer-fee.ts:15-41 | one transfer takes the fee's share, rounded down; grossing up divides by what the fee leaves, rounded down |
| AdapterMap.GetOptimalExchangeAdapterMap | src/router/payload-encoder.ts:244-292 | the recursion over dictionaries computes the greedy choice |
| AdapterMap.PointsTheorem | src/router/payload-encoder.ts:252-262 | the points of an adapter count its mentions |
| AdapterMap.BestIsBest | src/router/payload-encoder.ts:264-266 | no adapter is mentioned more often than the chosen one |
| AdapterMap.LastOfTheBest | src/router/payload-encoder.ts:264-266 | of adapters with equally many mentions the last one is taken |
| AdapterMap.FirstFound | src/router/payload-encoder.ts:268-287 | of several entries for one adapter in an exchange's list the first is taken |
| AdapterCoverage.AssignedTheorem | src/router/payload-encoder.ts:244-292 | selling succeeds exactly when every exchange is known with an adapter, and each gets an entry of its own list |
| AdapterCoverage.BuyTheorem | src/router/payload-encoder.ts:273-287 | a purchase succeeds exactly when every exchange is known with a buy adapter and one adapter serves them all, and then uses just one |
| AdapterCoverage.RoundTheorem | src/router/payload-encoder.ts:264-287 | if k adapters would do, one round takes at least the k-th part |
| AdapterCoverage.GreedyTheorem | src/router/payload-encoder.ts:244-292 | after r rounds left * k^r <= n * (k-1)^r |
| AdapterCoverage.UsedTheorem | src/router/payload-encoder.ts:288-291 | r rounds that leave nothing use at most r adapters |
| AdapterCoverage.SingleAdapter | src/router/payload-encoder.ts:244-292 | an adapter that serves every exchange makes the choice use a single one |
| PayloadRoutes.GetAdapters | src/router/payload-encoder.ts:186-239 | the greedy groups in order of first use, the shares of each route exact to 10000 |
| PayloadRoutes.GroupTheorem | src/router/payload-encoder.ts:192-227 | an adapter's route holds exactly the exchanges assigned to it, in order, and charges their fees |
| PayloadRoutes.EntriesTheorem | src/router/payload-encoder.ts:192-227 | each entry carries the index of its own exchange's configuration, its share to the nearest basis point, its fee and payload, in the order of the swap |
| PayloadRoutes.AdapterShareTheorem | src/router/payload-encoder.ts:192-227 | an adapter's share is the sum of its exchanges' to half a basis point each, and exact when they are whole |
| PayloadRoutes.FeeTheorem | src/router/payload-encoder.ts:218-221 | the fees of all adapters are the fees of all exchanges |
| PayloadRoutes.GetContractPathsWithNetworkFee | src/router/payload-encoder.ts:102-125 | the running total is what the exchanges of all hops ask for |
| PayloadRoutes.GetMegaSwapPathsWithNetworkFee | src/router/payload-encoder.ts:127-143 | the same over all routes |
| GmxPrices.MinMaxTheorem | src/dex/gmx/vault-price-feed.ts:44-140 | minimum and maximum price succeed together, and the minimum is at most the maximum through every stage |
| GmxPrices.FastOrdered | src/dex/gmx/fast-price-feed.ts:78-144 | the fast feed orders its two prices around the reference |
| GmxPrices.PrimaryTheorem | src/dex/gmx/vault-price-feed.ts:148-208 | the primary price is the answer at its decimals, rounded down; every error where it is thrown |
| GmxPrices.FastTheorem | src/dex/gmx/fast-price-feed.ts:78-144 | an old update leaves the spread reference price; a recent one counts alone when favoured and within its deviation, otherwise the higher or the lower of the two does |
| GmxPrices.StableTheorem | src/dex/gmx/vault-price-feed.ts:107-125 | a strict stable token costs a dollar near it, and further off the maximum may be above and the minimum below |
| GmxPrices.StagesTheorem | src/dex/gmx/vault-price-feed.ts:44-140 | a price has gone through primary price, fast feed, stable rule or spread, and adjustment, in this order |
| GmxSwaps.FeeTheorem | src/dex/gmx/vault-utils.ts:8-52 | a dynamic fee lies between nothing and base plus tax |
| GmxSwaps.FeeShapeTheorem | src/dex/gmx/vault-utils.ts:8-52 | a swap towards the target gets the rebate its distance earns, any other pays its mean distance in tax, the whole tax from the target on |
| GmxSwaps.ChargedFeeTheorem | src/dex/gmx/pool.ts:145-186 | the fee is at least what either token asks for and no more than one of them does, with base and tax for stable or other tokens |
| GmxSwaps.UsdgTheorem | src/dex/gmx/pool.ts:161-163 | the amount in dollars to its two roundings |
| GmxSwaps.LegBound | src/dex/gmx/pool.ts:132-196 | one quote pays at most the input at the two prices, less the fee, despite three roundings |
| GmxSwaps.LegAtLeast | src/dex/gmx/pool.ts:158-195 | the quote is no less than that either but for its three roundings, and nothing beyond the maximum |
| GmxSwaps.RoundTripTheorem | src/dex/gmx/pool.ts:132-196 | there and back returns at most the input, reduced by both price ranges and both fees |
| GmxSwaps.FeedRoundTripTheorem | src/dex/gmx/pool.ts:132-196 | with both prices of each token taken from its feed and positive maxima, both swaps succeed and return at most the input |
| Serializer.RoundTripTheorem | src/utils.ts:273-318 | any value survives Serialize and Parse if and only if it is a container with no plain string with a tag prefix and nothing hidden from the traversal, or a bare value that is neither bigint, BigNumber nor non-empty string |
| Serializer.WrittenTheorem | src/utils.ts:273-303 | a container is written as JSON with its keys in order, visited bigints and BigNumbers as their tagged text and all else as it is |
| Serializer.OrdinarySurvives | src/utils.ts:291-318 | containers whose strings carry no tag and whose objects have no numeric length survive |
| Serializer.BareBigIntThrows | src/utils.ts:273-289 | a bigint on its own does not survive, in a list it does |
| Serializer.LengthHidesBigInt | src/utils.ts:273-289 | an object that does not survive |
| PromiseScheduler.RunTheorem | src/lib/promise-scheduler.ts:15-54 | in every interleaving each added job is queued, running or done as often as it was added, and exactly one of timer and batch is active |
| PromiseScheduler.QuietMeansDone | src/lib/promise-scheduler.ts:19-54 | nothing queued and nothing running means everything added has succeeded |
| PromiseScheduler.Scheduler.AddPromise | src/lib/promise-scheduler.ts:15-17 | the job joins the end of the queue |
| PromiseScheduler.Scheduler.Run | src/lib/promise-scheduler.ts:19-29 | an empty queue only sets the timer again, otherwise the queue becomes the batch |
| PromiseScheduler.Scheduler.Finish | src/lib/promise-scheduler.ts:31-51 | a failed job returns to the queue, and the last task sets the timer |
| CalldataPacking.BuildPartialContractSimpleData | src/router/simpleswap.ts:60-80 | slicing the data at consecutive positions recovers every call; positions never go back and end at the end |
| CalldataPacking.WholePositions | src/router/simpleswap.ts:60-80 | calls of whole bytes start at whole positions |
| CalldataPacking.PackingInjective | src/router/simpleswap.ts:60-80 | different lists of calls never pack alike |
| SimpleSwapCalls.SpendingTheorem | src/router/simpleswap.ts:98-121 | the first hop of a purchase spends its exact share, less than one unit an exchange below it, and what the whole route wraps is part of that; without unscaled exchanges the share is the maximum |
| SimpleSwapCalls.OrdersTheorem | src/router/simpleswap.ts:82-150 | every exchange of every hop is asked for its own amount or its share of a purchase, at least one unit in a sale, and wraps and unwraps exactly where it should |
| SimpleSwapCalls.FailureTheorem | src/router/simpleswap.ts:82-150 | a route fails exactly when native tokens are wrapped inside it or a share of nothing is asked for |
| SimpleSwapCalls.DirectSucceeds | src/router/simpleswap.ts:98-121 | a route of one hop never meets the errors about native tokens in the middle of a route |
| SimpleSwapCalls.FlattenCalls | src/router/simpleswap.ts:177-208 | all calls in order, the deposit first and the withdrawal last |
| SimpleSwapCalls.AlignedTheorem | src/router/simpleswap.ts:177-208 | callee, value and call data of a call keep the same position |

## Left out

- BalancerV1Math.BpowApprox: requires a base at least 4e10 units away from 0 and from 2e18 and a fractional exponent; nearer to the ends the loop may go on for as long as rounding keeps the term alive, and the pool guard lets no such base through.
- SubscriberPruning.GroundedTheorem: covers runs in which no state older than everything kept is set from outside; with such states, what holds in the window is `PruningTheorem`.
- Interpolate.InterpolateAll: requires as many prices as volumes, which every caller gives.
- LogExpPower.Pow: takes non-negative arguments, the unsigned integers of the contract it mirrors.
- AdapterCoverage.GreedyTheorem: assumes that no exchange lists an adapter twice, because a repeated entry scores twice without serving twice.
- NaturalExponential.UniqueTheorem: there is at most one natural exponential; that there is one is not proved, it enters as a parameter, and so does the logarithm `w` of a power.
- PayloadRoutes.GetAdapters: keeps insertion order for the adapters, as string keys that are not numbers have.
- StatefulEventSubscriber.Subscriber.Update: runs to its end once called; interleaving with other calls while it awaits is not modelled, nor are overrides of processBlockLogs.
- Caches, slave and master mode, logging and address checksums of the event subscribers.
- BigNumber text and JSON text: a notation with lawful printing and reading stands for them, and undefined fields are absent ones. The traversal works on a clone, so values stand for the objects it rewrites in place.
- User data, funds, deadlines and token approvals of a Balancer V2 swap.
- Balancer V2 pool mathematics, Curve, Algebra and Solidly pricing, and the subgraph readers.
- GMX's AMM and secondary prices, which only throw; the readers behind its state; its USDG accounting by events.
- Floating-point rounding of percentages and GMX's use of numbers for timestamps.
- Partner fee encoding, ABI encoding, gas, RPC, multicall and rate fetching.
- The scheduler's parallel limit and the length of its interval: tasks of a batch may finish in any order.
