# AutoTrader scouting engine, modelled in Dafny

This project models the decision engine of `AutoTrader` in the Binance trade
bot, found in `binance_trade_bot/auto_trader.py`. The bot holds one coin at a
time. It keeps a table of pairs `(from, to, ratio)`, where `ratio` is the price
ratio last considered fair for a jump from `from` to `to`. Every trade goes
through a bridge coin.

The model covers these parts of the engine:

- **The ratio engine (`_get_ratios`).** Every pair leaving a coin whose target
  has a price gets a score. The score is the current price ratio, less the fee
  drag `fee * multiplier * ratio`, less the stored ratio.
- **The scouting pass (`scout`).** It walks the coins in the database's order.
  A coin without a price stops the whole pass. A coin whose balance is worth
  less than the minimum notional is skipped. Otherwise the bot jumps along the
  first pair of maximal strictly positive score, if there is one. After the
  last coin, it runs `bridge_scout` once.
- **The two-leg jump (`transaction_through_bridge`).** It sells the held coin
  for the bridge and then buys the target coin. Only a filled buy recalibrates
  the table.
- **The two writers of the table.** `update_trade_threshold` recalibrates the
  pairs into the coin just bought. `initialize_trade_thresholds` bootstraps the
  unset ratios.
- **Bridge redeploy (`bridge_scout`).** It finds the first coin with no
  positive score. It buys that coin if the bridge balance is strictly above
  the coin's minimum notional.

Layout:

- `wrappers.dfy` — `Option`.
- `ratios.dfy` — module `Ratios`: snapshots, the pair table, scores,
  `GetRatios` and the first-maximum selection.
- `thresholds.dfy` — module `Thresholds`: the table that recalibration and
  bootstrap leave behind, with their properties.
- `scouting.dfy` — module `Scouting`: the jump outcome, one scouting step, the
  pass over all coins and `bridge_scout`, all as functions, plus lemmas about
  them.
- `auto_trader.dfy` — module `AutoTrading`: class `AutoTrader`. The class
  owns the pair table as a field and updates it in place row by row. Each
  method is proved equal to the function that specifies it.

A price snapshot is a `map<string, real>` from ticker symbols to prices. The
price of a coin is looked up under `coin + bridge`, as the code does. Prices,
ratios and fees are `real`. Everything the exchange answers is a parameter:
balances, minimum notionals, whether the sell succeeds and the fill price of
the buy. For a pass, `steps[i]` holds the answers given while `coins[i]` is
scouted. `bridge_scout` takes its own snapshot and bridge balance, because the
code fetches fresh ones at `binance_trade_bot/auto_trader.py:148-149`.

Behaviour of the code that the model follows literally:

- `scout` looks for the coin's price before it compares the notional
  (lines 97-104). A coin without a price therefore stops the pass even when
  its balance is too small.
- Recalibration after a buy uses the snapshot of the pass (line 31), not a
  fresh one.
- `_get_ratios` does not skip pairs whose ratio is unset. It subtracts the
  ratio unconditionally (line 144), which would raise. The model makes "the
  ratios the code reads are set" a precondition, and asks for no more:
  `StepReady` for a coin that is quoted and clears the minimum notional,
  `PassReady` for each step the pass reaches on the table as earlier steps
  left it, `BridgeReady` for the coins `bridge_scout` scores before it
  returns, and `ScoutReady` for a whole `scout` call. `ReadyFor`, ratios set
  for every quoted pair leaving any listed coin, is a simpler sufficient
  condition. Bootstrap establishes it (`InitializedReady`).
- `bridge_scout` stops at the first coin without a price and buys nothing
  (line 155).

## Model

| member | source | states |
|---|---|---|
| `Ratios.Price` | binance_trade_bot/auto_trader.py:95 | a coin has a price exactly when the ticker `coin + bridge` is in the snapshot, and the price is that ticker's value |
| `Ratios.Score` | binance_trade_bot/auto_trader.py:139-144 | a score is strictly positive exactly when the current ratio, net of the fee drag `fee * multiplier`, beats the stored ratio |
| `Ratios.NetMargin` | binance_trade_bot/auto_trader.py:139-144 | a ratio less its drag less the stored ratio is positive exactly when the ratio net of the drag beats the stored ratio |
| `Ratios.GetRatios` | binance_trade_bot/auto_trader.py:124-145 | every candidate is a pair of the table leaving `coin`, whose target is quoted and whose ratio is set; its score is `r - fee*mult*r - ratio` with `r = coinPrice / toPrice`; the table is only read |
| `Ratios.GetRatiosComplete` | binance_trade_bot/auto_trader.py:127-134 | every pair leaving `coin` whose target is quoted gets a candidate, so the candidates are exactly those pairs |
| `Ratios.GetRatiosAppend` | binance_trade_bot/auto_trader.py:127-145 | the candidates of a table split in two are those of the first part followed by those of the second: table order, one candidate per qualifying row |
| `Ratios.CandidateIndex` | binance_trade_bot/auto_trader.py:127-145 | the candidate of a qualifying row sits right after the candidates of all the rows before it |
| `Ratios.GetRatiosInTableOrder` | binance_trade_bot/auto_trader.py:127-145 | of two qualifying rows, the earlier row's candidate comes first, so ties in `max` are broken by table order |
| `Ratios.WorkedExample` | binance_trade_bot/auto_trader.py:139-144 | prices 10 and 5, stored ratio 1.5, fee 0.001 and multiplier 1 give the single score 0.498 |
| `Ratios.Positive` | binance_trade_bot/auto_trader.py:113-114 | keeps only strictly positive scores, taken from the input; it is empty exactly when no score is positive |
| `Ratios.PositiveKeepsAll` | binance_trade_bot/auto_trader.py:114 | every candidate with a strictly positive score is kept |
| `Ratios.PositiveAppend` | binance_trade_bot/auto_trader.py:114 | filtering a list split in two filters each part, so the kept candidates stay in their order |
| `Ratios.BestOf` | binance_trade_bot/auto_trader.py:116-118 | `max` picks a score no smaller than any other, and strictly greater than every score before it (the first maximum wins ties) |
| `Ratios.Select` | binance_trade_bot/auto_trader.py:113-118 | no target exactly when no score is strictly positive; a target has a positive score |
| `Ratios.SelectSnoc` | binance_trade_bot/auto_trader.py:113-118 | with the last candidate added to the rest, the target changes only to a positive newcomer whose score is strictly greater than the old target's |
| `Ratios.SelectIsFirstMax` | binance_trade_bot/auto_trader.py:113-118 | no target exactly when no score is strictly positive; otherwise the target is the first candidate of maximal score, and that score is positive |
| `Thresholds.Recalibrated` | binance_trade_bot/auto_trader.py:36-56 | the table keeps its pairs in order, and no set ratio becomes unset |
| `Thresholds.RecalibratedRows` | binance_trade_bot/auto_trader.py:41-56 | only pairs into the bought coin change; each is set to `from price / fill price`; one whose from-price is missing keeps its ratio; no fill price changes nothing |
| `Thresholds.RecalibratedPositive` | binance_trade_bot/auto_trader.py:47-56 | with positive prices and fill, set ratios stay positive |
| `Thresholds.RecalibratedIdempotent` | binance_trade_bot/auto_trader.py:47-56 | repeating a recalibration with the same snapshot and fill changes nothing more |
| `Thresholds.RecalibratedIsNoSignal` | binance_trade_bot/auto_trader.py:29-31 | after a buy filled at the quoted price, no jump back into the bought coin scores positive at the same prices (fee term not negative) |
| `Thresholds.NoSignalAtQuote` | binance_trade_bot/auto_trader.py:139-144 | a stored ratio equal to the current price ratio scores at most zero |
| `Thresholds.Initialized` | binance_trade_bot/auto_trader.py:58-85 | the table keeps its pairs in order, and no set ratio becomes unset |
| `Thresholds.InitializedRows` | binance_trade_bot/auto_trader.py:66-85 | only unset ratios are written; a pair with a disabled end or either price missing stays unset; the others become `from price / to price` |
| `Thresholds.InitializedIdempotent` | binance_trade_bot/auto_trader.py:66-85 | a second bootstrap with the same snapshot and enabled coins changes nothing |
| `Thresholds.InitializedPositive` | binance_trade_bot/auto_trader.py:71-85 | with positive prices, set ratios stay positive |
| `Thresholds.InitializedReady` | binance_trade_bot/auto_trader.py:58-85 | when every pair leaving a listed coin joins two enabled coins and its source is quoted, bootstrap sets every such pair whose target is quoted, which is what scouting on that snapshot reads |
| `Thresholds.InitializedIsNoSignal` | binance_trade_bot/auto_trader.py:71-85 | a freshly bootstrapped ratio scores at most zero at the snapshot it came from, so bootstrap is never a trade signal |
| `Scouting.JumpResult` | binance_trade_bot/auto_trader.py:25-34 | a failed sell ends the jump at the sell leg; a failed buy after a sale ends it at the buy leg; otherwise it settles at the reported fill price |
| `Scouting.AfterJump` | binance_trade_bot/auto_trader.py:29-32 | a jump keeps the table's pairs and never unsets a ratio |
| `Scouting.SellFailureIgnoresBuy` | binance_trade_bot/auto_trader.py:25-27 | after a failed sell, the buy's answer plays no part, and the table is unchanged |
| `Scouting.ScoutCoin` | binance_trade_bot/auto_trader.py:93-120 | one step of the pass keeps the table's pairs and never unsets a ratio; it needs set ratios only for a coin that is quoted and clears the minimum notional |
| `Scouting.ScoutCoinSkipRule` | binance_trade_bot/auto_trader.py:95-104 | a step stops the pass exactly when the coin has no price; it skips the coin exactly when `price * balance < min notional` (strict) |
| `Scouting.ScoutCoinJumpRule` | binance_trade_bot/auto_trader.py:111-120 | a coin with enough balance and no positive score makes no jump and leaves the table alone; otherwise it jumps along the first pair of maximal positive score and leaves the table that jump leaves (recalibrated for the target when the buy fills) |
| `Scouting.ScoutCoins` | binance_trade_bot/auto_trader.py:93-120 | the pass keeps the table's pairs, never unsets a ratio, and makes at most one decision per coin; it needs set ratios only where a step it reaches scores a coin |
| `Scouting.ScoutStopsAtFirstMissingPrice` | binance_trade_bot/auto_trader.py:93-99 | a pass that stops does so on a coin without a price, the one right after the coins it decided; a pass that does not stop decides every coin |
| `Scouting.ScoutAbortsAtMissingPrice` | binance_trade_bot/auto_trader.py:93-99 | the pass stops exactly when some coin of the list has no price |
| `Scouting.ScoutSkipsBelowMinNotional` | binance_trade_bot/auto_trader.py:97-104 | every coin examined has a price, and is skipped exactly when its notional value is strictly below the minimum |
| `Scouting.ScoutUnchangedWithoutFill` | binance_trade_bot/auto_trader.py:113-120 | a pass in which no buy fills leaves the table unchanged |
| `Scouting.ScoutKeepsRatiosPositive` | binance_trade_bot/auto_trader.py:93-120 | a pass keeps every set ratio positive |
| `Scouting.BridgeScoutSpec` | binance_trade_bot/auto_trader.py:147-163 | a coin it reports is one of the coins; it reports a missing price only for an unquoted coin; it buys only with bridge balance strictly above the coin's minimum notional, and reports an underfunded coin otherwise |
| `Scouting.BridgeScoutStopsAtFirst` | binance_trade_bot/auto_trader.py:151-163 | `bridge_scout` passes over coins with a positive score and stops at the first other coin; without a price it buys nothing; otherwise it buys that coin exactly when the bridge balance is strictly above its minimum notional |
| `Scouting.BridgeScoutNoCandidate` | binance_trade_bot/auto_trader.py:151-163 | it finds no coin exactly when every coin is quoted and has a positive score |
| `Scouting.ScoutSpec` | binance_trade_bot/auto_trader.py:87-122 | a `scout` call keeps the table's pairs and never unsets a ratio; it stops early exactly when some coin has no price, and otherwise decides every coin before `bridge_scout` |
| `Scouting.ReadyForPass` | binance_trade_bot/auto_trader.py:93-120 | ratios set for every quoted pair leaving a listed coin are enough for every step of a pass |
| `Scouting.ReadyForBridge` | binance_trade_bot/auto_trader.py:151-163 | the same condition is enough for `bridge_scout` |
| `Scouting.ReadyForScout` | binance_trade_bot/auto_trader.py:87-122 | the same condition on both snapshots is enough for a whole `scout` call, since the pass never unsets a ratio |
| `AutoTrading.AutoTrader.constructor` | binance_trade_bot/auto_trader.py:15-19 | a trader starts from a table whose set ratios are positive |
| `AutoTrading.AutoTrader.UpdateTradeThreshold` | binance_trade_bot/auto_trader.py:36-56 | the in-place loop leaves exactly the recalibrated table and keeps set ratios positive |
| `AutoTrading.AutoTrader.InitializeTradeThresholds` | binance_trade_bot/auto_trader.py:58-85 | the in-place loop leaves exactly the bootstrapped table and keeps set ratios positive |
| `AutoTrading.AutoTrader.TransactionThroughBridge` | binance_trade_bot/auto_trader.py:21-34 | true exactly when the sell succeeded and the buy filled; a failed sell or a failed buy leaves the table unchanged; a filled buy recalibrates for the target at the fill price |
| `AutoTrading.AutoTrader.BridgeScout` | binance_trade_bot/auto_trader.py:147-163 | the loop with early returns gives exactly the decision of `BridgeScoutSpec` |
| `AutoTrading.AutoTrader.ScoutPass` | binance_trade_bot/auto_trader.py:93-120 | the loop over the coins leaves exactly the table and decisions of `ScoutCoins` and keeps set ratios positive |
| `AutoTrading.AutoTrader.ScoutOne` | binance_trade_bot/auto_trader.py:94-120 | one loop iteration does what `ScoutCoin` prescribes, and stopping leaves the table unchanged |
| `AutoTrading.AutoTrader.Scout` | binance_trade_bot/auto_trader.py:87-122 | the call leaves the table and gives the result `ScoutSpec` prescribes: the per-coin loop, then `bridge_scout` unless it stopped; it asks only that the ratios it reads be set, and set ratios stay positive |

## Left out

- `update_values` (lines 165-184): it only records balances and values in the database. It has no decision logic and depends on the wall clock.
- Logging and `db.log_scout` (line 136): telemetry that does not affect any decision.
- Database sessions and commits: the pair table is a field of the class, and each write takes effect at once.
- The exchange (`get_all_market_tickers`, `get_currency_balance`, `get_min_notional`, `sell_alt`, `buy_alt`): their answers are parameters. The model does not relate balances to the trades made earlier in the pass. Order placement, retries and networking are not modelled.
- `get_market_ticker_price_from_list` lives in `binance_trade_bot/utils.py`, which is not part of this model. It is modelled as a map lookup of the ticker `coin + bridge`.
- The result of the single-leg buy in `bridge_scout` (line 162): the code ignores it, and the model records only that the buy was made (`Bought`).
- Floating-point rounding: prices and ratios are exact reals.
- Crashes: a zero price, a zero fill price or an unset ratio would raise in the code. The model rules these out with preconditions: prices and fills are positive, and the ratios a pass reads are set.
- `Thresholds.RecalibratedIsNoSignal` and `Thresholds.InitializedIsNoSignal` assume `fee * multiplier >= 0`. The code does not check the configured constants.
- Determinism of the scores for one snapshot and table holds by construction, since `GetRatios` is a function.
- Pair identity: the table writers address a pair by its row position, as the code's ORM updates its row objects. Candidates and `Jumped` decisions carry the pair's value, so two rows with the same `from`, `to` and ratio are indistinguishable there.
- `Database.get_coins` and `Database.get_pairs_from` live in `binance_trade_bot/database.py`, which is not part of this model. The model reads them as the trader's fixed list `coins` and as every row of the table whose `from` is the coin, in table order. Any filtering they do, for instance on enabled coins, is not modelled. Such a filter would also narrow the ratios that `StepReady` and `BridgeReady` ask to be set.
