/** The `AutoTrader` class: it owns the pair table, which its methods update
    in place row by row, and runs the scouting pass. Every answer of the
    exchange (prices, balances, minimum notionals, the two legs of a jump) is
    a parameter. */
module AutoTrading {
  import opened Wrappers
  import opened Ratios
  import opened Thresholds
  import opened Scouting

  class AutoTrader {
    const config: Config
    /** The coins the database lists, in its order. */
    const coins: seq<Symbol>
    /** The pair table, in the database's row order. */
    var pairs: seq<Pair>

    /** Every ratio that is set is positive. */
    ghost predicate Valid()
      reads this
    {
      RatiosPositive(pairs)
    }

    constructor (config: Config, coins: seq<Symbol>, pairs: seq<Pair>)
      requires RatiosPositive(pairs)
      ensures Valid()
      ensures this.config == config && this.coins == coins && this.pairs == pairs
    {
      this.config := config;
      this.coins := coins;
      this.pairs := pairs;
    }

    /** `update_trade_threshold`: after `coin` was bought at `fill`, every pair
        into `coin` whose source is quoted gets ratio `source price / fill`. */
    method UpdateTradeThreshold(coin: Symbol, fill: Option<real>, t: Tickers)
      requires Valid()
      requires PositivePrices(t)
      requires fill.Some? ==> fill.value > 0.0
      modifies this
      ensures Valid()
      ensures pairs == Recalibrated(old(pairs), coin, fill, t, config.bridge)
    {
      if fill.None? {
        return;
      }
      var i := 0;
      while i < |pairs|
        invariant 0 <= i <= |pairs| == |old(pairs)|
        invariant forall k :: 0 <= k < i ==> pairs[k] == RecalibrateRow(old(pairs)[k], coin, fill.value, t, config.bridge)
        invariant forall k :: i <= k < |pairs| ==> pairs[k] == old(pairs)[k]
      {
        var pair := pairs[i];
        if pair.to == coin {
          var fromPrice := Price(t, pair.from, config.bridge);
          if fromPrice.Some? {
            pairs := pairs[i := pair.(ratio := Some(fromPrice.value / fill.value))];
          }
        }
        i := i + 1;
      }
      RecalibratedPositive(old(pairs), coin, fill, t, config.bridge);
    }

    /** `initialize_trade_thresholds` on snapshot `t`, with `enabled` the coins
        the database marks enabled. */
    method InitializeTradeThresholds(t: Tickers, enabled: set<Symbol>)
      requires Valid()
      requires PositivePrices(t)
      modifies this
      ensures Valid()
      ensures pairs == Initialized(old(pairs), enabled, t, config.bridge)
    {
      var i := 0;
      while i < |pairs|
        invariant 0 <= i <= |pairs| == |old(pairs)|
        invariant forall k :: 0 <= k < i ==> pairs[k] == InitRow(old(pairs)[k], enabled, t, config.bridge)
        invariant forall k :: i <= k < |pairs| ==> pairs[k] == old(pairs)[k]
      {
        var pair := pairs[i];
        if pair.ratio.None? && pair.from in enabled && pair.to in enabled {
          var fromPrice := Price(t, pair.from, config.bridge);
          var toPrice := Price(t, pair.to, config.bridge);
          if fromPrice.Some? && toPrice.Some? {
            pairs := pairs[i := pair.(ratio := Some(fromPrice.value / toPrice.value))];
          }
        }
        i := i + 1;
      }
      InitializedPositive(old(pairs), enabled, t, config.bridge);
    }

    /** `transaction_through_bridge`: sell `pair.from`, then buy `pair.to`;
        `sold` and `bought` are the answers of the two legs. Only a filled buy
        recalibrates the table, and only then is the result true. */
    method TransactionThroughBridge(pair: Pair, t: Tickers, sold: bool, bought: Option<real>)
      returns (ok: bool, outcome: JumpOutcome)
      requires Valid()
      requires PositivePrices(t)
      requires bought.Some? ==> bought.value > 0.0
      modifies this
      ensures Valid()
      ensures ok <==> sold && bought.Some?
      ensures outcome == JumpResult(sold, bought)
      ensures !sold ==> outcome == SellFailed && pairs == old(pairs)
      ensures sold && bought.None? ==> outcome == BuyFailed && pairs == old(pairs)
      ensures pairs == AfterJump(old(pairs), pair, outcome, t, config.bridge)
    {
      if !sold {
        return false, SellFailed;
      }
      if bought.Some? {
        UpdateTradeThreshold(pair.to, bought, t);
        return true, Settled(bought.value);
      }
      return false, BuyFailed;
    }

    /** `bridge_scout` on its own snapshot `t`: look for the first coin
        without a positive score and buy it if the bridge balance allows. */
    method BridgeScout(bridgeBalance: real, t: Tickers, minNotional: Symbol -> real) returns (d: BridgeDecision)
      requires PositivePrices(t)
      requires BridgeReady(pairs, coins, t, config)
      ensures d == BridgeScoutSpec(pairs, coins, t, config, bridgeBalance, minNotional)
    {
      var i := 0;
      while i < |coins|
        invariant 0 <= i <= |coins|
        invariant BridgeReady(pairs, coins[i..], t, config)
        invariant BridgeScoutSpec(pairs, coins, t, config, bridgeBalance, minNotional)
                  == BridgeScoutSpec(pairs, coins[i..], t, config, bridgeBalance, minNotional)
      {
        var coin := coins[i];
        assert coins[i..][0] == coin && coins[i..][1..] == coins[i + 1..];
        var price := Price(t, coin, config.bridge);
        if price.None? {
          return PriceMissing(coin);
        }
        var scores := GetRatios(pairs, coin, price.value, t, config);
        if !AnyPositive(scores) {
          if bridgeBalance > minNotional(coin) {
            return Bought(coin);
          }
          return Underfunded(coin);
        }
        i := i + 1;
      }
      return NoCandidate;
    }

    /** One iteration of the loop of `scout` for `coin`: stop on a missing
        price, skip a balance below the minimum notional, otherwise jump to the
        best strictly positive score, if any. */
    method ScoutOne(coin: Symbol, step: CoinStep, t: Tickers, minNotional: Symbol -> real)
      returns (d: Option<Decision>)
      requires Valid()
      requires PositivePrices(t)
      requires StepReady(pairs, coin, step, t, config, minNotional)
      requires step.bought.Some? ==> step.bought.value > 0.0
      modifies this
      ensures Valid()
      ensures d.None? ==> pairs == old(pairs)
      ensures ScoutCoin(old(pairs), coin, step, t, config, minNotional)
              == if d.None? then Abort else Continue(pairs, d.value)
    {
      var price := Price(t, coin, config.bridge);
      if price.None? {
        return None;
      }
      if BelowMinNotional(price.value, step.balance, minNotional(coin)) {
        return Some(Skipped);
      }
      var best := Select(GetRatios(pairs, coin, price.value, t, config));
      if best.None? {
        return Some(NoJump);
      }
      var ok, outcome := TransactionThroughBridge(best.value.pair, t, step.sold, step.bought);
      return Some(Jumped(best.value.pair, outcome));
    }

    /** The loop of `scout` over the coins on snapshot `t`, with `steps[i]`
        the exchange's answers while `coins[i]` is scouted: the decisions
        taken and whether it stopped on a missing price. */
    method ScoutPass(t: Tickers, steps: seq<CoinStep>, minNotional: Symbol -> real)
      returns (decisions: seq<Decision>, aborted: bool)
      requires Valid()
      requires |steps| == |coins|
      requires PositivePrices(t) && FillsPositive(steps)
      requires PassReady(pairs, coins, steps, t, config, minNotional)
      modifies this
      ensures Valid()
      ensures ScoutCoins(old(pairs), coins, steps, t, config, minNotional) == Run(pairs, decisions, aborted)
    {
      ghost var start := pairs;
      decisions := [];
      var i := 0;
      while i < |coins|
        invariant 0 <= i <= |coins|
        invariant Valid()
        invariant PassReady(pairs, coins[i..], steps[i..], t, config, minNotional)
        invariant ScoutCoins(start, coins, steps, t, config, minNotional)
                  == Prepend(decisions, ScoutCoins(pairs, coins[i..], steps[i..], t, config, minNotional))
      {
        ScoutCoinsUnfoldAt(pairs, coins, steps, t, config, minNotional, i);
        var step := ScoutOne(coins[i], steps[i], t, minNotional);
        if step.None? {
          assert decisions + [] == decisions;
          return decisions, true;
        }
        var d := step.value;
        PrependPrepend(decisions, [d], ScoutCoins(pairs, coins[i + 1..], steps[i + 1..], t, config, minNotional));
        decisions := decisions + [d];
        i := i + 1;
      }
      assert coins[i..] == [] && steps[i..] == [];
      assert decisions + [] == decisions;
      aborted := false;
    }

    /** `scout`: one pass over the coins on snapshot `t`; unless it stops on a
        missing price, it ends with one `bridge_scout` on `bridgeTickers`. */
    method Scout(t: Tickers, steps: seq<CoinStep>, minNotional: Symbol -> real,
                 bridgeBalance: real, bridgeTickers: Tickers) returns (result: ScoutResult)
      requires Valid()
      requires |steps| == |coins|
      requires PositivePrices(t) && FillsPositive(steps) && PositivePrices(bridgeTickers)
      requires ScoutReady(pairs, coins, steps, t, config, minNotional, bridgeTickers)
      modifies this
      ensures Valid()
      ensures (pairs, result) == ScoutSpec(old(pairs), coins, steps, t, config, minNotional, bridgeBalance, bridgeTickers)
    {
      var decisions, aborted := ScoutPass(t, steps, minNotional);
      if aborted {
        return Aborted(decisions);
      }
      var bridgeDecision := BridgeScout(bridgeBalance, bridgeTickers, minNotional);
      result := Completed(decisions, bridgeDecision);
    }
  }
}
