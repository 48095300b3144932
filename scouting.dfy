/** What one scouting pass of `AutoTrader.scout` decides, as functions of the
    pair table, one price snapshot and the answers of the exchange: the
    two-leg jump through the bridge (`transaction_through_bridge`), the
    per-coin step, the pass over all coins, and the bridge redeploy
    (`bridge_scout`). */
module Scouting {
  import opened Wrappers
  import opened Ratios
  import opened Thresholds

  /** How a jump through the bridge ended: the sell leg failed (the buy leg is
      never reached), the buy leg failed (the bot is left holding bridge), or
      the buy filled at `fill`. */
  datatype JumpOutcome = SellFailed | BuyFailed | Settled(fill: real)

  /** The answers the exchange gives while one coin is scouted: its balance,
      whether selling it succeeds and the fill price of the buy, if any. */
  datatype CoinStep = CoinStep(balance: real, sold: bool, bought: Option<real>)

  /** What the pass did with one coin: skipped it (balance below the minimum
      notional), found no positive score, or jumped along `pair`. */
  datatype Decision = Skipped | NoJump | Jumped(pair: Pair, outcome: JumpOutcome)

  datatype StepResult = Abort | Continue(rows: seq<Pair>, decision: Decision)

  /** The per-coin loop of a pass: the table it leaves, one decision per coin
      examined, and whether it stopped on a coin without a price. */
  datatype Run = Run(rows: seq<Pair>, decisions: seq<Decision>, aborted: bool)

  /** Where `bridge_scout` stopped: at a coin without a price, at the first
      coin without a positive score (bought, or not for lack of bridge
      balance), or nowhere. */
  datatype BridgeDecision = PriceMissing(coin: Symbol) | Bought(coin: Symbol) | Underfunded(coin: Symbol) | NoCandidate

  datatype ScoutResult = Aborted(decisions: seq<Decision>) | Completed(decisions: seq<Decision>, bridge: BridgeDecision)

  /** Every fill price the exchange reports is positive. */
  ghost predicate FillsPositive(steps: seq<CoinStep>)
  {
    forall k :: 0 <= k < |steps| && steps[k].bought.Some? ==> steps[k].bought.value > 0.0
  }

  /** The leg a jump ends in, given the answers of the two legs. */
  function JumpResult(sold: bool, bought: Option<real>): (r: JumpOutcome)
    ensures r == SellFailed <==> !sold
    ensures r == BuyFailed <==> sold && bought.None?
    ensures r.Settled? ==> sold && bought == Some(r.fill)
  {
    if !sold then SellFailed
    else if bought.None? then BuyFailed
    else Settled(bought.value)
  }

  /** The table after a jump along `pair`: recalibrated for `pair.to` at the
      fill price if the buy filled, unchanged otherwise. */
  function AfterJump(rows: seq<Pair>, pair: Pair, outcome: JumpOutcome, t: Tickers, bridge: Symbol): (r: seq<Pair>)
    requires outcome.Settled? ==> outcome.fill != 0.0
    ensures KeepsPairs(rows, r)
  {
    if outcome.Settled? then Recalibrated(rows, pair.to, Some(outcome.fill), t, bridge) else rows
  }

  /** When the sell leg fails, the answer of the buy leg plays no part: the
      outcome and the table are the same whatever it would have been. */
  lemma SellFailureIgnoresBuy(rows: seq<Pair>, pair: Pair, b1: Option<real>, b2: Option<real>, t: Tickers, bridge: Symbol)
    ensures JumpResult(false, b1) == JumpResult(false, b2) == SellFailed
    ensures AfterJump(rows, pair, JumpResult(false, b1), t, bridge) == rows
  {
  }

  /** A balance worth `price * balance` is too small to trade (line 101). */
  predicate BelowMinNotional(price: real, balance: real, minNotional: real)
  {
    price * balance < minNotional
  }

  /** The step for `coin` reads stored ratios only when the coin is quoted and
      its balance clears the minimum notional; those ratios must then be set. */
  ghost predicate StepReady(rows: seq<Pair>, coin: Symbol, step: CoinStep, t: Tickers, cfg: Config,
                            minNotional: Symbol -> real)
  {
    Price(t, coin, cfg.bridge).Some? && !BelowMinNotional(Price(t, coin, cfg.bridge).value, step.balance, minNotional(coin))
    ==> ReadyFrom(rows, coin, t, cfg.bridge)
  }

  /** One iteration of the loop of `scout` for `coin`. */
  function ScoutCoin(rows: seq<Pair>, coin: Symbol, step: CoinStep, t: Tickers, cfg: Config,
                     minNotional: Symbol -> real): (r: StepResult)
    requires PositivePrices(t)
    requires StepReady(rows, coin, step, t, cfg, minNotional)
    requires step.bought.Some? ==> step.bought.value > 0.0
    ensures r.Continue? ==> KeepsPairs(rows, r.rows)
  {
    var price := Price(t, coin, cfg.bridge);
    if price.None? then Abort
    else if BelowMinNotional(price.value, step.balance, minNotional(coin)) then Continue(rows, Skipped)
    else
      var best := Select(GetRatios(rows, coin, price.value, t, cfg));
      if best.None? then Continue(rows, NoJump)
      else
        var outcome := JumpResult(step.sold, step.bought);
        Continue(AfterJump(rows, best.value.pair, outcome, t, cfg.bridge), Jumped(best.value.pair, outcome))
  }

  /** A coin with enough balance jumps only if one of its scores is strictly
      positive, and then along the first pair of maximal score, leaving the
      table that jump leaves; without a positive score the table is left as
      it was. */
  lemma ScoutCoinJumpRule(rows: seq<Pair>, coin: Symbol, step: CoinStep, t: Tickers, cfg: Config,
                          minNotional: Symbol -> real)
    requires PositivePrices(t)
    requires ReadyFrom(rows, coin, t, cfg.bridge)
    requires step.bought.Some? ==> step.bought.value > 0.0
    requires Price(t, coin, cfg.bridge).Some?
    requires !BelowMinNotional(Price(t, coin, cfg.bridge).value, step.balance, minNotional(coin))
    ensures var c := GetRatios(rows, coin, Price(t, coin, cfg.bridge).value, t, cfg);
            var r := ScoutCoin(rows, coin, step, t, cfg, minNotional);
            && (!AnyPositive(c) ==> r == Continue(rows, NoJump))
            && (AnyPositive(c) ==>
                  exists k :: IsFirstMax(c, k) &&
                    r == Continue(AfterJump(rows, c[k].pair, JumpResult(step.sold, step.bought), t, cfg.bridge),
                                  Jumped(c[k].pair, JumpResult(step.sold, step.bought))))
  {
    var price := Price(t, coin, cfg.bridge).value;
    var c := GetRatios(rows, coin, price, t, cfg);
    SelectIsFirstMax(c);
    if AnyPositive(c) {
      var k := SelectFindsFirstMax(c);
      var r := ScoutCoin(rows, coin, step, t, cfg, minNotional);
      assert r.decision == Jumped(c[k].pair, JumpResult(step.sold, step.bought));
    }
  }

  /** The list `ds` of decisions already taken, in front of the rest of a run. */
  function Prepend(ds: seq<Decision>, run: Run): Run
  {
    Run(run.rows, ds + run.decisions, run.aborted)
  }

  /** Every step the pass reaches finds the ratios it reads set, on the table
      as the earlier steps left it. */
  ghost predicate PassReady(rows: seq<Pair>, coins: seq<Symbol>, steps: seq<CoinStep>, t: Tickers, cfg: Config,
                            minNotional: Symbol -> real)
    requires |steps| == |coins|
    requires PositivePrices(t) && FillsPositive(steps)
    decreases |coins|
  {
    coins != [] ==>
      && StepReady(rows, coins[0], steps[0], t, cfg, minNotional)
      && var s := ScoutCoin(rows, coins[0], steps[0], t, cfg, minNotional);
         (s.Continue? ==> PassReady(s.rows, coins[1..], steps[1..], t, cfg, minNotional))
  }

  lemma PrependPrepend(ds: seq<Decision>, es: seq<Decision>, run: Run)
    ensures Prepend(ds, Prepend(es, run)) == Prepend(ds + es, run)
  {
    assert ds + (es + run.decisions) == (ds + es) + run.decisions;
  }

  /** The loop of `scout` over `coins`, one exchange answer per coin; it stops
      at the first coin without a price. */
  function ScoutCoins(rows: seq<Pair>, coins: seq<Symbol>, steps: seq<CoinStep>, t: Tickers, cfg: Config,
                      minNotional: Symbol -> real): (run: Run)
    requires |steps| == |coins|
    requires PositivePrices(t) && FillsPositive(steps)
    requires PassReady(rows, coins, steps, t, cfg, minNotional)
    ensures KeepsPairs(rows, run.rows)
    ensures |run.decisions| <= |coins|
    decreases |coins|
  {
    if coins == [] then Run(rows, [], false)
    else
      match ScoutCoin(rows, coins[0], steps[0], t, cfg, minNotional)
      case Abort => Run(rows, [], true)
      case Continue(next, d) =>
        Prepend([d], ScoutCoins(next, coins[1..], steps[1..], t, cfg, minNotional))
  }

  /** One unfolding of `ScoutCoins`: a stop, or the first decision in front
      of the pass over the remaining coins. */
  lemma ScoutCoinsUnfold(rows: seq<Pair>, coins: seq<Symbol>, steps: seq<CoinStep>, t: Tickers, cfg: Config,
                         minNotional: Symbol -> real)
    requires |steps| == |coins| > 0
    requires PositivePrices(t) && FillsPositive(steps)
    requires PassReady(rows, coins, steps, t, cfg, minNotional)
    ensures StepReady(rows, coins[0], steps[0], t, cfg, minNotional)
    ensures var s := ScoutCoin(rows, coins[0], steps[0], t, cfg, minNotional);
      && (s.Abort? ==> ScoutCoins(rows, coins, steps, t, cfg, minNotional) == Run(rows, [], true))
      && (s.Continue? ==>
            && PassReady(s.rows, coins[1..], steps[1..], t, cfg, minNotional)
            && ScoutCoins(rows, coins, steps, t, cfg, minNotional)
               == Prepend([s.decision], ScoutCoins(s.rows, coins[1..], steps[1..], t, cfg, minNotional)))
  {
  }

  /** `ScoutCoinsUnfold` for the pass over `coins[i..]`, stated on `coins[i]`
      and `coins[i + 1..]`. */
  lemma ScoutCoinsUnfoldAt(rows: seq<Pair>, coins: seq<Symbol>, steps: seq<CoinStep>, t: Tickers, cfg: Config,
                           minNotional: Symbol -> real, i: nat)
    requires |steps| == |coins| && i < |coins|
    requires PositivePrices(t) && FillsPositive(steps)
    requires PassReady(rows, coins[i..], steps[i..], t, cfg, minNotional)
    ensures StepReady(rows, coins[i], steps[i], t, cfg, minNotional)
    ensures var s := ScoutCoin(rows, coins[i], steps[i], t, cfg, minNotional);
      && (s.Abort? ==> ScoutCoins(rows, coins[i..], steps[i..], t, cfg, minNotional) == Run(rows, [], true))
      && (s.Continue? ==>
            && PassReady(s.rows, coins[i + 1..], steps[i + 1..], t, cfg, minNotional)
            && ScoutCoins(rows, coins[i..], steps[i..], t, cfg, minNotional)
               == Prepend([s.decision], ScoutCoins(s.rows, coins[i + 1..], steps[i + 1..], t, cfg, minNotional)))
  {
    assert coins[i..][0] == coins[i] && coins[i..][1..] == coins[i + 1..];
    assert steps[i..][0] == steps[i] && steps[i..][1..] == steps[i + 1..];
    ScoutCoinsUnfold(rows, coins[i..], steps[i..], t, cfg, minNotional);
  }

  /** One step stops the pass exactly when the coin has no price, and skips
      the coin exactly when its notional value is below the minimum. */
  lemma ScoutCoinSkipRule(rows: seq<Pair>, coin: Symbol, step: CoinStep, t: Tickers, cfg: Config,
                          minNotional: Symbol -> real)
    requires PositivePrices(t)
    requires StepReady(rows, coin, step, t, cfg, minNotional)
    requires step.bought.Some? ==> step.bought.value > 0.0
    ensures var r := ScoutCoin(rows, coin, step, t, cfg, minNotional);
      && (r.Abort? <==> Price(t, coin, cfg.bridge).None?)
      && (r.Continue? ==> (r.decision == Skipped <==>
                             BelowMinNotional(Price(t, coin, cfg.bridge).value, step.balance, minNotional(coin))))
  {
  }

  /** A pass that stops stops on a coin without a price, and one that does not
      stop decides every coin: no coin after the first unpriced one is
      examined. */
  lemma {:induction false} ScoutStopsAtFirstMissingPrice(rows: seq<Pair>, coins: seq<Symbol>, steps: seq<CoinStep>,
                                                         t: Tickers, cfg: Config, minNotional: Symbol -> real)
    requires |steps| == |coins|
    requires PositivePrices(t) && FillsPositive(steps)
    requires PassReady(rows, coins, steps, t, cfg, minNotional)
    ensures var run := ScoutCoins(rows, coins, steps, t, cfg, minNotional);
      && (run.aborted ==> |run.decisions| < |coins| && Price(t, coins[|run.decisions|], cfg.bridge).None?)
      && (!run.aborted ==> |run.decisions| == |coins|)
    decreases |coins|
  {
    if coins != [] {
      ScoutCoinsUnfold(rows, coins, steps, t, cfg, minNotional);
      var s := ScoutCoin(rows, coins[0], steps[0], t, cfg, minNotional);
      if s.Continue? {
        ScoutStopsAtFirstMissingPrice(s.rows, coins[1..], steps[1..], t, cfg, minNotional);
        var rest := ScoutCoins(s.rows, coins[1..], steps[1..], t, cfg, minNotional);
        if rest.aborted {
          assert coins[1..][|rest.decisions|] == coins[|rest.decisions| + 1];
        }
      }
    }
  }

  /** A pass stops exactly when some coin has no price. */
  lemma ScoutAbortsAtMissingPrice(rows: seq<Pair>, coins: seq<Symbol>, steps: seq<CoinStep>,
                                  t: Tickers, cfg: Config, minNotional: Symbol -> real)
    requires |steps| == |coins|
    requires PositivePrices(t) && FillsPositive(steps)
    requires PassReady(rows, coins, steps, t, cfg, minNotional)
    ensures ScoutCoins(rows, coins, steps, t, cfg, minNotional).aborted <==>
              exists k :: 0 <= k < |coins| && Price(t, coins[k], cfg.bridge).None?
  {
    var run := ScoutCoins(rows, coins, steps, t, cfg, minNotional);
    ScoutStopsAtFirstMissingPrice(rows, coins, steps, t, cfg, minNotional);
    ScoutSkipsBelowMinNotional(rows, coins, steps, t, cfg, minNotional);
    if run.aborted {
      assert Price(t, coins[|run.decisions|], cfg.bridge).None?;
    }
  }

  /** A coin examined by the pass is skipped exactly when its notional value,
      price times balance, is strictly below the minimum notional. */
  lemma {:induction false} ScoutSkipsBelowMinNotional(rows: seq<Pair>, coins: seq<Symbol>, steps: seq<CoinStep>,
                                                      t: Tickers, cfg: Config, minNotional: Symbol -> real)
    requires |steps| == |coins|
    requires PositivePrices(t) && FillsPositive(steps)
    requires PassReady(rows, coins, steps, t, cfg, minNotional)
    ensures var run := ScoutCoins(rows, coins, steps, t, cfg, minNotional);
      forall k :: 0 <= k < |run.decisions| ==>
        && Price(t, coins[k], cfg.bridge).Some?
        && (run.decisions[k] == Skipped <==>
              BelowMinNotional(Price(t, coins[k], cfg.bridge).value, steps[k].balance, minNotional(coins[k])))
    decreases |coins|
  {
    if coins != [] {
      var s := ScoutCoin(rows, coins[0], steps[0], t, cfg, minNotional);
      ScoutCoinSkipRule(rows, coins[0], steps[0], t, cfg, minNotional);
      if s.Continue? {
        var rest := ScoutCoins(s.rows, coins[1..], steps[1..], t, cfg, minNotional);
        var run := ScoutCoins(rows, coins, steps, t, cfg, minNotional);
        assert run == Prepend([s.decision], rest);
        ScoutSkipsBelowMinNotional(s.rows, coins[1..], steps[1..], t, cfg, minNotional);
        forall k | 0 <= k < |run.decisions|
          ensures Price(t, coins[k], cfg.bridge).Some?
          ensures run.decisions[k] == Skipped <==>
                    BelowMinNotional(Price(t, coins[k], cfg.bridge).value, steps[k].balance, minNotional(coins[k]))
        {
          if k == 0 {
            assert run.decisions[0] == s.decision;
          } else {
            assert run.decisions[k] == rest.decisions[k - 1];
            assert coins[1..][k - 1] == coins[k] && steps[1..][k - 1] == steps[k];
          }
        }
      }
    }
  }

  /** A pass in which no buy fills leaves the table as it was. */
  lemma {:induction false} ScoutUnchangedWithoutFill(rows: seq<Pair>, coins: seq<Symbol>, steps: seq<CoinStep>,
                                                     t: Tickers, cfg: Config, minNotional: Symbol -> real)
    requires |steps| == |coins|
    requires PositivePrices(t) && FillsPositive(steps)
    requires PassReady(rows, coins, steps, t, cfg, minNotional)
    requires forall d :: d in ScoutCoins(rows, coins, steps, t, cfg, minNotional).decisions ==>
               !(d.Jumped? && d.outcome.Settled?)
    ensures ScoutCoins(rows, coins, steps, t, cfg, minNotional).rows == rows
    decreases |coins|
  {
    if coins != [] {
      var s := ScoutCoin(rows, coins[0], steps[0], t, cfg, minNotional);
      if s.Continue? {
        var run := ScoutCoins(rows, coins, steps, t, cfg, minNotional);
        assert run.decisions[0] == s.decision;
        assert s.rows == rows;
        var rest := ScoutCoins(rows, coins[1..], steps[1..], t, cfg, minNotional);
        assert forall d :: d in rest.decisions ==> d in run.decisions;
        ScoutUnchangedWithoutFill(rows, coins[1..], steps[1..], t, cfg, minNotional);
      }
    }
  }

  /** A pass keeps every set ratio positive. */
  lemma {:induction false} ScoutKeepsRatiosPositive(rows: seq<Pair>, coins: seq<Symbol>, steps: seq<CoinStep>,
                                                    t: Tickers, cfg: Config, minNotional: Symbol -> real)
    requires |steps| == |coins|
    requires PositivePrices(t) && FillsPositive(steps)
    requires PassReady(rows, coins, steps, t, cfg, minNotional)
    requires RatiosPositive(rows)
    ensures RatiosPositive(ScoutCoins(rows, coins, steps, t, cfg, minNotional).rows)
    decreases |coins|
  {
    if coins != [] {
      var s := ScoutCoin(rows, coins[0], steps[0], t, cfg, minNotional);
      if s.Continue? {
        assert RatiosPositive(s.rows) by {
          if s.decision.Jumped? && s.decision.outcome.Settled? {
            assert s.rows == Recalibrated(rows, s.decision.pair.to, Some(s.decision.outcome.fill), t, cfg.bridge);
            RecalibratedPositive(rows, s.decision.pair.to, Some(s.decision.outcome.fill), t, cfg.bridge);
          } else {
            assert s.rows == rows;
          }
        }
        ScoutKeepsRatiosPositive(s.rows, coins[1..], steps[1..], t, cfg, minNotional);
      }
    }
  }

  /** `coin` is quoted and at least one of its scores is strictly positive:
      `bridge_scout` passes over it. */
  ghost predicate Attractive(rows: seq<Pair>, coin: Symbol, t: Tickers, cfg: Config)
    requires PositivePrices(t)
    requires ReadyFrom(rows, coin, t, cfg.bridge)
  {
    && Price(t, coin, cfg.bridge).Some?
    && AnyPositive(GetRatios(rows, coin, Price(t, coin, cfg.bridge).value, t, cfg))
  }

  /** `bridge_scout` reads the stored ratios of a coin only once it has a
      price, and moves past it only when it is attractive; the ratios it
      reads must be set. */
  ghost predicate BridgeReady(rows: seq<Pair>, coins: seq<Symbol>, t: Tickers, cfg: Config)
    requires PositivePrices(t)
    decreases |coins|
  {
    coins != [] && Price(t, coins[0], cfg.bridge).Some? ==>
      && ReadyFrom(rows, coins[0], t, cfg.bridge)
      && (Attractive(rows, coins[0], t, cfg) ==> BridgeReady(rows, coins[1..], t, cfg))
  }

  /** `bridge_scout` over `coins` with its own snapshot `t`. */
  function BridgeScoutSpec(rows: seq<Pair>, coins: seq<Symbol>, t: Tickers, cfg: Config, bridgeBalance: real,
                           minNotional: Symbol -> real): (d: BridgeDecision)
    requires PositivePrices(t)
    requires BridgeReady(rows, coins, t, cfg)
    ensures d.PriceMissing? ==> d.coin in coins && Price(t, d.coin, cfg.bridge).None?
    ensures d.Bought? ==> d.coin in coins && bridgeBalance > minNotional(d.coin)
    ensures d.Underfunded? ==> d.coin in coins && bridgeBalance <= minNotional(d.coin)
    decreases |coins|
  {
    if coins == [] then NoCandidate
    else
      var price := Price(t, coins[0], cfg.bridge);
      if price.None? then PriceMissing(coins[0])
      else if !AnyPositive(GetRatios(rows, coins[0], price.value, t, cfg)) then
        if bridgeBalance > minNotional(coins[0]) then Bought(coins[0]) else Underfunded(coins[0])
      else
        var d := BridgeScoutSpec(rows, coins[1..], t, cfg, bridgeBalance, minNotional);
        assert d.PriceMissing? || d.Bought? || d.Underfunded? ==> d.coin in coins;
        d
  }

  /** `bridge_scout` stops at the first coin that is not attractive: with no
      price it buys nothing; otherwise it buys that coin exactly when the
      bridge balance is strictly above its minimum notional. */
  lemma {:induction false} BridgeScoutStopsAtFirst(rows: seq<Pair>, coins: seq<Symbol>, t: Tickers, cfg: Config,
                                                   bridgeBalance: real, minNotional: Symbol -> real, k: nat)
    requires PositivePrices(t)
    requires BridgeReady(rows, coins, t, cfg)
    requires k < |coins|
    requires forall j :: 0 <= j < k ==> ReadyFrom(rows, coins[j], t, cfg.bridge) && Attractive(rows, coins[j], t, cfg)
    ensures Price(t, coins[k], cfg.bridge).Some? ==> ReadyFrom(rows, coins[k], t, cfg.bridge)
    ensures var d := BridgeScoutSpec(rows, coins, t, cfg, bridgeBalance, minNotional);
      && (Price(t, coins[k], cfg.bridge).None? ==> d == PriceMissing(coins[k]))
      && (Price(t, coins[k], cfg.bridge).Some? && !Attractive(rows, coins[k], t, cfg) ==>
            d == if bridgeBalance > minNotional(coins[k]) then Bought(coins[k]) else Underfunded(coins[k]))
  {
    if k > 0 {
      assert Attractive(rows, coins[0], t, cfg);
      assert BridgeReady(rows, coins[1..], t, cfg);
      assert BridgeScoutSpec(rows, coins, t, cfg, bridgeBalance, minNotional)
             == BridgeScoutSpec(rows, coins[1..], t, cfg, bridgeBalance, minNotional);
      forall j | 0 <= j < k - 1
        ensures ReadyFrom(rows, coins[1..][j], t, cfg.bridge) && Attractive(rows, coins[1..][j], t, cfg)
      {
        assert coins[1..][j] == coins[j + 1];
      }
      assert coins[1..][k - 1] == coins[k];
      BridgeScoutStopsAtFirst(rows, coins[1..], t, cfg, bridgeBalance, minNotional, k - 1);
    }
  }

  /** `bridge_scout` finds no coin exactly when every coin is attractive. */
  lemma {:induction false} BridgeScoutNoCandidate(rows: seq<Pair>, coins: seq<Symbol>, t: Tickers, cfg: Config,
                                                  bridgeBalance: real, minNotional: Symbol -> real)
    requires PositivePrices(t)
    requires BridgeReady(rows, coins, t, cfg)
    ensures BridgeScoutSpec(rows, coins, t, cfg, bridgeBalance, minNotional) == NoCandidate <==>
              forall j :: 0 <= j < |coins| ==> ReadyFrom(rows, coins[j], t, cfg.bridge) && Attractive(rows, coins[j], t, cfg)
    decreases |coins|
  {
    if coins != [] {
      var d := BridgeScoutSpec(rows, coins, t, cfg, bridgeBalance, minNotional);
      if Price(t, coins[0], cfg.bridge).None? {
        assert d == PriceMissing(coins[0]);
      } else if Attractive(rows, coins[0], t, cfg) {
        assert BridgeReady(rows, coins[1..], t, cfg);
        assert d == BridgeScoutSpec(rows, coins[1..], t, cfg, bridgeBalance, minNotional);
        BridgeScoutNoCandidate(rows, coins[1..], t, cfg, bridgeBalance, minNotional);
        AllAttractiveShift(rows, coins, t, cfg);
      } else {
        assert d != NoCandidate;
      }
    }
  }

  /** All coins are attractive exactly when the first one and all the rest are. */
  lemma AllAttractiveShift(rows: seq<Pair>, coins: seq<Symbol>, t: Tickers, cfg: Config)
    requires PositivePrices(t)
    requires |coins| > 0 && ReadyFrom(rows, coins[0], t, cfg.bridge)
    ensures (forall j :: 0 <= j < |coins| ==> ReadyFrom(rows, coins[j], t, cfg.bridge) && Attractive(rows, coins[j], t, cfg))
            <==> (Attractive(rows, coins[0], t, cfg) &&
                  forall j :: 0 <= j < |coins[1..]| ==> ReadyFrom(rows, coins[1..][j], t, cfg.bridge) && Attractive(rows, coins[1..][j], t, cfg))
  {
    assert forall j :: 1 <= j < |coins| ==> coins[1..][j - 1] == coins[j];
  }

  /** A whole `scout` call reads set ratios only: every step of the pass it
      reaches, and then `bridge_scout` on the table the pass left. */
  ghost predicate ScoutReady(rows: seq<Pair>, coins: seq<Symbol>, steps: seq<CoinStep>, t: Tickers, cfg: Config,
                             minNotional: Symbol -> real, bridgeTickers: Tickers)
    requires |steps| == |coins|
    requires PositivePrices(t) && FillsPositive(steps) && PositivePrices(bridgeTickers)
  {
    && PassReady(rows, coins, steps, t, cfg, minNotional)
    && var run := ScoutCoins(rows, coins, steps, t, cfg, minNotional);
       (!run.aborted ==> BridgeReady(run.rows, coins, bridgeTickers, cfg))
  }

  /** A whole `scout` call: the per-coin loop, then, unless it stopped on a
      missing price, one `bridge_scout` on the table the loop left and on a
      fresh snapshot. Returns the table after the call and what it did. */
  function ScoutSpec(rows: seq<Pair>, coins: seq<Symbol>, steps: seq<CoinStep>, t: Tickers, cfg: Config,
                     minNotional: Symbol -> real, bridgeBalance: real, bridgeTickers: Tickers): (r: (seq<Pair>, ScoutResult))
    requires |steps| == |coins|
    requires PositivePrices(t) && FillsPositive(steps) && PositivePrices(bridgeTickers)
    requires ScoutReady(rows, coins, steps, t, cfg, minNotional, bridgeTickers)
    ensures KeepsPairs(rows, r.0)
    ensures r.1.Aborted? <==> exists k :: 0 <= k < |coins| && Price(t, coins[k], cfg.bridge).None?
    ensures r.1.Completed? ==> |r.1.decisions| == |coins|
  {
    var run := ScoutCoins(rows, coins, steps, t, cfg, minNotional);
    ScoutAbortsAtMissingPrice(rows, coins, steps, t, cfg, minNotional);
    ScoutStopsAtFirstMissingPrice(rows, coins, steps, t, cfg, minNotional);
    if run.aborted then (run.rows, Aborted(run.decisions))
    else (run.rows, Completed(run.decisions, BridgeScoutSpec(run.rows, coins, bridgeTickers, cfg, bridgeBalance, minNotional)))
  }

  /** Ratios set for every quoted pair leaving a coin of the list are enough
      for every step of a pass. */
  lemma {:induction false} ReadyForPass(rows: seq<Pair>, coins: seq<Symbol>, steps: seq<CoinStep>, t: Tickers, cfg: Config,
                                        minNotional: Symbol -> real)
    requires |steps| == |coins|
    requires PositivePrices(t) && FillsPositive(steps)
    requires ReadyFor(rows, coins, t, cfg.bridge)
    ensures PassReady(rows, coins, steps, t, cfg, minNotional)
    decreases |coins|
  {
    if coins != [] {
      ReadyForCoin(rows, coins, 0, t, cfg.bridge);
      var s := ScoutCoin(rows, coins[0], steps[0], t, cfg, minNotional);
      if s.Continue? {
        ReadyForKept(rows, s.rows, coins, t, cfg.bridge);
        ReadyForSuffix(s.rows, coins, 1, t, cfg.bridge);
        ReadyForPass(s.rows, coins[1..], steps[1..], t, cfg, minNotional);
      }
    }
  }

  /** ... and for `bridge_scout`. */
  lemma {:induction false} ReadyForBridge(rows: seq<Pair>, coins: seq<Symbol>, t: Tickers, cfg: Config)
    requires PositivePrices(t)
    requires ReadyFor(rows, coins, t, cfg.bridge)
    ensures BridgeReady(rows, coins, t, cfg)
    decreases |coins|
  {
    if coins != [] {
      ReadyForCoin(rows, coins, 0, t, cfg.bridge);
      ReadyForSuffix(rows, coins, 1, t, cfg.bridge);
      ReadyForBridge(rows, coins[1..], t, cfg);
    }
  }

  /** ... and so for a whole `scout` call, since the pass never unsets a ratio. */
  lemma ReadyForScout(rows: seq<Pair>, coins: seq<Symbol>, steps: seq<CoinStep>, t: Tickers, cfg: Config,
                      minNotional: Symbol -> real, bridgeTickers: Tickers)
    requires |steps| == |coins|
    requires PositivePrices(t) && FillsPositive(steps) && PositivePrices(bridgeTickers)
    requires ReadyFor(rows, coins, t, cfg.bridge) && ReadyFor(rows, coins, bridgeTickers, cfg.bridge)
    ensures ScoutReady(rows, coins, steps, t, cfg, minNotional, bridgeTickers)
  {
    ReadyForPass(rows, coins, steps, t, cfg, minNotional);
    var run := ScoutCoins(rows, coins, steps, t, cfg, minNotional);
    ReadyForKept(rows, run.rows, coins, bridgeTickers, cfg.bridge);
    ReadyForBridge(run.rows, coins, bridgeTickers, cfg);
  }
}
