/** The two writers of the pair table: recalibration after a buy
    (`AutoTrader.update_trade_threshold`) and the bootstrap of unset ratios
    (`AutoTrader.initialize_trade_thresholds`), each as the table it leaves
    behind. The class in module AutoTrading performs them in place. */
module Thresholds {
  import opened Wrappers
  import opened Ratios

  /** One row after a buy of `coin` at `fill`: a pair into `coin` whose source
      is quoted gets ratio `source price / fill`; every other row is kept. */
  function RecalibrateRow(p: Pair, coin: Symbol, fill: real, t: Tickers, bridge: Symbol): Pair
    requires fill != 0.0
  {
    if p.to != coin then p
    else
      var fromPrice := Price(t, p.from, bridge);
      if fromPrice.None? then p else p.(ratio := Some(fromPrice.value / fill))
  }

  /** The table `update_trade_threshold(coin, fill, tickers)` leaves: nothing
      changes without a fill price. */
  function Recalibrated(rows: seq<Pair>, coin: Symbol, fill: Option<real>, t: Tickers, bridge: Symbol): (r: seq<Pair>)
    requires fill.Some? ==> fill.value != 0.0
    ensures KeepsPairs(rows, r)
  {
    if fill.None? then rows
    else seq(|rows|, i requires 0 <= i < |rows| => RecalibrateRow(rows[i], coin, fill.value, t, bridge))
  }

  /** Only pairs into `coin` change; each is set to its source price over the
      fill price unless its source is not quoted, and a missing fill price
      changes nothing. */
  lemma RecalibratedRows(rows: seq<Pair>, coin: Symbol, fill: Option<real>, t: Tickers, bridge: Symbol)
    requires fill.Some? ==> fill.value != 0.0
    ensures var r := Recalibrated(rows, coin, fill, t, bridge);
      && |r| == |rows|
      && (fill.None? ==> r == rows)
      && forall i :: 0 <= i < |rows| ==>
           && (rows[i].to != coin ==> r[i] == rows[i])
           && (Price(t, rows[i].from, bridge).None? ==> r[i] == rows[i])
           && (rows[i].to == coin && fill.Some? && Price(t, rows[i].from, bridge).Some? ==>
                 r[i] == rows[i].(ratio := Some(Price(t, rows[i].from, bridge).value / fill.value)))
  {
  }

  /** With positive prices every ratio recalibration writes is positive, so the
      table keeps the invariant that set ratios are positive. */
  lemma RecalibratedPositive(rows: seq<Pair>, coin: Symbol, fill: Option<real>, t: Tickers, bridge: Symbol)
    requires PositivePrices(t)
    requires fill.Some? ==> fill.value > 0.0
    requires RatiosPositive(rows)
    ensures RatiosPositive(Recalibrated(rows, coin, fill, t, bridge))
  {
  }

  /** Repeating a recalibration with the same snapshot and fill price changes
      nothing more. */
  lemma RecalibratedIdempotent(rows: seq<Pair>, coin: Symbol, fill: Option<real>, t: Tickers, bridge: Symbol)
    requires fill.Some? ==> fill.value != 0.0
    ensures Recalibrated(Recalibrated(rows, coin, fill, t, bridge), coin, fill, t, bridge)
            == Recalibrated(rows, coin, fill, t, bridge)
  {
  }

  /** After a buy of `coin` filled at its quoted price, no jump back into
      `coin` scores positive at the same prices (when the fee term is not
      negative): recalibration makes the stored ratio the current one. */
  lemma {:induction false} RecalibratedIsNoSignal(rows: seq<Pair>, coin: Symbol, from: Symbol, t: Tickers, cfg: Config)
    requires PositivePrices(t)
    requires Price(t, coin, cfg.bridge).Some? && Price(t, from, cfg.bridge).Some?
    requires cfg.fee * cfg.multiplier >= 0.0
    requires ReadyFrom(Recalibrated(rows, coin, Price(t, coin, cfg.bridge), t, cfg.bridge), from, t, cfg.bridge)
    ensures var r := Recalibrated(rows, coin, Price(t, coin, cfg.bridge), t, cfg.bridge);
            var c := GetRatios(r, from, Price(t, from, cfg.bridge).value, t, cfg);
            forall k :: 0 <= k < |c| && c[k].pair.to == coin ==> c[k].score <= 0.0
  {
    var fill := Price(t, coin, cfg.bridge);
    var r := Recalibrated(rows, coin, fill, t, cfg.bridge);
    var fromPrice := Price(t, from, cfg.bridge).value;
    var c := GetRatios(r, from, fromPrice, t, cfg);
    forall k | 0 <= k < |c| && c[k].pair.to == coin
      ensures c[k].score <= 0.0
    {
      var i :| 0 <= i < |r| && r[i] == c[k].pair;
      assert r[i].ratio == Some(fromPrice / fill.value);
      NoSignalAtQuote(fromPrice, fill.value, cfg);
    }
  }

  /** A ratio equal to the current price ratio scores minus the fee drag. */
  lemma NoSignalAtQuote(fromPrice: real, toPrice: real, cfg: Config)
    requires fromPrice > 0.0 && toPrice > 0.0
    requires cfg.fee * cfg.multiplier >= 0.0
    ensures Score(fromPrice, toPrice, fromPrice / toPrice, cfg) <= 0.0
  {
    var r := fromPrice / toPrice;
    assert r > 0.0;
    assert cfg.fee * cfg.multiplier * r >= 0.0;
  }

  /** One row after bootstrap: an unset pair between two enabled coins that
      are both quoted gets ratio `from price / to price`. */
  function InitRow(p: Pair, enabled: set<Symbol>, t: Tickers, bridge: Symbol): Pair
    requires PositivePrices(t)
  {
    if p.ratio.Some? || p.from !in enabled || p.to !in enabled then p
    else
      var fromPrice := Price(t, p.from, bridge);
      var toPrice := Price(t, p.to, bridge);
      if fromPrice.None? || toPrice.None? then p
      else p.(ratio := Some(fromPrice.value / toPrice.value))
  }

  /** The table `initialize_trade_thresholds` leaves for one snapshot. */
  function Initialized(rows: seq<Pair>, enabled: set<Symbol>, t: Tickers, bridge: Symbol): (r: seq<Pair>)
    requires PositivePrices(t)
    ensures KeepsPairs(rows, r)
  {
    seq(|rows|, i requires 0 <= i < |rows| => InitRow(rows[i], enabled, t, bridge))
  }

  /** Only unset ratios are written; a pair with a disabled end or an
      unquoted end stays unset; the others get the current price ratio. */
  lemma InitializedRows(rows: seq<Pair>, enabled: set<Symbol>, t: Tickers, bridge: Symbol)
    requires PositivePrices(t)
    ensures var r := Initialized(rows, enabled, t, bridge);
      && |r| == |rows|
      && forall i :: 0 <= i < |rows| ==>
           && (rows[i].ratio.Some? ==> r[i] == rows[i])
           && (rows[i].from !in enabled || rows[i].to !in enabled ==> r[i] == rows[i])
           && (Price(t, rows[i].from, bridge).None? || Price(t, rows[i].to, bridge).None? ==> r[i] == rows[i])
           && (rows[i].ratio.None? && rows[i].from in enabled && rows[i].to in enabled
               && Price(t, rows[i].from, bridge).Some? && Price(t, rows[i].to, bridge).Some? ==>
                 r[i] == rows[i].(ratio := Some(Price(t, rows[i].from, bridge).value / Price(t, rows[i].to, bridge).value)))
  {
  }

  /** A second bootstrap with the same snapshot and enabled coins changes
      nothing. */
  lemma InitializedIdempotent(rows: seq<Pair>, enabled: set<Symbol>, t: Tickers, bridge: Symbol)
    requires PositivePrices(t)
    ensures Initialized(Initialized(rows, enabled, t, bridge), enabled, t, bridge)
            == Initialized(rows, enabled, t, bridge)
  {
  }

  /** Bootstrap keeps the invariant that set ratios are positive. */
  lemma InitializedPositive(rows: seq<Pair>, enabled: set<Symbol>, t: Tickers, bridge: Symbol)
    requires PositivePrices(t)
    requires RatiosPositive(rows)
    ensures RatiosPositive(Initialized(rows, enabled, t, bridge))
  {
  }

  /** Bootstrap prepares the table for scouting on the same snapshot: when
      every pair leaving a coin of `coins` joins two enabled coins and its
      source is quoted, each of those pairs whose target is quoted has a ratio
      afterwards. */
  lemma InitializedReady(rows: seq<Pair>, enabled: set<Symbol>, coins: seq<Symbol>, t: Tickers, bridge: Symbol)
    requires PositivePrices(t)
    requires forall i :: 0 <= i < |rows| && rows[i].from in coins ==>
               rows[i].from in enabled && rows[i].to in enabled && Price(t, rows[i].from, bridge).Some?
    ensures ReadyFor(Initialized(rows, enabled, t, bridge), coins, t, bridge)
  {
  }

  /** A bootstrapped ratio is never itself a trade signal: at the snapshot it
      was taken from, its jump scores at most zero (fee term not negative). */
  lemma InitializedIsNoSignal(rows: seq<Pair>, enabled: set<Symbol>, t: Tickers, cfg: Config, i: nat)
    requires PositivePrices(t)
    requires cfg.fee * cfg.multiplier >= 0.0
    requires i < |rows| && rows[i].ratio.None?
    requires Initialized(rows, enabled, t, cfg.bridge)[i].ratio.Some?
    ensures Price(t, rows[i].from, cfg.bridge).Some? && Price(t, rows[i].to, cfg.bridge).Some?
    ensures Score(Price(t, rows[i].from, cfg.bridge).value, Price(t, rows[i].to, cfg.bridge).value,
                  Initialized(rows, enabled, t, cfg.bridge)[i].ratio.value, cfg) <= 0.0
  {
    NoSignalAtQuote(Price(t, rows[i].from, cfg.bridge).value, Price(t, rows[i].to, cfg.bridge).value, cfg);
  }
}
