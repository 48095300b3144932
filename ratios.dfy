/** The ratio engine of the trader: ticker lookups in a price snapshot, the
    stored pair table, the fee-adjusted score of every jump leaving one coin
    (`AutoTrader._get_ratios`) and the choice of the best strictly positive
    score made by `AutoTrader.scout`. */
module Ratios {
  import opened Wrappers

  type Symbol = string

  /** One price snapshot: ticker symbol (coin symbol followed by the bridge
      symbol) to its current price against the bridge. */
  type Tickers = map<string, real>

  /** The configuration the engine reads: the bridge coin, the transaction fee
      and the multiplier an operator applies to it. */
  datatype Config = Config(bridge: Symbol, fee: real, multiplier: real)

  /** One row of the pair table: the ratio last considered fair for a jump
      from `from` to `to`, or None while it is still unset. */
  datatype Pair = Pair(from: Symbol, to: Symbol, ratio: Option<real>)

  /** A scored jump opportunity; `score > 0` means the jump beats the stored
      ratio by more than the fee drag. */
  datatype Candidate = Candidate(pair: Pair, score: real)

  /** The price of `coin` against the bridge in a snapshot, looked up under the
      ticker `coin + bridge`. */
  function Price(t: Tickers, coin: Symbol, bridge: Symbol): (r: Option<real>)
    ensures r.Some? <==> coin + bridge in t
    ensures r.Some? ==> r.value == t[coin + bridge]
  {
    var ticker := coin + bridge;
    if ticker in t then Some(t[ticker]) else None
  }

  /** Every quoted price is positive (the code divides by prices unguarded). */
  ghost predicate PositivePrices(t: Tickers)
  {
    forall s :: s in t ==> t[s] > 0.0
  }

  /** Every ratio that is set is positive. */
  ghost predicate RatiosPositive(rows: seq<Pair>)
  {
    forall i :: 0 <= i < |rows| && rows[i].ratio.Some? ==> rows[i].ratio.value > 0.0
  }

  /** Scoring `coin` reads the stored ratio of every pair leaving it whose
      target is quoted; those ratios must be set. */
  ghost predicate ReadyFrom(rows: seq<Pair>, coin: Symbol, t: Tickers, bridge: Symbol)
  {
    forall i :: 0 <= i < |rows| && rows[i].from == coin && Price(t, rows[i].to, bridge).Some? ==>
      rows[i].ratio.Some?
  }

  /** `ReadyFrom` for every coin of `coins`. */
  ghost predicate ReadyFor(rows: seq<Pair>, coins: seq<Symbol>, t: Tickers, bridge: Symbol)
  {
    forall i :: 0 <= i < |rows| && rows[i].from in coins && Price(t, rows[i].to, bridge).Some? ==>
      rows[i].ratio.Some?
  }

  /** `b` is `a` with the same pairs in the same order, where no set ratio has
      been unset (ratios may have been written). */
  ghost predicate KeepsPairs(a: seq<Pair>, b: seq<Pair>)
  {
    && |a| == |b|
    && forall i :: 0 <= i < |a| ==>
         a[i].from == b[i].from && a[i].to == b[i].to && (a[i].ratio.Some? ==> b[i].ratio.Some?)
  }

  lemma ReadyForKept(a: seq<Pair>, b: seq<Pair>, coins: seq<Symbol>, t: Tickers, bridge: Symbol)
    requires ReadyFor(a, coins, t, bridge) && KeepsPairs(a, b)
    ensures ReadyFor(b, coins, t, bridge)
  {
  }

  lemma ReadyForSuffix(rows: seq<Pair>, coins: seq<Symbol>, n: nat, t: Tickers, bridge: Symbol)
    requires n <= |coins|
    requires ReadyFor(rows, coins, t, bridge)
    ensures ReadyFor(rows, coins[n..], t, bridge)
  {
    forall i | 0 <= i < |rows| && rows[i].from in coins[n..]
      ensures rows[i].from in coins
    {
      var k :| n <= k < |coins| && coins[k] == rows[i].from;
    }
  }

  lemma ReadyForCoin(rows: seq<Pair>, coins: seq<Symbol>, k: nat, t: Tickers, bridge: Symbol)
    requires k < |coins| && ReadyFor(rows, coins, t, bridge)
    ensures ReadyFrom(rows, coins[k], t, bridge)
  {
  }

  /** The score of a jump from a coin priced `coinPrice` to one priced
      `toPrice` whose stored ratio is `stored`: the current ratio, less the
      fee drag on it, less the stored ratio. */
  function Score(coinPrice: real, toPrice: real, stored: real, cfg: Config): (s: real)
    requires toPrice != 0.0
    ensures s > 0.0 <==> (coinPrice / toPrice) * (1.0 - cfg.fee * cfg.multiplier) > stored
  {
    NetMargin(coinPrice / toPrice, cfg.fee * cfg.multiplier, stored)
  }

  /** A ratio `r`, less the drag `drag * r` on it, less `stored`: positive
      exactly when the ratio net of the drag beats the stored ratio. */
  function NetMargin(r: real, drag: real, stored: real): (m: real)
    ensures m > 0.0 <==> r * (1.0 - drag) > stored
  {
    (r - drag * r) - stored
  }

  /** `AutoTrader._get_ratios`: one candidate per pair leaving `coin` whose
      target is quoted, in table order; the table itself is only read. */
  function GetRatios(rows: seq<Pair>, coin: Symbol, coinPrice: real, t: Tickers, cfg: Config): (r: seq<Candidate>)
    requires PositivePrices(t)
    requires ReadyFrom(rows, coin, t, cfg.bridge)
    ensures |r| <= |rows|
    ensures forall k :: 0 <= k < |r| ==>
      && r[k].pair in rows
      && r[k].pair.from == coin
      && Price(t, r[k].pair.to, cfg.bridge).Some?
      && r[k].pair.ratio.Some?
      && r[k].score == Score(coinPrice, Price(t, r[k].pair.to, cfg.bridge).value, r[k].pair.ratio.value, cfg)
    decreases |rows|
  {
    if rows == [] then []
    else
      var p := rows[0];
      var toPrice := Price(t, p.to, cfg.bridge);
      var rest := GetRatios(rows[1..], coin, coinPrice, t, cfg);
      if p.from == coin && toPrice.Some? then
        [Candidate(p, Score(coinPrice, toPrice.value, p.ratio.value, cfg))] + rest
      else
        rest
  }

  /** Every pair leaving `coin` whose target is quoted gets a candidate:
      together with the contract of GetRatios, its candidates are exactly
      those pairs. */
  lemma {:induction false} GetRatiosComplete(rows: seq<Pair>, coin: Symbol, coinPrice: real, t: Tickers, cfg: Config, i: nat)
    requires PositivePrices(t)
    requires ReadyFrom(rows, coin, t, cfg.bridge)
    requires i < |rows| && rows[i].from == coin && Price(t, rows[i].to, cfg.bridge).Some?
    ensures exists k :: 0 <= k < |GetRatios(rows, coin, coinPrice, t, cfg)| &&
                        GetRatios(rows, coin, coinPrice, t, cfg)[k].pair == rows[i]
  {
    var r := GetRatios(rows, coin, coinPrice, t, cfg);
    if i == 0 {
      assert r[0].pair == rows[0];
    } else {
      var rest := GetRatios(rows[1..], coin, coinPrice, t, cfg);
      assert rows[1..][i - 1] == rows[i];
      GetRatiosComplete(rows[1..], coin, coinPrice, t, cfg, i - 1);
      var k :| 0 <= k < |rest| && rest[k].pair == rows[i];
      if rows[0].from == coin && Price(t, rows[0].to, cfg.bridge).Some? {
        assert r[k + 1] == rest[k];
      } else {
        assert r[k] == rest[k];
      }
    }
  }

  /** The candidates of a table split in two are those of the first part
      followed by those of the second: `_get_ratios` walks the table in
      order and gives one candidate per qualifying row. */
  lemma {:induction false} GetRatiosAppend(a: seq<Pair>, b: seq<Pair>, coin: Symbol, coinPrice: real, t: Tickers, cfg: Config)
    requires PositivePrices(t)
    requires ReadyFrom(a + b, coin, t, cfg.bridge)
    ensures ReadyFrom(a, coin, t, cfg.bridge) && ReadyFrom(b, coin, t, cfg.bridge)
    ensures GetRatios(a + b, coin, coinPrice, t, cfg)
            == GetRatios(a, coin, coinPrice, t, cfg) + GetRatios(b, coin, coinPrice, t, cfg)
    decreases |a|
  {
    assert forall i :: 0 <= i < |a| ==> (a + b)[i] == a[i];
    assert forall i :: 0 <= i < |b| ==> (a + b)[|a| + i] == b[i];
    if a != [] {
      assert (a + b)[1..] == a[1..] + b;
      GetRatiosAppend(a[1..], b, coin, coinPrice, t, cfg);
    } else {
      assert a + b == b;
    }
  }

  /** Of two qualifying rows, the earlier one's candidate comes first: the
      candidates follow table order, which decides ties in `max`. */
  lemma GetRatiosInTableOrder(rows: seq<Pair>, coin: Symbol, coinPrice: real, t: Tickers, cfg: Config, i: nat, j: nat)
    requires PositivePrices(t)
    requires ReadyFrom(rows, coin, t, cfg.bridge)
    requires i < j < |rows|
    requires rows[i].from == coin && Price(t, rows[i].to, cfg.bridge).Some?
    requires rows[j].from == coin && Price(t, rows[j].to, cfg.bridge).Some?
    ensures var r := GetRatios(rows, coin, coinPrice, t, cfg);
            exists ki, kj :: 0 <= ki < kj < |r| && r[ki].pair == rows[i] && r[kj].pair == rows[j]
  {
    var r := GetRatios(rows, coin, coinPrice, t, cfg);
    var ki := CandidateIndex(rows, coin, coinPrice, t, cfg, i);
    var kj := CandidateIndex(rows, coin, coinPrice, t, cfg, j);
    assert rows[..j] == rows[..i] + rows[i..j];
    GetRatiosAppend(rows[..i], rows[i..j], coin, coinPrice, t, cfg);
    assert rows[i..j] == [rows[i]] + rows[i + 1..j];
    GetRatiosAppend([rows[i]], rows[i + 1..j], coin, coinPrice, t, cfg);
    assert r[ki].pair == rows[i] && r[kj].pair == rows[j];
  }

  /** The candidate of a qualifying row `rows[i]` sits after the candidates of
      the rows before it. */
  lemma CandidateIndex(rows: seq<Pair>, coin: Symbol, coinPrice: real, t: Tickers, cfg: Config, i: nat) returns (k: nat)
    requires PositivePrices(t)
    requires ReadyFrom(rows, coin, t, cfg.bridge)
    requires i < |rows| && rows[i].from == coin && Price(t, rows[i].to, cfg.bridge).Some?
    ensures ReadyFrom(rows[..i], coin, t, cfg.bridge)
    ensures k == |GetRatios(rows[..i], coin, coinPrice, t, cfg)|
    ensures k < |GetRatios(rows, coin, coinPrice, t, cfg)| && GetRatios(rows, coin, coinPrice, t, cfg)[k].pair == rows[i]
  {
    assert rows == rows[..i] + rows[i..];
    GetRatiosAppend(rows[..i], rows[i..], coin, coinPrice, t, cfg);
    k := |GetRatios(rows[..i], coin, coinPrice, t, cfg)|;
    assert GetRatios(rows[i..], coin, coinPrice, t, cfg)[0].pair == rows[i];
  }

  /** A worked example: prices 10 and 5, stored ratio 1.5, fee 0.001,
      multiplier 1 score 0.498. */
  lemma WorkedExample()
    ensures GetRatios([Pair("A", "B", Some(1.5))], "A", 10.0, map["AUSDT" := 10.0, "BUSDT" := 5.0],
                      Config("USDT", 0.001, 1.0))
            == [Candidate(Pair("A", "B", Some(1.5)), 0.498)]
  {
    var t := map["AUSDT" := 10.0, "BUSDT" := 5.0];
    assert "B" + "USDT" == "BUSDT";
    assert Price(t, "B", "USDT") == Some(5.0);
  }

  /** The candidates with a strictly positive score, in order (line 114). */
  function Positive(c: seq<Candidate>): (r: seq<Candidate>)
    ensures |r| <= |c|
    ensures forall k :: 0 <= k < |r| ==> r[k].score > 0.0 && r[k] in c
    ensures r == [] <==> forall k :: 0 <= k < |c| ==> c[k].score <= 0.0
  {
    if c == [] then []
    else
      var last := c[|c| - 1];
      Positive(c[..|c| - 1]) + (if last.score > 0.0 then [last] else [])
  }

  /** Every candidate with a strictly positive score is kept. */
  lemma {:induction false} PositiveKeepsAll(c: seq<Candidate>)
    ensures forall k :: 0 <= k < |c| && c[k].score > 0.0 ==> c[k] in Positive(c)
  {
    if c != [] {
      var init := c[..|c| - 1];
      PositiveKeepsAll(init);
      assert forall k :: 0 <= k < |c| - 1 ==> c[k] == init[k];
    }
  }

  /** Filtering a list split in two filters each part: the positive scores
      keep their order. */
  lemma {:induction false} PositiveAppend(a: seq<Candidate>, b: seq<Candidate>)
    ensures Positive(a + b) == Positive(a) + Positive(b)
    decreases |b|
  {
    if b == [] {
      assert a + b == a;
    } else {
      var b', last := b[..|b| - 1], b[|b| - 1];
      assert b == b' + [last];
      assert a + b == (a + b') + [last];
      PositiveSnoc(a + b', last);
      PositiveSnoc(b', last);
      PositiveAppend(a, b');
      var tail := if last.score > 0.0 then [last] else [];
      assert Positive(a) + (Positive(b') + tail) == (Positive(a) + Positive(b')) + tail;
    }
  }

  lemma PositiveSnoc(s: seq<Candidate>, x: Candidate)
    ensures Positive(s + [x]) == Positive(s) + (if x.score > 0.0 then [x] else [])
  {
    assert (s + [x])[..|s + [x]| - 1] == s;
  }

  /** The index `max` picks from a non-empty candidate list: the scan keeps the
      current best and replaces it only by a strictly greater score, so the
      first of several equal maxima wins. */
  function BestOf(c: seq<Candidate>): (b: nat)
    requires |c| > 0
    ensures b < |c|
    ensures forall k :: 0 <= k < |c| ==> c[k].score <= c[b].score
    ensures forall k :: 0 <= k < b ==> c[k].score < c[b].score
  {
    if |c| == 1 then 0
    else
      var b := BestOf(c[..|c| - 1]);
      if c[|c| - 1].score > c[b].score then |c| - 1 else b
  }

  /** Lines 114-118 of `scout`: keep the positive scores and, if any remain,
      pick the maximum. */
  function Select(c: seq<Candidate>): (r: Option<Candidate>)
    ensures r.None? <==> forall k :: 0 <= k < |c| ==> c[k].score <= 0.0
    ensures r.Some? ==> r.value.score > 0.0
  {
    var pos := Positive(c);
    if pos == [] then None else Some(pos[BestOf(pos)])
  }

  /** `c[k]` is the first candidate of `c` with the largest score, and that
      score is strictly positive. */
  ghost predicate IsFirstMax(c: seq<Candidate>, k: int)
  {
    && 0 <= k < |c|
    && c[k].score > 0.0
    && (forall j :: 0 <= j < |c| ==> c[j].score <= c[k].score)
    && (forall j :: 0 <= j < k ==> c[j].score < c[k].score)
  }

  /** Python's `any(v > 0 ...)` over the scores (line 158). */
  predicate AnyPositive(c: seq<Candidate>)
  {
    exists k :: 0 <= k < |c| && c[k].score > 0.0
  }

  /** No jump target unless some score is strictly positive; otherwise the
      target is the first maximum of all the scores. */
  lemma SelectIsFirstMax(c: seq<Candidate>)
    ensures Select(c).None? <==> !AnyPositive(c)
    ensures Select(c).Some? ==> exists k :: IsFirstMax(c, k) && c[k] == Select(c).value
  {
    if Select(c).Some? {
      var k := SelectFindsFirstMax(c);
    }
  }

  lemma {:induction false} SelectFindsFirstMax(c: seq<Candidate>) returns (k: int)
    requires Select(c).Some?
    ensures IsFirstMax(c, k) && c[k] == Select(c).value
  {
    var n := |c|;
    var init := c[..n - 1];
    SelectSnoc(c);
    if c[n - 1].score <= 0.0 {
      k := SelectFindsFirstMax(init);
      FirstMaxExtends(c, k);
    } else if Select(init).None? {
      FirstPositive(c);
      k := n - 1;
    } else {
      var j := SelectFindsFirstMax(init);
      if c[n - 1].score > c[j].score {
        NewFirstMax(c, j);
        k := n - 1;
      } else {
        FirstMaxExtends(c, j);
        k := j;
      }
    }
  }

  /** Selecting from a list extended by one candidate: a positive newcomer
      wins only with a strictly greater score. */
  lemma SelectSnoc(c: seq<Candidate>)
    requires |c| > 0
    ensures var init, last := c[..|c| - 1], c[|c| - 1];
      Select(c) ==
        if last.score <= 0.0 then Select(init)
        else if Select(init).None? || last.score > Select(init).value.score then Some(last)
        else Select(init)
  {
    var init, last := c[..|c| - 1], c[|c| - 1];
    assert c == init + [last];
    PositiveSnoc(init, last);
    var pos' := Positive(init);
    if last.score <= 0.0 {
      assert pos' + [] == pos';
    } else if pos' == [] {
      assert Positive(init + [last]) == [last];
    } else {
      var pos := pos' + [last];
      assert pos[..|pos| - 1] == pos' && pos[|pos| - 1] == last;
      assert BestOf(pos) == if last.score > pos'[BestOf(pos')].score then |pos| - 1 else BestOf(pos');
    }
  }

  lemma FirstMaxExtends(c: seq<Candidate>, k: int)
    requires |c| > 0 && IsFirstMax(c[..|c| - 1], k) && c[|c| - 1].score <= c[k].score
    ensures IsFirstMax(c, k)
  {
  }

  lemma NewFirstMax(c: seq<Candidate>, k: int)
    requires |c| > 0 && IsFirstMax(c[..|c| - 1], k) && c[|c| - 1].score > c[k].score
    ensures IsFirstMax(c, |c| - 1)
  {
  }

  lemma FirstPositive(c: seq<Candidate>)
    requires |c| > 0 && Select(c[..|c| - 1]).None? && c[|c| - 1].score > 0.0
    ensures IsFirstMax(c, |c| - 1)
  {
  }
}
