/**
 * The theta analyzer itself: option positions as objects whose greeks are
 * written in place, and the analyzer object that annotates them on
 * construction and accumulates the account totals when asked to analyze.
 */
module Analyzer {
  import opened Wrappers
  import opened ThetaSpec
  import opened Ranking

  /** One option position of the account. The contract fields never change;
      the analyzer writes the greeks. */
  class OptionPosition {
    const ticker: string
    const optionSymbol: string
    const strikePrice: real
    const shortQuantity: int
    var delta: Option<real>
    var theta: Option<real>
    var thetaDecayPercentage: Option<real>

    /** A position as loaded from the account, with whatever greeks it holds. */
    constructor (r: PositionRecord)
      ensures Record() == r
    {
      ticker, optionSymbol := r.ticker, r.optionSymbol;
      strikePrice, shortQuantity := r.strikePrice, r.shortQuantity;
      delta, theta, thetaDecayPercentage := r.delta, r.theta, r.thetaDecayPercentage;
    }

    /** The position's fields as a value. */
    function Record(): PositionRecord
      reads this
    {
      PositionRecord(ticker, optionSymbol, strikePrice, shortQuantity, delta, theta, thetaDecayPercentage)
    }

    method SetDelta(d: Option<real>)
      modifies this
      ensures Record() == old(Record()).(delta := d)
    {
      delta := d;
    }

    method SetTheta(t: Option<real>)
      modifies this
      ensures Record() == old(Record()).(theta := t)
    {
      theta := t;
    }
  }

  /** The values of a list of positions, in list order. */
  function Records(ps: seq<OptionPosition>): (r: seq<PositionRecord>)
    reads ps
    ensures |r| == |ps|
    ensures forall i | 0 <= i < |ps| :: r[i] == ps[i].Record()
  {
    if ps == [] then [] else Records(ps[..|ps| - 1]) + [ps[|ps| - 1].Record()]
  }

  /** What one call of Analyze reports: the account's decay percentage (the
      value it returns), the predicted yearly return, and the five highest and
      five lowest ranked positions. */
  datatype Report = Report(
    thetaDecayPercentage: real,
    predictedReturnPerYear: real,
    top: seq<Entry>,
    bottom: seq<Entry>)

  class ThetaAnalyzer {
    const options: seq<OptionPosition>
    const tickerToStockMap: StockMap
    /** The sum of theta * quantity * 100 over the positions with a theta. */
    var totalTheta: real
    /** The sum of strike * quantity * 100 over the positions with a theta. */
    var totalPrincipal: real
    /** The account's theta decay rate, as a percentage of principal. */
    var totalThetaDecayPercentage: real

    /** Stores the positions and annotates each one whose ticker is known
        with the delta and theta of its option symbol, and, for a non-zero
        theta, its decay percentage. */
    constructor (options: seq<OptionPosition>, tickerToStockMap: StockMap)
      requires forall p | p in options :: AnnotationDefined(p.Record(), tickerToStockMap)
      modifies options
      ensures this.options == options && this.tickerToStockMap == tickerToStockMap
      ensures totalTheta == 0.0 && totalPrincipal == 0.0 && totalThetaDecayPercentage == 0.0
      ensures forall i | 0 <= i < |options| ::
        options[i].Record() == Annotate(old(options[i].Record()), tickerToStockMap)
    {
      this.options := options;
      this.tickerToStockMap := tickerToStockMap;
      totalTheta := 0.0;
      totalPrincipal := 0.0;
      totalThetaDecayPercentage := 0.0;
      new;
      for i := 0 to |options|
        invariant totalTheta == 0.0 && totalPrincipal == 0.0 && totalThetaDecayPercentage == 0.0
        invariant forall j | 0 <= j < |options| ::
          options[j].Record() ==
            if options[j] in options[..i] then Annotate(old(options[j].Record()), tickerToStockMap)
            else old(options[j].Record())
      {
        var option := options[i];
        ghost var before := old(option.Record());
        assert AnnotationDefined(before, tickerToStockMap);
        AnnotateIdempotent(before, tickerToStockMap);
        assert options[..i + 1] == options[..i] + [option];
        if option.ticker !in tickerToStockMap {
          continue;
        }
        var chain := tickerToStockMap[option.ticker];
        var delta := chain.delta(option.optionSymbol);
        option.SetDelta(delta);
        var theta := chain.theta(option.optionSymbol);
        option.SetTheta(theta);
        if Truthy(option.theta) {
          option.thetaDecayPercentage := Some(DecayPercentage(option.theta.value, option.strikePrice));
        }
        assert option.Record() == Annotate(before, tickerToStockMap);
      }
    }

    /** The loop of lines 33-38: adds theta * quantity * 100 and
        strike * quantity * 100 of every position with a theta onto the
        totals, skipping the positions without one. */
    method Accumulate()
      modifies this
      ensures totalTheta == old(totalTheta) + ThetaSum(old(Records(options)))
      ensures totalPrincipal == old(totalPrincipal) + PrincipalSum(old(Records(options)))
      ensures totalThetaDecayPercentage == old(totalThetaDecayPercentage)
    {
      ghost var records := Records(options);
      for i := 0 to |options|
        invariant totalTheta == old(totalTheta) + ThetaSum(records[..i])
        invariant totalPrincipal == old(totalPrincipal) + PrincipalSum(records[..i])
        invariant totalThetaDecayPercentage == old(totalThetaDecayPercentage)
      {
        var option := options[i];
        assert records[..i + 1][..i] == records[..i];
        if option.theta.None? {
          continue;
        }
        var theta := option.theta.value * (option.shortQuantity as real) * 100.0;
        var principal := option.strikePrice * (option.shortQuantity as real) * 100.0;
        assert theta == ThetaContribution(records[i]) && principal == PrincipalContribution(records[i]);
        totalTheta := totalTheta + theta;
        totalPrincipal := totalPrincipal + principal;
      }
      assert records[..|options|] == records;
    }

    /** Adds every position with a theta onto the totals, takes the account's
        decay percentage and predicted yearly return, and ranks the positions
        by decay percentage. Raises on a zero principal, on a sort that
        compares a missing percentage, and on fewer than five ranked rows.
        The positions themselves are not written. */
    method Analyze() returns (r: Result<Report, Error>)
      modifies this
      ensures totalTheta == old(totalTheta) + ThetaSum(old(Records(options)))
      ensures totalPrincipal == old(totalPrincipal) + PrincipalSum(old(Records(options)))
      ensures totalPrincipal == 0.0 ==>
        r == Err(ZeroDivision) && totalThetaDecayPercentage == old(totalThetaDecayPercentage)
      ensures totalPrincipal != 0.0 ==>
        var ranking := Rank(Eligible(old(Records(options))));
        && totalThetaDecayPercentage == Ratio(totalTheta, totalPrincipal)
        && (r.Ok? <==> ranking.Ok?)
        && (r.Err? ==> r.error == ranking.error)
        && (r.Ok? ==> r.value == Report(totalThetaDecayPercentage,
                                         PredictedReturn(totalTheta, totalPrincipal),
                                         ranking.value.top, ranking.value.bottom))
    {
      var records := Records(options);
      Accumulate();
      if totalPrincipal == 0.0 {
        return Err(ZeroDivision);
      }
      totalThetaDecayPercentage := Ratio(totalTheta, totalPrincipal);
      var predictedReturnPerYear := PredictedReturn(totalTheta, totalPrincipal);
      var ranking := Eligible(records);
      var sorted := SortByDecay(ranking);
      if sorted.Err? {
        return Err(sorted.error);
      }
      var extremes := ReportExtremes(sorted.value);
      if extremes.Err? {
        return Err(extremes.error);
      }
      r := Ok(Report(totalThetaDecayPercentage, predictedReturnPerYear, extremes.value.top, extremes.value.bottom));
    }
  }

  /** Reads the five highest rows (indices 0 to 4) and the five lowest rows
      (indices -1 to -5) of the sorted ranking; a shorter ranking raises at
      the first index past its end. */
  method ReportExtremes(ranked: seq<Entry>) returns (r: Result<Extremes, Error>)
    ensures r == ExtremesOf(ranked)
  {
    var top: seq<Entry> := [];
    for i := 0 to 5
      invariant i <= |ranked|
      invariant top == ranked[..i]
    {
      if i >= |ranked| {
        return Err(IndexOutOfRange);
      }
      top := top + [ranked[i]];
    }
    var n := |ranked|;
    var bottom: seq<Entry> := [];
    for i := 1 to 6
      invariant |bottom| == i - 1
      invariant forall k | 0 <= k < i - 1 :: bottom[k] == ranked[n - 1 - k]
    {
      bottom := bottom + [ranked[n - i]];
    }
    assert bottom == [ranked[n - 1], ranked[n - 2], ranked[n - 3], ranked[n - 4], ranked[n - 5]];
    r := Ok(Extremes(top, bottom));
  }
}
