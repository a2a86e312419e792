/**
 * The pure specification of the theta analyzer: how one option position is
 * annotated with greeks, what each position adds to the account totals, and
 * the account-level ratio and predicted yearly return derived from them.
 */
module ThetaSpec {
  import opened Wrappers

  /** The ways an analysis can raise. */
  datatype Error =
    | ZeroDivision     // total principal is zero when the ratio is taken
    | Unorderable      // the sort compares a missing decay percentage
    | IndexOutOfRange  // fewer than five ranked entries are read

  /** Option-chain data of one underlying as fetched from the brokerage:
      for an option symbol, its current delta and theta when known. */
  datatype OptionChain = OptionChain(delta: string -> Option<real>, theta: string -> Option<real>)

  /** The ticker-to-stock lookup, each stock already resolved to its chain. */
  type StockMap = map<string, OptionChain>

  /** The fields of one option position, as a value. */
  datatype PositionRecord = PositionRecord(
    ticker: string,
    optionSymbol: string,
    strikePrice: real,
    shortQuantity: int,
    delta: Option<real>,
    theta: Option<real>,
    thetaDecayPercentage: Option<real>)

  /** Python truthiness of an optional number: `None` and zero are false. */
  predicate Truthy(x: Option<real>): (b: bool)
    ensures b <==> x != None && x != Some(0.0)
  {
    x.Some? && x.value != 0.0
  }

  /** Theta as a percentage of the strike price, negated so that a decaying
      option (negative theta) reports a positive percentage. */
  function DecayPercentage(theta: real, strikePrice: real): (r: real)
    requires strikePrice != 0.0
    ensures r * strikePrice == -theta * 100.0
  {
    -theta * 100.0 / strikePrice
  }

  /** Annotating p does not divide by a zero strike price. */
  predicate AnnotationDefined(p: PositionRecord, stocks: StockMap) {
    p.ticker in stocks && Truthy(stocks[p.ticker].theta(p.optionSymbol)) ==> p.strikePrice != 0.0
  }

  /** Two records describe the same contract (everything but the greeks agrees). */
  predicate SameContract(p: PositionRecord, q: PositionRecord) {
    p.ticker == q.ticker && p.optionSymbol == q.optionSymbol &&
    p.strikePrice == q.strikePrice && p.shortQuantity == q.shortQuantity
  }

  /** One step of the annotation pass: the position after it has been looked up. */
  function Annotate(p: PositionRecord, stocks: StockMap): (r: PositionRecord)
    requires AnnotationDefined(p, stocks)
    ensures SameContract(r, p)
  {
    if p.ticker !in stocks then p
    else
      var chain := stocks[p.ticker];
      var theta := chain.theta(p.optionSymbol);
      p.(delta := chain.delta(p.optionSymbol),
         theta := theta,
         thetaDecayPercentage :=
           if Truthy(theta) then Some(DecayPercentage(theta.value, p.strikePrice))
           else p.thetaDecayPercentage)
  }

  /** What annotation does to a position, case by case. */
  lemma AnnotateEffect(p: PositionRecord, stocks: StockMap)
    requires AnnotationDefined(p, stocks)
    ensures p.ticker !in stocks ==> Annotate(p, stocks) == p
    ensures p.ticker in stocks ==>
      var r := Annotate(p, stocks);
      var chain := stocks[p.ticker];
      && r.delta == chain.delta(p.optionSymbol)
      && r.theta == chain.theta(p.optionSymbol)
      && (Truthy(r.theta) ==> r.thetaDecayPercentage == Some(DecayPercentage(r.theta.value, p.strikePrice)))
      && (!Truthy(r.theta) ==> r.thetaDecayPercentage == p.thetaDecayPercentage)
  {
  }

  /** A position whose theta comes back as zero keeps whatever decay percentage
      it held before: the pass never computes one for it. */
  lemma ZeroThetaKeepsOldDecay(p: PositionRecord, stocks: StockMap)
    requires AnnotationDefined(p, stocks)
    requires Annotate(p, stocks).theta == Some(0.0)
    ensures Annotate(p, stocks).thetaDecayPercentage == p.thetaDecayPercentage
  {
  }

  /** Annotating twice gives the same record as annotating once. */
  lemma AnnotateIdempotent(p: PositionRecord, stocks: StockMap)
    requires AnnotationDefined(p, stocks)
    ensures AnnotationDefined(Annotate(p, stocks), stocks)
    ensures Annotate(Annotate(p, stocks), stocks) == Annotate(p, stocks)
  {
  }

  /** The seller's sign convention: a decaying option on a positive strike
      reports a positive decay percentage. */
  lemma DecayPositiveForDecayingOption(theta: real, strikePrice: real)
    requires theta < 0.0 && strikePrice > 0.0
    ensures DecayPercentage(theta, strikePrice) > 0.0
  {
    assert -theta * 100.0 > 0.0;
  }

  /** What one position adds to the total theta: nothing without a theta. */
  function ThetaContribution(p: PositionRecord): (r: real)
    ensures p.theta.None? ==> r == 0.0
  {
    if p.theta.None? then 0.0 else p.theta.value * (p.shortQuantity as real) * 100.0
  }

  /** What one position adds to the total principal: nothing without a theta. */
  function PrincipalContribution(p: PositionRecord): (r: real)
    ensures p.theta.None? ==> r == 0.0
  {
    if p.theta.None? then 0.0 else p.strikePrice * (p.shortQuantity as real) * 100.0
  }

  /** The signs of what one position adds, under either way of writing the
      quantity of a short position: a decaying option (negative theta) on a
      positive strike adds theta and principal of opposite signs, with the
      principal taking the sign of the quantity. */
  lemma ContributionSigns(p: PositionRecord)
    requires p.theta.Some? && p.theta.value < 0.0 && p.strikePrice > 0.0 && p.shortQuantity != 0
    ensures p.shortQuantity < 0 ==> ThetaContribution(p) > 0.0 && PrincipalContribution(p) < 0.0
    ensures p.shortQuantity > 0 ==> ThetaContribution(p) < 0.0 && PrincipalContribution(p) > 0.0
  {
    var q := p.shortQuantity as real;
    if q < 0.0 {
      assert p.theta.value * q > 0.0;
      assert p.strikePrice * q < 0.0;
    } else {
      assert p.theta.value * q < 0.0;
      assert p.strikePrice * q > 0.0;
    }
  }

  /** The sum of the theta contributions, accumulated front to back. */
  function ThetaSum(ps: seq<PositionRecord>): real {
    if ps == [] then 0.0 else ThetaSum(ps[..|ps| - 1]) + ThetaContribution(ps[|ps| - 1])
  }

  /** The sum of the principal contributions, accumulated front to back. */
  function PrincipalSum(ps: seq<PositionRecord>): real {
    if ps == [] then 0.0 else PrincipalSum(ps[..|ps| - 1]) + PrincipalContribution(ps[|ps| - 1])
  }

  /** The positions whose theta is known, in their original order. */
  function WithTheta(ps: seq<PositionRecord>): (r: seq<PositionRecord>)
    ensures |r| <= |ps|
    ensures forall i | 0 <= i < |r| :: r[i].theta.Some?
  {
    if ps == [] then []
    else WithTheta(ps[..|ps| - 1]) + (if ps[|ps| - 1].theta.Some? then [ps[|ps| - 1]] else [])
  }

  /** The positions kept are exactly those with a theta. */
  lemma {:induction false} WithThetaMembers(ps: seq<PositionRecord>, p: PositionRecord)
    ensures p in WithTheta(ps) <==> p in ps && p.theta.Some?
  {
    if ps != [] {
      var init, last := ps[..|ps| - 1], ps[|ps| - 1];
      WithThetaMembers(init, p);
      assert ps == init + [last];
    }
  }

  /** Sums split over concatenation. */
  lemma {:induction false} SumsAppend(a: seq<PositionRecord>, b: seq<PositionRecord>)
    ensures ThetaSum(a + b) == ThetaSum(a) + ThetaSum(b)
    ensures PrincipalSum(a + b) == PrincipalSum(a) + PrincipalSum(b)
    decreases |b|
  {
    if b == [] {
      assert a + b == a;
    } else {
      var b' := b[..|b| - 1];
      assert (a + b)[..|a + b| - 1] == a + b';
      assert (a + b)[|a + b| - 1] == b[|b| - 1];
      SumsAppend(a, b');
    }
  }

  /** Positions without a theta contribute nothing: the totals over all
      positions equal the totals over the positions that have a theta, and
      each of those adds exactly theta * quantity * 100 and strike * quantity * 100. */
  lemma {:induction false} OnlyPositionsWithThetaCount(ps: seq<PositionRecord>)
    ensures ThetaSum(ps) == ThetaSum(WithTheta(ps))
    ensures PrincipalSum(ps) == PrincipalSum(WithTheta(ps))
    ensures forall i | 0 <= i < |WithTheta(ps)| ::
      var p := WithTheta(ps)[i];
      ThetaContribution(p) == p.theta.value * (p.shortQuantity as real) * 100.0 &&
      PrincipalContribution(p) == p.strikePrice * (p.shortQuantity as real) * 100.0
  {
    if ps != [] {
      var init, last := ps[..|ps| - 1], ps[|ps| - 1];
      OnlyPositionsWithThetaCount(init);
      var tail := if last.theta.Some? then [last] else [];
      assert WithTheta(ps) == WithTheta(init) + tail;
      SumsAppend(WithTheta(init), tail);
      if last.theta.Some? {
        assert tail[..0] == [];
      }
      assert ThetaSum(tail) == ThetaContribution(last);
      assert PrincipalSum(tail) == PrincipalContribution(last);
    }
  }

  /** With no position holding a theta, the principal stays zero, so the
      ratio at line 39 would divide by zero. */
  lemma {:induction false} NoThetaMeansZeroPrincipal(ps: seq<PositionRecord>)
    requires WithTheta(ps) == []
    ensures ThetaSum(ps) == 0.0 && PrincipalSum(ps) == 0.0
  {
    OnlyPositionsWithThetaCount(ps);
  }

  /** The account's theta decay percentage: total theta as a percentage of
      total principal, negated. It is the per-position formula of the
      annotation pass applied to the account totals. */
  function Ratio(totalTheta: real, totalPrincipal: real): (r: real)
    requires totalPrincipal != 0.0
    ensures r * totalPrincipal == -totalTheta * 100.0
  {
    DecayPercentage(totalTheta, totalPrincipal)
  }

  /** The return predicted for a year of 250 trading days. It does not
      depend on the principal: it is 250 trading days of the account's daily
      theta, with the sign flipped. */
  function PredictedReturn(totalTheta: real, totalPrincipal: real): (r: real)
    requires totalPrincipal != 0.0
    ensures r == -250.0 * totalTheta
  {
    var ratio := Ratio(totalTheta, totalPrincipal);
    calc {
      ratio * 250.0 * totalPrincipal / 100.0;
      (ratio * totalPrincipal) * 250.0 / 100.0;
      -totalTheta * 100.0 * 250.0 / 100.0;
    }
    ratio * 250.0 * totalPrincipal / 100.0
  }

  /** With a positive principal the ratio has the sign opposite to total theta. */
  lemma RatioSignOppositeToTheta(totalTheta: real, totalPrincipal: real)
    requires totalPrincipal > 0.0
    ensures totalTheta > 0.0 ==> Ratio(totalTheta, totalPrincipal) < 0.0
    ensures totalTheta < 0.0 ==> Ratio(totalTheta, totalPrincipal) > 0.0
    ensures totalTheta == 0.0 ==> Ratio(totalTheta, totalPrincipal) == 0.0
  {
  }

  /** Running the analysis a second time over unchanged positions, starting
      from the totals the first run left, doubles both totals and the
      predicted return but leaves the ratio as it was. */
  lemma SecondAnalysisKeepsRatio(ps: seq<PositionRecord>)
    requires PrincipalSum(ps) != 0.0
    ensures var t1, p1 := 0.0 + ThetaSum(ps), 0.0 + PrincipalSum(ps);
      var t2, p2 := t1 + ThetaSum(ps), p1 + PrincipalSum(ps);
      && t2 == 2.0 * t1 && p2 == 2.0 * p1
      && Ratio(t2, p2) == Ratio(t1, p1)
      && PredictedReturn(t2, p2) == 2.0 * PredictedReturn(t1, p1)
  {
    var t, p := ThetaSum(ps), PrincipalSum(ps);
    var r := Ratio(t, p);
    calc {
      Ratio(t + t, p + p) * (p + p);
      -(t + t) * 100.0;
      2.0 * (-t * 100.0);
      2.0 * (r * p);
      r * (p + p);
    }
  }

  /** Three positions short one contract each, with strikes 100, 200 and 50
      and thetas -0.05, -0.10 and -0.02. Written with quantity -1, total
      theta is 17 and total principal -35000; written with quantity +1, total
      theta is -17 and total principal 35000. Either way the account ratio is
      17/350. */
  lemma ThreeShortContracts()
    ensures var ps := ThreeContracts(-1);
      && ThetaSum(ps) == 17.0
      && PrincipalSum(ps) == -35000.0
      && Ratio(ThetaSum(ps), PrincipalSum(ps)) == 17.0 / 350.0
    ensures var ps := ThreeContracts(1);
      && ThetaSum(ps) == -17.0
      && PrincipalSum(ps) == 35000.0
      && Ratio(ThetaSum(ps), PrincipalSum(ps)) == 17.0 / 350.0
  {
    var neg, pos := ThreeContracts(-1), ThreeContracts(1);
    SumsOfThree(neg);
    SumsOfThree(pos);
    assert ThetaSum(neg) == 5.0 + 10.0 + 2.0;
    assert PrincipalSum(neg) == -10000.0 - 20000.0 - 5000.0;
    assert ThetaSum(pos) == -5.0 - 10.0 - 2.0;
    assert PrincipalSum(pos) == 10000.0 + 20000.0 + 5000.0;
  }

  /** The totals of three positions are the sums of their three contributions. */
  lemma SumsOfThree(ps: seq<PositionRecord>)
    requires |ps| == 3
    ensures ThetaSum(ps) == ThetaContribution(ps[0]) + ThetaContribution(ps[1]) + ThetaContribution(ps[2])
    ensures PrincipalSum(ps) ==
      PrincipalContribution(ps[0]) + PrincipalContribution(ps[1]) + PrincipalContribution(ps[2])
  {
    var one, two := ps[..1], ps[..2];
    assert one[..0] == [] && two[..1] == one && two[1] == ps[1];
    assert ThetaSum(one) == ThetaContribution(ps[0]);
    assert PrincipalSum(one) == PrincipalContribution(ps[0]);
    assert ThetaSum(two) == ThetaSum(one) + ThetaContribution(ps[1]);
    assert PrincipalSum(two) == PrincipalSum(one) + PrincipalContribution(ps[1]);
    assert ThetaSum(ps) == ThetaSum(two) + ThetaContribution(ps[2]);
    assert PrincipalSum(ps) == PrincipalSum(two) + PrincipalContribution(ps[2]);
  }

  /** The three positions of the scenario above, each with quantity q. */
  function ThreeContracts(q: int): seq<PositionRecord> {
    [PositionRecord("A", "A1", 100.0, q, None, Some(-0.05), None),
     PositionRecord("B", "B1", 200.0, q, None, Some(-0.10), None),
     PositionRecord("C", "C1", 50.0, q, None, Some(-0.02), None)]
  }
}
