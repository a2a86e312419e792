/**
 * The ranking step of the analysis: the (symbol, decay percentage) pairs of
 * the positions that have a theta, sorted by decay percentage from highest to
 * lowest with ties kept in their original order, and the five highest and
 * five lowest entries read from the sorted list.
 */
module Ranking {
  import opened Wrappers
  import opened ThetaSpec

  /** One row of the ranking: an option symbol and its decay percentage. */
  datatype Entry = Entry(optionSymbol: string, thetaDecayPercentage: Option<real>)

  /** What the report reads from the sorted ranking. */
  datatype Extremes = Extremes(top: seq<Entry>, bottom: seq<Entry>)

  function EntryOf(p: PositionRecord): Entry {
    Entry(p.optionSymbol, p.thetaDecayPercentage)
  }

  /** The ranking rows of exactly the positions whose theta is known, in
      position order. */
  function Eligible(ps: seq<PositionRecord>): (r: seq<Entry>)
    ensures |r| == |WithTheta(ps)|
    ensures forall i | 0 <= i < |r| :: r[i] == EntryOf(WithTheta(ps)[i])
  {
    if ps == [] then []
    else
      var last := ps[|ps| - 1];
      Eligible(ps[..|ps| - 1]) + (if last.theta.Some? then [EntryOf(last)] else [])
  }

  /** Every row carries a decay percentage. */
  predicate Keyed(s: seq<Entry>) {
    forall e | e in s :: e.thetaDecayPercentage.Some?
  }

  /** Python can sort the rows: with two or more rows every row is compared,
      and comparing a missing percentage raises. */
  predicate Sortable(s: seq<Entry>) {
    |s| <= 1 || Keyed(s)
  }

  function Key(e: Entry): real
    requires e.thetaDecayPercentage.Some?
  {
    e.thetaDecayPercentage.value
  }

  /** The rows are ordered from the highest decay percentage to the lowest. */
  predicate Descending(s: seq<Entry>) {
    Keyed(s) && forall i, j | 0 <= i < j < |s| :: Key(s[i]) >= Key(s[j])
  }

  /** The rows of s whose decay percentage is k, in their order in s. */
  function WithDecay(s: seq<Entry>, k: Option<real>): seq<Entry> {
    if s == [] then []
    else (if s[0].thetaDecayPercentage == k then [s[0]] else []) + WithDecay(s[1..], k)
  }

  lemma KeyedTail(s: seq<Entry>)
    requires s != [] && Keyed(s)
    ensures Keyed(s[1..])
  {
    forall x | x in s[1..] ensures x.thetaDecayPercentage.Some? {
      assert x in s;
    }
  }

  lemma KeyedPermutation(a: seq<Entry>, b: seq<Entry>)
    requires Keyed(a) && multiset(a) == multiset(b)
    ensures Keyed(b)
  {
    forall x | x in b ensures x.thetaDecayPercentage.Some? {
      assert x in multiset(b);
    }
  }

  /** Inserts e, which stood before every row of t, ahead of the first row
      whose key does not exceed its own. */
  function Insert(e: Entry, t: seq<Entry>): (r: seq<Entry>)
    requires t == [] || (e.thetaDecayPercentage.Some? && Keyed(t))
    ensures multiset(r) == multiset(t) + multiset{e}
  {
    if t == [] || Key(t[0]) <= Key(e) then [e] + t
    else
      KeyedTail(t);
      assert t == [t[0]] + t[1..];
      [t[0]] + Insert(e, t[1..])
  }

  /** The stable descending sort of the rows (insertion sort). */
  function SortDesc(s: seq<Entry>): (r: seq<Entry>)
    requires Sortable(s)
    ensures multiset(r) == multiset(s)
    ensures |r| == |s|
  {
    if s == [] then []
    else
      assert s == [s[0]] + s[1..];
      var rest := SortDesc(s[1..]);
      assert |s[1..]| == 0 ==> rest == [];
      if |s| >= 2 then
        KeyedTail(s);
        KeyedPermutation(s[1..], rest);
        Insert(s[0], rest)
      else
        Insert(s[0], rest)
  }

  /** `list.sort(key=decay, reverse=True)`: raises when it would compare a
      missing percentage. */
  function SortByDecay(s: seq<Entry>): (r: Result<seq<Entry>, Error>)
    ensures r.Err? <==> |s| >= 2 && exists e | e in s :: e.thetaDecayPercentage.None?
    ensures r.Err? ==> r.error == Unorderable
    ensures r.Ok? ==> multiset(r.value) == multiset(s)
  {
    if Sortable(s) then Ok(SortDesc(s)) else Err(Unorderable)
  }

  /** Reading indices 0 to 4 and -1 to -5 of the sorted rows. */
  function ExtremesOf(ranked: seq<Entry>): (r: Result<Extremes, Error>)
    ensures r.Err? <==> |ranked| < 5
    ensures r.Err? ==> r.error == IndexOutOfRange
    ensures r.Ok? ==>
      && r.value.top == ranked[..5]
      && |r.value.bottom| == 5
      && forall k | 0 <= k < 5 :: r.value.bottom[k] == ranked[|ranked| - 1 - k]
  {
    if |ranked| < 5 then Err(IndexOutOfRange)
    else
      var n := |ranked|;
      Ok(Extremes(ranked[..5], [ranked[n - 1], ranked[n - 2], ranked[n - 3], ranked[n - 4], ranked[n - 5]]))
  }

  /** The whole ranking step over the eligible rows: the sort raises first,
      then the index reads. */
  function Rank(entries: seq<Entry>): (r: Result<Extremes, Error>)
    ensures r.Err? <==> !Sortable(entries) || |entries| < 5
    ensures r.Err? ==> r.error == if !Sortable(entries) then Unorderable else IndexOutOfRange
  {
    match SortByDecay(entries)
    case Err(e) => Err(e)
    case Ok(sorted) =>
      assert |sorted| == |entries| by {
        assert |multiset(sorted)| == |multiset(entries)|;
      }
      ExtremesOf(sorted)
  }

  /** A keyed row at least as large as every row of a descending sequence
      can be put in front of it. */
  lemma DescendingCons(x: Entry, rest: seq<Entry>)
    requires x.thetaDecayPercentage.Some? && Descending(rest)
    requires forall y | y in rest :: Key(y) <= Key(x)
    ensures Descending([x] + rest)
  {
    var r := [x] + rest;
    forall i, j | 0 <= i < j < |r| ensures Key(r[i]) >= Key(r[j]) {
      assert r[j] == rest[j - 1];
      if i > 0 {
        assert r[i] == rest[i - 1];
      }
    }
  }

  lemma {:induction false} InsertDescending(e: Entry, t: seq<Entry>)
    requires e.thetaDecayPercentage.Some? && Descending(t)
    ensures Descending(Insert(e, t))
  {
    if t == [] || Key(t[0]) <= Key(e) {
      DescendingCons(e, t);
    } else {
      var rest := Insert(e, t[1..]);
      DescendingTail(t);
      InsertDescending(e, t[1..]);
      forall y | y in rest ensures Key(y) <= Key(t[0]) {
        assert y in multiset(rest);
      }
      DescendingCons(t[0], rest);
    }
  }

  /** The sort orders the rows from the highest decay percentage to the lowest. */
  lemma {:induction false} SortDescDescending(s: seq<Entry>)
    requires Keyed(s)
    ensures Descending(SortDesc(s))
  {
    if s != [] {
      KeyedTail(s);
      SortDescDescending(s[1..]);
      InsertDescending(s[0], SortDesc(s[1..]));
    }
  }

  lemma {:induction false} InsertStable(e: Entry, t: seq<Entry>, k: Option<real>)
    requires t == [] || (e.thetaDecayPercentage.Some? && Keyed(t))
    ensures WithDecay(Insert(e, t), k) ==
      (if e.thetaDecayPercentage == k then [e] else []) + WithDecay(t, k)
  {
    if t == [] || Key(t[0]) <= Key(e) {
      WithDecayCons(e, t, k);
    } else {
      var head := if e.thetaDecayPercentage == k then [e] else [];
      var mid := if t[0].thetaDecayPercentage == k then [t[0]] else [];
      var later := WithDecay(t[1..], k);
      KeyedTail(t);
      var rest := Insert(e, t[1..]);
      calc {
        WithDecay(Insert(e, t), k);
        WithDecay([t[0]] + rest, k);
        { WithDecayCons(t[0], rest, k); }
        mid + WithDecay(rest, k);
        { InsertStable(e, t[1..], k); }
        mid + (head + later);
        { if head != [] { assert mid == []; } }
        head + (mid + later);
        { WithDecayCons(t[0], t[1..], k); assert t == [t[0]] + t[1..]; }
        head + WithDecay(t, k);
      }
    }
  }

  /** The rows of one decay percentage in a sequence with a given first row. */
  lemma WithDecayCons(x: Entry, s: seq<Entry>, k: Option<real>)
    ensures WithDecay([x] + s, k) == (if x.thetaDecayPercentage == k then [x] else []) + WithDecay(s, k)
  {
    assert ([x] + s)[0] == x;
    assert ([x] + s)[1..] == s;
  }

  /** The sort is stable: the rows sharing any one decay percentage keep
      their original relative order. */
  lemma {:induction false} SortDescStable(s: seq<Entry>, k: Option<real>)
    requires Sortable(s)
    ensures WithDecay(SortDesc(s), k) == WithDecay(s, k)
  {
    if s != [] {
      var rest := SortDesc(s[1..]);
      assert |s[1..]| == 0 ==> rest == [];
      if |s| >= 2 {
        KeyedTail(s);
        KeyedPermutation(s[1..], rest);
      }
      SortDescStable(s[1..], k);
      InsertStable(s[0], rest, k);
    }
  }

  lemma {:induction false} WithDecayMembers(s: seq<Entry>, k: Option<real>, x: Entry)
    ensures x in WithDecay(s, k) <==> x in s && x.thetaDecayPercentage == k
  {
    if s != [] {
      WithDecayMembers(s[1..], k, x);
      assert s == [s[0]] + s[1..];
    }
  }

  lemma DescendingTail(s: seq<Entry>)
    requires s != [] && Descending(s)
    ensures Descending(s[1..])
  {
    KeyedTail(s);
    forall i, j | 0 <= i < j < |s| - 1 ensures Key(s[1..][i]) >= Key(s[1..][j]) {
      assert s[1..][i] == s[i + 1] && s[1..][j] == s[j + 1];
    }
  }

  lemma HeadHasRowsOfItsKey(s: seq<Entry>)
    ensures s != [] ==> WithDecay(s, s[0].thetaDecayPercentage) != []
  {
  }

  /** The first row of a descending sequence carries its largest key. */
  lemma HeadIsLargest(r: seq<Entry>, e: Entry)
    requires Descending(r) && e in r
    ensures Key(e) <= Key(r[0])
  {
  }

  /** Two descending sequences that agree on the rows of every decay
      percentage are the same sequence. */
  lemma {:induction false} DescendingDeterminedByKeys(r: seq<Entry>, t: seq<Entry>)
    requires Descending(r) && Descending(t)
    requires forall k :: WithDecay(r, k) == WithDecay(t, k)
    ensures r == t
  {
    if r == [] || t == [] {
      HeadHasRowsOfItsKey(r);
      HeadHasRowsOfItsKey(t);
    } else {
      var a, b := r[0].thetaDecayPercentage, t[0].thetaDecayPercentage;
      assert WithDecay(t, b)[0] == t[0];
      assert t[0] in WithDecay(r, b);
      WithDecayMembers(r, b, t[0]);
      assert WithDecay(r, a)[0] == r[0];
      assert r[0] in WithDecay(t, a);
      WithDecayMembers(t, a, r[0]);
      HeadIsLargest(r, t[0]);
      HeadIsLargest(t, r[0]);
      assert a == b;
      assert r[0] == t[0];
      forall k ensures WithDecay(r[1..], k) == WithDecay(t[1..], k) {
        var h := if r[0].thetaDecayPercentage == k then [r[0]] else [];
        assert WithDecay(r, k) == h + WithDecay(r[1..], k);
        assert WithDecay(t, k) == h + WithDecay(t[1..], k);
        assert WithDecay(r[1..], k) == WithDecay(r, k)[|h|..];
        assert WithDecay(t[1..], k) == WithDecay(t, k)[|h|..];
      }
      DescendingTail(r);
      DescendingTail(t);
      DescendingDeterminedByKeys(r[1..], t[1..]);
      assert r == [r[0]] + r[1..];
      assert t == [t[0]] + t[1..];
    }
  }

  /** The stable descending sort is the only arrangement of the rows that is
      both descending and stable: any other such sequence equals it. */
  lemma StableDescendingIsSortDesc(s: seq<Entry>, r: seq<Entry>)
    requires Keyed(s) && Descending(r)
    requires forall k :: WithDecay(r, k) == WithDecay(s, k)
    ensures r == SortDesc(s)
  {
    SortDescDescending(s);
    forall k ensures WithDecay(r, k) == WithDecay(SortDesc(s), k) {
      SortDescStable(s, k);
    }
    DescendingDeterminedByKeys(r, SortDesc(s));
  }

  /** The ranking at line 47 holds exactly the eligible rows, ordered from the
      highest decay percentage to the lowest, ties in their original order. */
  lemma RankingIsStableDescendingPermutation(ps: seq<PositionRecord>)
    requires SortByDecay(Eligible(ps)).Ok?
    ensures var sorted := SortByDecay(Eligible(ps)).value;
      && multiset(sorted) == multiset(Eligible(ps))
      && (Keyed(Eligible(ps)) ==> Descending(sorted))
      && forall k :: WithDecay(sorted, k) == WithDecay(Eligible(ps), k)
  {
    var s := Eligible(ps);
    if Keyed(s) {
      SortDescDescending(s);
    }
    forall k ensures WithDecay(SortDesc(s), k) == WithDecay(s, k) {
      SortDescStable(s, k);
    }
  }

  /** With fewer than five rows the report fails: reading index 0 to 4 of a
      shorter list raises, unless the sort has raised first. */
  lemma RankingFailsBelowFive(entries: seq<Entry>)
    requires |entries| < 5
    ensures Rank(entries).Err?
    ensures Rank(entries).error ==
      if |entries| >= 2 && !Keyed(entries) then Unorderable else IndexOutOfRange
  {
    if Sortable(entries) {
      assert |SortDesc(entries)| == |entries| by {
        assert |multiset(SortDesc(entries))| == |multiset(entries)|;
      }
    }
  }

  /** A row of a descending sequence that is not among its first m rows is
      at most the m-th row. */
  lemma PrefixHoldsLargest(sorted: seq<Entry>, m: nat, e: Entry)
    requires Descending(sorted) && 0 < m <= |sorted|
    requires e in sorted && e !in sorted[..m]
    ensures Key(e) <= Key(sorted[m - 1])
  {
    var j :| 0 <= j < |sorted| && sorted[j] == e;
  }

  /** A row of a descending sequence that is not among its last m rows is at
      least the m-th row from the end. */
  lemma SuffixHoldsSmallest(sorted: seq<Entry>, m: nat, e: Entry)
    requires Descending(sorted) && 0 < m <= |sorted|
    requires e in sorted && e !in sorted[|sorted| - m..]
    ensures Key(e) >= Key(sorted[|sorted| - m])
  {
    var j :| 0 <= j < |sorted| && sorted[j] == e;
  }

  /** What the report reads from a descending ranking of five or more rows. */
  lemma ExtremesOfDescending(sorted: seq<Entry>)
    requires |sorted| >= 5 && Descending(sorted)
    ensures ExtremesOf(sorted).Ok?
    ensures var x := ExtremesOf(sorted).value;
      && Descending(x.top)
      && Keyed(x.bottom)
      && (forall i, j | 0 <= i < j < 5 :: Key(x.bottom[i]) <= Key(x.bottom[j]))
      && (forall e | e in sorted && e !in x.top :: Key(e) <= Key(x.top[4]))
      && (forall e | e in sorted && e !in x.bottom :: Key(e) >= Key(x.bottom[4]))
  {
    TopOfDescending(sorted);
    BottomOfDescending(sorted);
  }

  /** The top five of a descending ranking descend, and no other row is above
      the fifth of them. */
  lemma TopOfDescending(sorted: seq<Entry>)
    requires |sorted| >= 5 && Descending(sorted)
    ensures ExtremesOf(sorted).Ok?
    ensures var top := ExtremesOf(sorted).value.top;
      && Descending(top)
      && (forall e | e in sorted && e !in top :: Key(e) <= Key(top[4]))
  {
    var top := ExtremesOf(sorted).value.top;
    assert top == sorted[..5];
    forall e | e in sorted && e !in top ensures Key(e) <= Key(top[4]) {
      PrefixHoldsLargest(sorted, 5, e);
    }
    assert Keyed(top) by {
      forall e | e in top ensures e.thetaDecayPercentage.Some? {
        assert e in sorted;
      }
    }
  }

  /** The bottom five of a descending ranking ascend, and no other row is
      below the fifth of them. */
  lemma BottomOfDescending(sorted: seq<Entry>)
    requires |sorted| >= 5 && Descending(sorted)
    ensures ExtremesOf(sorted).Ok?
    ensures var bottom := ExtremesOf(sorted).value.bottom;
      && Keyed(bottom)
      && (forall i, j | 0 <= i < j < 5 :: Key(bottom[i]) <= Key(bottom[j]))
      && (forall e | e in sorted && e !in bottom :: Key(e) >= Key(bottom[4]))
  {
    var n := |sorted|;
    var bottom := ExtremesOf(sorted).value.bottom;
    assert bottom == [sorted[n - 1], sorted[n - 2], sorted[n - 3], sorted[n - 4], sorted[n - 5]];
    assert sorted[n - 5..] == [sorted[n - 5], sorted[n - 4], sorted[n - 3], sorted[n - 2], sorted[n - 1]];
    forall e | e in sorted && e !in bottom ensures Key(e) >= Key(bottom[4]) {
      SuffixHoldsSmallest(sorted, 5, e);
    }
    assert Keyed(bottom) by {
      forall e | e in bottom ensures e.thetaDecayPercentage.Some? {
        assert e in sorted;
      }
    }
  }

  /** With five or more rows that all carry a percentage, the report
      succeeds; the top five are the five highest percentages in descending
      order, and the bottom five the five lowest, read from the lowest up. */
  lemma RankingExtremes(entries: seq<Entry>)
    requires |entries| >= 5 && Keyed(entries)
    ensures Rank(entries).Ok?
    ensures var x := Rank(entries).value;
      && x.top == SortDesc(entries)[..5]
      && (var s, n := SortDesc(entries), |entries|;
          x.bottom == [s[n - 1], s[n - 2], s[n - 3], s[n - 4], s[n - 5]])
      && Descending(x.top)
      && Keyed(x.bottom)
      && (forall i, j | 0 <= i < j < 5 :: Key(x.bottom[i]) <= Key(x.bottom[j]))
      && (forall e | e in entries && e !in x.top :: Key(e) <= Key(x.top[4]))
      && (forall e | e in entries && e !in x.bottom :: Key(e) >= Key(x.bottom[4]))
  {
    RankingTop(entries);
    RankingBottom(entries);
  }

  /** The top five of the report are the first five sorted rows, descending,
      and no other row of the input is above the fifth of them. */
  lemma RankingTop(entries: seq<Entry>)
    requires |entries| >= 5 && Keyed(entries)
    ensures Rank(entries).Ok?
    ensures var top := Rank(entries).value.top;
      && top == SortDesc(entries)[..5]
      && Descending(top)
      && (forall e | e in entries && e !in top :: Key(e) <= Key(top[4]))
  {
    var sorted := SortDesc(entries);
    SortDescDescending(entries);
    assert Rank(entries) == ExtremesOf(sorted);
    TopOfDescending(sorted);
    var top := ExtremesOf(sorted).value.top;
    forall e | e in entries && e !in top ensures Key(e) <= Key(top[4]) {
      SortedHoldsEntry(entries, e);
    }
  }

  /** The bottom five of the report are the last five sorted rows, read from
      the last backwards, ascending, and no other row of the input is below
      the fifth of them. */
  lemma RankingBottom(entries: seq<Entry>)
    requires |entries| >= 5 && Keyed(entries)
    ensures Rank(entries).Ok?
    ensures var bottom, s, n := Rank(entries).value.bottom, SortDesc(entries), |entries|;
      && bottom == [s[n - 1], s[n - 2], s[n - 3], s[n - 4], s[n - 5]]
      && Keyed(bottom)
      && (forall i, j | 0 <= i < j < 5 :: Key(bottom[i]) <= Key(bottom[j]))
      && (forall e | e in entries && e !in bottom :: Key(e) >= Key(bottom[4]))
  {
    var sorted := SortDesc(entries);
    SortDescDescending(entries);
    assert Rank(entries) == ExtremesOf(sorted);
    BottomOfPermutation(entries, sorted);
  }

  /** The bottom five read from any descending rearrangement of the rows. */
  lemma BottomOfPermutation(entries: seq<Entry>, sorted: seq<Entry>)
    requires |sorted| >= 5 && Descending(sorted) && multiset(sorted) == multiset(entries)
    requires Keyed(entries)
    ensures |entries| == |sorted|
    ensures ExtremesOf(sorted).Ok?
    ensures var bottom, s, n := ExtremesOf(sorted).value.bottom, sorted, |sorted|;
      && bottom == [s[n - 1], s[n - 2], s[n - 3], s[n - 4], s[n - 5]]
      && Keyed(bottom)
      && (forall i, j | 0 <= i < j < 5 :: Key(bottom[i]) <= Key(bottom[j]))
      && (forall e | e in entries && e !in bottom :: Key(e) >= Key(bottom[4]))
  {
    assert |multiset(sorted)| == |multiset(entries)|;
    BottomOfDescending(sorted);
    var bottom := ExtremesOf(sorted).value.bottom;
    forall e | e in entries && e !in bottom ensures Key(e) >= Key(bottom[4]) {
      assert e in multiset(sorted);
    }
  }

  /** Every row of the input is a row of the sorted output. */
  lemma SortedHoldsEntry(entries: seq<Entry>, e: Entry)
    requires Sortable(entries) && e in entries
    ensures e in SortDesc(entries)
  {
    assert e in multiset(SortDesc(entries));
  }
}
