/**
 * The dashboard's module-level data pipeline: load and clean one close series per asset of
 * the fixed universe, outer-join them in universe order into one price table, name its
 * columns after the assets, then derive the simple returns and the cumulative returns.
 */
module Dashboard {
  import opened Wrappers
  import opened LoadClean
  import opened Tables
  import opened Transforms
  import opened Masks

  /** The assets shown, in column order. */
  const Universe: seq<string> := ["BTC", "ETH", "SOL", "ALGO", "XRP", "HBAR", "BONK", "LINK"]

  /** The universe names eight distinct assets, so selecting by name is unambiguous. */
  lemma UniverseDistinct()
    ensures |Universe| == 8
    ensures forall j, k :: 0 <= j < k < |Universe| ==> Universe[j] != Universe[k]
  {
  }

  /** Renaming the columns keeps the join's alignment: only their number matters. */
  lemma AlignedRenamed(t: Table, ss: seq<seq<Record>>, names: seq<string>)
    requires Aligned(t, ss) && |names| == |t.columns|
    ensures Aligned(t.(columns := names), ss)
  {
  }

  /** `cleaned[k]` is what `load_data` makes of `raw[k]` with its default flags. */
  predicate Loaded(raw: seq<seq<Record>>, cleaned: seq<seq<Record>>) {
    && |cleaned| <= |raw|
    && forall k :: 0 <= k < |cleaned| ==>
      SortedByTs(cleaned[k]) && multiset(cleaned[k]) == multiset(Cleaned(raw[k], true, true))
  }

  predicate AllStrict(ss: seq<seq<Record>>) {
    forall k :: 0 <= k < |ss| ==> StrictTs(ss[k])
  }

  /** What the loop keeps: a table of the series joined so far, each without repeated stamps. */
  ghost predicate Joined(df: Table, cleaned: seq<seq<Record>>) {
    && |cleaned| >= 1
    && |df.columns| == |cleaned|
    && (if |cleaned| == 1 then df == SeriesTable(cleaned[0], "close")
        else AllStrict(cleaned) && Aligned(df, cleaned))
  }

  lemma LoadedExtend(raw: seq<seq<Record>>, cleaned: seq<seq<Record>>, next: seq<Record>)
    requires Loaded(raw, cleaned) && |cleaned| < |raw|
    requires SortedByTs(next) && multiset(next) == multiset(Cleaned(raw[|cleaned|], true, true))
    ensures Loaded(raw, cleaned + [next])
  {
  }

  /** One more outer join keeps the loop's invariant. */
  lemma JoinedExtend(df: Table, cleaned: seq<seq<Record>>, next: seq<Record>)
    requires Joined(df, cleaned) && StrictTs(cleaned[0]) && StrictTs(next)
    ensures Shaped(df) && StrictlyIncreasing(df.index)
    ensures Joined(Concat(df, next, "close"), cleaned + [next])
  {
    if |cleaned| == 1 {
      SeriesTableAligned(cleaned[0], "close");
      assert [cleaned[0]] == cleaned;
    }
    ConcatAligned(df, cleaned, next, "close");
  }

  /**
   * Lines 12-17 of the dashboard: `load_data` on every asset with its default flags (Paris time,
   * hourly), `pd.concat([df, new_df], axis=1)` after each load, `df.columns = tbNames`. The
   * outer join refuses a series whose timestamps repeat, so the loop stops with an error at
   * the first join that meets one. `raw[k]` holds the rows of the table of asset `Universe[k]`.
   */
  method AssembleTable(raw: seq<seq<Record>>) returns (r: Result<Table, Error>, cleaned: seq<seq<Record>>)
    requires |raw| == |Universe|
    ensures 1 <= |cleaned| && Loaded(raw, cleaned)
    ensures r.Ok? <==> |cleaned| == |raw| && AllStrict(cleaned)
    ensures r.Err? ==> r.error == DuplicateTimestamps && !AllStrict(cleaned)
    ensures r.Ok? ==> r.value.columns == Universe && Aligned(r.value, cleaned)
    ensures r.Ok? ==> UniqueColumns(r.value)
  {
    var first := LoadData(raw[0], true, true);
    cleaned := [first];
    var df := SeriesTable(first, "close");
    var k := 1;
    while k < |raw|
      invariant 1 <= k <= |raw| && |cleaned| == k
      invariant Loaded(raw, cleaned) && Joined(df, cleaned)
    {
      var next := LoadData(raw[k], true, true);
      LoadedExtend(raw, cleaned, next);
      if !StrictTs(cleaned[0]) || !StrictTs(next) {
        cleaned := cleaned + [next];
        return Err(DuplicateTimestamps), cleaned;
      }
      JoinedExtend(df, cleaned, next);
      df := Concat(df, next, "close");
      cleaned := cleaned + [next];
      k := k + 1;
    }
    AlignedRenamed(df, cleaned, Universe);
    UniverseDistinct();
    df := df.(columns := Universe);
    r := Ok(df);
  }

  /**
   * Lines 20-22 of the dashboard: `rets = df.pct_change().dropna()`, then
   * `cumrets = (1 + df.pct_change()).cumprod()` and `cumrets.iloc[0] = 1.`, which fails on a
   * table with no rows.
   */
  method ComputeReturns(df: Table, pad: bool) returns (rets: Table, cumrets: Result<Table, Error>)
    requires Shaped(df)
    ensures rets == SimpleReturns(df, pad)
    ensures Shaped(rets) && rets.columns == df.columns && NoGaps(rets.rows)
    ensures cumrets.Err? <==> |df.rows| == 0
    ensures cumrets.Err? ==> cumrets.error == EmptyTable
    ensures cumrets.Ok? ==> cumrets.value == CumulativeReturns(df, pad)
    ensures cumrets.Ok? ==> cumrets.value.rows[0] == Ones(|df.columns|)
  {
    rets := SimpleReturns(df, pad);
    var w := |df.columns|;
    var cp := CumProd(w, PlusOne(PctChange(df, pad).rows));
    if |cp| == 0 {
      return rets, Err(EmptyTable);
    }
    cp := cp[0 := Ones(w)];
    cumrets := Ok(df.(rows := cp));
  }

  // ---------------------------------------------------------------- worked examples

  /** A half-hour record is dropped by the hourly filter and kept without it. */
  lemma HalfHourRecordDropped()
    ensures Cleaned([Record(570, 1.5)], true, true) == []
    ensures Cleaned([Record(570, 1.5)], true, false) == [Record(630, 1.5)]
  {
    var s := [Record(570, 1.5)];
    CleanedLength(s, true);
    assert s[..0] == [];
    assert Minute(570) == 30;
    assert Shifted(s)[0] == Record(630, 1.5);
  }

  /** Two assets whose prices move together by +10% and then -10%. */
  function ExamplePrices(): (t: Table)
    ensures Shaped(t) && NoGaps(t.rows) && NonZero(t.rows)
  {
    Table(["A", "B"], [0, 60, 120],
      [[Some(100.0), Some(10.0)], [Some(110.0), Some(11.0)], [Some(99.0), Some(9.9)]])
  }

  /** Their cumulative returns: 1.0, then 1.10, then 0.99 in both columns. */
  lemma ExampleCumulative(pad: bool, c: nat)
    requires c < 2
    ensures CumulativeReturns(ExamplePrices(), pad).rows[0][c] == Some(1.0)
    ensures CumulativeReturns(ExamplePrices(), pad).rows[1][c] == Some(1.1)
    ensures CumulativeReturns(ExamplePrices(), pad).rows[2][c] == Some(0.99)
  {
    var t := ExamplePrices();
    CumulativeTelescopes(t, pad, 1, c);
    CumulativeTelescopes(t, pad, 2, c);
  }

  /** Their simple returns: +10% at the second stamp and -10% at the third; the first is dropped. */
  lemma ExampleReturns(pad: bool, c: nat)
    requires c < 2
    ensures SimpleReturns(ExamplePrices(), pad).index == [60, 120]
    ensures SimpleReturns(ExamplePrices(), pad).rows[0][c] == Some(0.1)
    ensures SimpleReturns(ExamplePrices(), pad).rows[1][c] == Some(-0.1)
  {
    var t := ExamplePrices();
    var r := SimpleReturns(t, pad);
    var p := Positions(CompleteMask(PctChange(t, pad).rows));
    ReturnsCount(t, pad);
    ReturnsPositions(t, pad);
    PricesNoGaps(t, pad);
    ReturnsFormula(t, pad, 0, c);
    ReturnsFormula(t, pad, 1, c);
    assert p[0] == 1 && p[1] == 2;
    assert r.index == [t.index[1], t.index[2]];
  }
}
