/**
 * The whole-table transforms the dashboard derives from the price table: `pct_change`
 * (with or without forward filling), `dropna`, `(1 + ...).cumprod()` with its first row
 * set to 1.0, and column selection `table[names]`. Arithmetic is exact (`real`).
 */
module Transforms {
  import opened Wrappers
  import opened Masks
  import opened Tables

  predicate HasWidth(rows: seq<seq<Cell>>, w: nat) {
    forall i :: 0 <= i < |rows| ==> |rows[i]| == w
  }

  /** A row without a gap. */
  predicate Complete(row: seq<Cell>) {
    forall c :: 0 <= c < |row| ==> row[c].Some?
  }

  predicate NoGaps(rows: seq<seq<Cell>>) {
    forall i :: 0 <= i < |rows| ==> Complete(rows[i])
  }

  predicate NonZero(rows: seq<seq<Cell>>) {
    forall i, c :: 0 <= i < |rows| && 0 <= c < |rows[i]| && rows[i][c].Some? ==> rows[i][c].value != 0.0
  }

  // ---------------------------------------------------------------- pct_change

  /**
   * One cell of `pct_change`: the fractional change from `prev` to `cur`, undefined when
   * either is a gap or `prev` is zero. Compounding the change onto `prev` gives back `cur`.
   */
  function CellChange(prev: Cell, cur: Cell): (r: Cell)
    ensures r.Some? <==> prev.Some? && cur.Some? && prev.value != 0.0
    ensures r.Some? ==> prev.value * (1.0 + r.value) == cur.value
  {
    if prev.Some? && cur.Some? && prev.value != 0.0 then Some(cur.value / prev.value - 1.0) else None
  }

  /** Period-over-period change of every column; the first row has no predecessor. */
  function ChangeRows(rows: seq<seq<Cell>>, w: nat): (r: seq<seq<Cell>>)
    requires HasWidth(rows, w)
    ensures |r| == |rows| && HasWidth(r, w)
  {
    seq(|rows|, i requires 0 <= i < |rows| =>
      if i == 0 then Gaps(w)
      else seq(w, c requires 0 <= c < w => CellChange(rows[i - 1][c], rows[i][c])))
  }

  /** One row of the forward fill: a present cell stays, a gap takes the cell above it. */
  function FillRow(last: seq<Cell>, cur: seq<Cell>): (r: seq<Cell>)
    requires |last| == |cur|
    ensures |r| == |cur|
    ensures forall c :: 0 <= c < |cur| && cur[c].Some? ==> r[c] == cur[c]
    ensures forall c :: 0 <= c < |cur| ==> (r[c].None? <==> cur[c].None? && last[c].None?)
  {
    seq(|cur|, c requires 0 <= c < |cur| => if cur[c].Some? then cur[c] else last[c])
  }

  /**
   * Forward fill (`fill_method='pad'`): a gap takes the nearest value above it in its
   * column; defined cells are unchanged.
   */
  function FFill(rows: seq<seq<Cell>>, w: nat): (r: seq<seq<Cell>>)
    requires HasWidth(rows, w)
    ensures |r| == |rows| && HasWidth(r, w)
    decreases |rows|
  {
    if |rows| == 0 then []
    else
      var p := FFill(rows[..|rows| - 1], w);
      p + [if |rows| == 1 then rows[0] else FillRow(p[|p| - 1], rows[|rows| - 1])]
  }

  /**
   * What forward filling does to one cell: a defined cell is kept, a gap below the first row
   * takes the filled value above it, and the first row is kept as it is.
   */
  lemma {:induction false} FFillAt(rows: seq<seq<Cell>>, w: nat, i: nat, c: nat)
    requires HasWidth(rows, w) && i < |rows| && c < w
    ensures rows[i][c].Some? ==> FFill(rows, w)[i][c] == rows[i][c]
    ensures i >= 1 && rows[i][c].None? ==> FFill(rows, w)[i][c] == FFill(rows, w)[i - 1][c]
    ensures i == 0 ==> FFill(rows, w)[0] == rows[0]
    decreases |rows|, 1
  {
    if i < |rows| - 1 {
      FFillAtEarlier(rows, w, i, c);
    } else {
      FFillAtLast(rows, w, c);
    }
  }

  lemma {:induction false} FFillAtEarlier(rows: seq<seq<Cell>>, w: nat, i: nat, c: nat)
    requires HasWidth(rows, w) && i < |rows| - 1 && c < w
    ensures rows[i][c].Some? ==> FFill(rows, w)[i][c] == rows[i][c]
    ensures i >= 1 && rows[i][c].None? ==> FFill(rows, w)[i][c] == FFill(rows, w)[i - 1][c]
    ensures i == 0 ==> FFill(rows, w)[0] == rows[0]
    decreases |rows|, 0
  {
    var n := |rows| - 1;
    var init := rows[..n];
    var p := FFill(init, w);
    assert FFill(rows, w)[..n] == p;
    FFillAt(init, w, i, c);
    assert init[i] == rows[i];
  }

  lemma FFillAtLast(rows: seq<seq<Cell>>, w: nat, c: nat)
    requires HasWidth(rows, w) && 0 < |rows| && c < w
    ensures var i := |rows| - 1;
      && (rows[i][c].Some? ==> FFill(rows, w)[i][c] == rows[i][c])
      && (i >= 1 && rows[i][c].None? ==> FFill(rows, w)[i][c] == FFill(rows, w)[i - 1][c])
      && (i == 0 ==> FFill(rows, w)[0] == rows[0])
  {
    var n := |rows| - 1;
    var p := FFill(rows[..n], w);
    assert FFill(rows, w) == p + [if n == 0 then rows[0] else FillRow(p[n - 1], rows[n])];
  }

  /** The prices `pct_change` divides: forward-filled or as they are. */
  function Prices(t: Table, pad: bool): (r: seq<seq<Cell>>)
    requires Shaped(t)
    ensures |r| == |t.rows| && HasWidth(r, |t.columns|)
  {
    if pad then FFill(t.rows, |t.columns|) else t.rows
  }

  /** `df.pct_change()`, with `pad` choosing the forward fill of older pandas versions. */
  function PctChange(t: Table, pad: bool): (r: Table)
    requires Shaped(t)
    ensures Shaped(r) && r.columns == t.columns && r.index == t.index
  {
    t.(rows := ChangeRows(Prices(t, pad), |t.columns|))
  }

  // ---------------------------------------------------------------- dropna

  function CompleteMask(rows: seq<seq<Cell>>): (m: seq<bool>)
    ensures |m| == |rows|
  {
    seq(|rows|, i requires 0 <= i < |rows| => Complete(rows[i]))
  }

  /** `dropna()`: the rows without any gap, with their index entries, in order. */
  function DropNa(t: Table): (r: Table)
    requires Shaped(t)
    ensures Shaped(r) && r.columns == t.columns && NoGaps(r.rows)
  {
    var m := CompleteMask(t.rows);
    SelectAt(t.index, m);
    SelectAt(t.rows, m);
    Table(t.columns, Select(t.index, m), Select(t.rows, m))
  }

  /** `rets = df.pct_change().dropna()` */
  function SimpleReturns(t: Table, pad: bool): (r: Table)
    requires Shaped(t)
    ensures Shaped(r) && r.columns == t.columns && NoGaps(r.rows)
  {
    DropNa(PctChange(t, pad))
  }

  /** A change is defined at row i, column c. */
  predicate Defined(p: seq<seq<Cell>>, i: nat, c: nat)
    requires 1 <= i < |p| && c < |p[i - 1]| && c < |p[i]|
  {
    p[i - 1][c].Some? && p[i][c].Some? && p[i - 1][c].value != 0.0
  }

  /** The change row at i >= 1 has no gap exactly when the change is defined in every column. */
  lemma ChangeComplete(P: seq<seq<Cell>>, w: nat, i: nat)
    requires HasWidth(P, w) && i < |P|
    ensures i == 0 ==> (Complete(ChangeRows(P, w)[i]) <==> w == 0)
    ensures i >= 1 ==> (Complete(ChangeRows(P, w)[i]) <==> forall c :: 0 <= c < w ==> Defined(P, i, c))
  {
    var row := ChangeRows(P, w)[i];
    if i == 0 && w > 0 {
      ChangeFirst(P, w);
      assert row[0] == Gaps(w)[0];
    }
    if i >= 1 {
      forall c | 0 <= c < w ensures row[c].Some? <==> Defined(P, i, c) {
        assert row[c] == CellChange(P[i - 1][c], P[i][c]);
      }
    }
  }

  /**
   * The rows of `rets` are the change rows at `Positions(...)`, in order, with their
   * timestamps; a change row is kept exactly when it has no gap.
   */
  lemma ReturnsPositions(t: Table, pad: bool)
    requires Shaped(t)
    ensures var pc := PctChange(t, pad);
      var p := Positions(CompleteMask(pc.rows));
      var r := SimpleReturns(t, pad);
      && |r.rows| == |p| && Increasing(p)
      && (forall k :: 0 <= k < |p| ==> p[k] < |t.rows| && r.index[k] == t.index[p[k]] && r.rows[k] == pc.rows[p[k]])
      && (forall i :: 0 <= i < |t.rows| ==> (i in p <==> Complete(pc.rows[i])))
  {
    var pc := PctChange(t, pad);
    var m := CompleteMask(pc.rows);
    SelectAt(pc.index, m);
    SelectAt(pc.rows, m);
  }

  /**
   * Row-wise dropping: timestamp i of the price table survives in `rets` exactly when the
   * change from i - 1 to i is defined in every column; a single gap removes the timestamp for
   * all assets. The first row survives only in a table without columns.
   */
  lemma ReturnsKeep(t: Table, pad: bool, i: nat)
    requires Shaped(t) && i < |t.rows|
    ensures var p := Positions(CompleteMask(PctChange(t, pad).rows));
      && (i == 0 ==> (i in p <==> |t.columns| == 0))
      && (i >= 1 ==> (i in p <==> forall c :: 0 <= c < |t.columns| ==> Defined(Prices(t, pad), i, c)))
  {
    ReturnsPositions(t, pad);
    ChangeComplete(Prices(t, pad), |t.columns|, i);
  }

  /**
   * Every cell of `rets` is `price[t] / price[t - 1] - 1` for the price rows t - 1, t it
   * comes from (t >= 1), both defined and the earlier one nonzero.
   */
  lemma ReturnsFormula(t: Table, pad: bool, k: nat, c: nat)
    requires Shaped(t) && k < |SimpleReturns(t, pad).rows| && c < |t.columns|
    ensures var r, P, p := SimpleReturns(t, pad), Prices(t, pad), Positions(CompleteMask(PctChange(t, pad).rows));
      && k < |p| && 1 <= p[k] < |t.rows|
      && r.index[k] == t.index[p[k]]
      && Defined(P, p[k], c)
      && r.rows[k][c] == CellChange(P[p[k] - 1][c], P[p[k]][c])
  {
    var w, P := |t.columns|, Prices(t, pad);
    var pc := PctChange(t, pad);
    assert pc.rows == ChangeRows(P, w);
    ReturnsAt(t, pad, k);
    var i := Positions(CompleteMask(pc.rows))[k];
    ChangeFirst(P, w);
    assert i != 0 by {
      assert pc.rows[0][c] == None;
    }
    CompleteChange(P, w, i, c);
  }

  /** Row `k` of `rets` is the gap-free change row it was selected from, with its timestamp. */
  lemma ReturnsAt(t: Table, pad: bool, k: nat)
    requires Shaped(t) && k < |SimpleReturns(t, pad).rows|
    ensures var pc := PctChange(t, pad);
      var p, r := Positions(CompleteMask(pc.rows)), SimpleReturns(t, pad);
      && k < |p| && p[k] < |t.rows|
      && r.index[k] == t.index[p[k]] && r.rows[k] == pc.rows[p[k]] && Complete(pc.rows[p[k]])
  {
    var pc := PctChange(t, pad);
    var m := CompleteMask(pc.rows);
    SelectAt(pc.index, m);
    SelectAt(pc.rows, m);
  }

  lemma ChangeFirst(P: seq<seq<Cell>>, w: nat)
    requires HasWidth(P, w) && 0 < |P|
    ensures ChangeRows(P, w)[0] == Gaps(w)
  {
  }

  /** A change row without gaps holds, in every column, a defined change given by the formula. */
  lemma CompleteChange(P: seq<seq<Cell>>, w: nat, i: nat, c: nat)
    requires HasWidth(P, w) && 1 <= i < |P| && c < w && Complete(ChangeRows(P, w)[i])
    ensures Defined(P, i, c) && ChangeRows(P, w)[i][c] == CellChange(P[i - 1][c], P[i][c])
  {
    assert ChangeRows(P, w)[i][c] == CellChange(P[i - 1][c], P[i][c]);
  }

  /** `rets` never holds the first timestamp of a table with at least one column. */
  lemma ReturnsSkipFirst(t: Table, pad: bool)
    requires Shaped(t) && StrictlyIncreasing(t.index) && |t.rows| > 0 && |t.columns| > 0
    ensures t.index[0] !in SimpleReturns(t, pad).index
  {
    var r := SimpleReturns(t, pad);
    forall k | 0 <= k < |r.index| ensures r.index[k] != t.index[0] {
      ReturnsFormula(t, pad, k, 0);
    }
  }

  /** A table without gaps is its own forward fill. */
  lemma FFillNoGaps(rows: seq<seq<Cell>>, w: nat)
    requires HasWidth(rows, w) && NoGaps(rows)
    ensures FFill(rows, w) == rows
  {
    var r := FFill(rows, w);
    forall i | 0 <= i < |rows| ensures r[i] == rows[i] {
      forall c | 0 <= c < w ensures r[i][c] == rows[i][c] {
        assert rows[i][c].Some?;
        FFillAt(rows, w, i, c);
      }
    }
  }

  /** After a forward fill, a cell is a gap exactly when its column has no value at or above it. */
  lemma {:induction false} FFillLeadingGaps(rows: seq<seq<Cell>>, w: nat, i: nat, c: nat)
    requires HasWidth(rows, w) && i < |rows| && c < w
    ensures FFill(rows, w)[i][c].None? <==> forall j :: 0 <= j <= i ==> rows[j][c].None?
  {
    var r := FFill(rows, w);
    FFillAt(rows, w, i, c);
    if i == 0 {
      assert r[0] == rows[0];
    } else if rows[i][c].Some? {
      assert r[i][c] == rows[i][c];
    } else {
      FFillLeadingGaps(rows, w, i - 1, c);
      assert r[i][c] == r[i - 1][c];
      assert (forall j :: 0 <= j <= i ==> rows[j][c].None?) <==> (forall j :: 0 <= j <= i - 1 ==> rows[j][c].None?);
    }
  }

  /**
   * `|rets| <= |df| - 1`, with equality when the table has no gaps and no zero price: then
   * only the first row is dropped.
   */
  lemma ReturnsCount(t: Table, pad: bool)
    requires Shaped(t) && |t.rows| > 0 && |t.columns| > 0
    ensures |SimpleReturns(t, pad).rows| <= |t.rows| - 1
    ensures NoGaps(t.rows) && NonZero(t.rows) ==> |SimpleReturns(t, pad).rows| == |t.rows| - 1
  {
    ReturnsPositions(t, pad);
    var w, P := |t.columns|, Prices(t, pad);
    var m := CompleteMask(PctChange(t, pad).rows);
    ChangeComplete(P, w, 0);
    PositionsFirstFalse(m);
    if NoGaps(t.rows) && NonZero(t.rows) {
      PricesNoGaps(t, pad);
      forall i | 1 <= i < |m| ensures m[i] {
        ChangeComplete(P, w, i);
        forall c | 0 <= c < w ensures Defined(P, i, c) {
          assert Complete(t.rows[i]) && Complete(t.rows[i - 1]);
        }
      }
    }
  }

  /** Without gaps there is nothing to fill: both `pct_change` rules see the same prices. */
  lemma PricesNoGaps(t: Table, pad: bool)
    requires Shaped(t) && NoGaps(t.rows)
    ensures Prices(t, pad) == t.rows
  {
    if pad {
      FFillNoGaps(t.rows, |t.columns|);
    }
  }

  // ---------------------------------------------------------------- cumprod

  /** `1 + df.pct_change()`: a gap stays a gap. */
  function PlusOne(rows: seq<seq<Cell>>): (r: seq<seq<Cell>>)
    ensures |r| == |rows|
    ensures forall i :: 0 <= i < |rows| ==> |r[i]| == |rows[i]|
  {
    seq(|rows|, i requires 0 <= i < |rows| =>
      seq(|rows[i]|, c requires 0 <= c < |rows[i]| =>
        if rows[i][c].Some? then Some(1.0 + rows[i][c].value) else None))
  }

  /** What a cell contributes to a running product: gaps are skipped. */
  function Factor(x: Cell): real {
    if x.Some? then x.value else 1.0
  }

  /** Reference definition: the product of the defined cells of column `c`. */
  function ColumnProduct(rows: seq<seq<Cell>>, c: nat): real
    requires forall i :: 0 <= i < |rows| ==> c < |rows[i]|
    decreases |rows|
  {
    if |rows| == 0 then 1.0 else ColumnProduct(rows[..|rows| - 1], c) * Factor(rows[|rows| - 1][c])
  }

  /** The running products after one more row: a gap leaves its column's product as it is. */
  function Step(acc: seq<real>, row: seq<Cell>): (r: seq<real>)
    requires |row| == |acc|
    ensures |r| == |acc|
  {
    seq(|acc|, c requires 0 <= c < |acc| => acc[c] * Factor(row[c]))
  }

  /** The running products of a `w`-column table after all of `rows`, starting from 1. */
  function Running(w: nat, rows: seq<seq<Cell>>): (r: seq<real>)
    requires HasWidth(rows, w)
    ensures |r| == w
    decreases |rows|
  {
    if |rows| == 0 then seq(w, _ => 1.0)
    else Step(Running(w, rows[..|rows| - 1]), rows[|rows| - 1])
  }

  /** The output row for input `row` once the running products are `acc`. */
  function Emit(acc: seq<real>, row: seq<Cell>): (r: seq<Cell>)
    requires |row| == |acc|
    ensures |r| == |acc|
  {
    seq(|acc|, c requires 0 <= c < |acc| => if row[c].Some? then Some(acc[c]) else None)
  }

  /**
   * `cumprod()` as pandas computes it: one running product per column, which a gap leaves
   * as it is; the gap itself stays a gap in the output.
   */
  function CumProd(w: nat, rows: seq<seq<Cell>>): (r: seq<seq<Cell>>)
    requires HasWidth(rows, w)
    ensures |r| == |rows| && HasWidth(r, w)
    decreases |rows|
  {
    if |rows| == 0 then []
    else CumProd(w, rows[..|rows| - 1]) + [Emit(Running(w, rows), rows[|rows| - 1])]
  }

  function Ones(w: nat): (r: seq<Cell>)
    ensures |r| == w && forall c :: 0 <= c < w ==> r[c] == Some(1.0)
  {
    seq(w, _ => Some(1.0))
  }

  /** `cumrets = (1 + df.pct_change()).cumprod(); cumrets.iloc[0] = 1.` */
  function CumulativeReturns(t: Table, pad: bool): (r: Table)
    requires Shaped(t) && |t.rows| > 0
    ensures Shaped(r) && r.columns == t.columns && r.index == t.index
    ensures r.rows[0] == Ones(|t.columns|)
  {
    var w := |t.columns|;
    var cp := CumProd(w, PlusOne(PctChange(t, pad).rows));
    t.(rows := cp[0 := Ones(w)])
  }

  /** The running product of each column is the reference product of that column. */
  lemma {:induction false} RunningIsProduct(w: nat, rows: seq<seq<Cell>>, c: nat)
    requires HasWidth(rows, w) && c < w
    ensures Running(w, rows)[c] == ColumnProduct(rows, c)
    decreases |rows|
  {
    if |rows| > 0 {
      RunningIsProduct(w, rows[..|rows| - 1], c);
    }
  }

  /** Row `i` of the cumulative product is emitted from the running products up to row `i`. */
  lemma {:induction false} CumProdAt(w: nat, rows: seq<seq<Cell>>, i: nat)
    requires HasWidth(rows, w) && i < |rows|
    ensures CumProd(w, rows)[i] == Emit(Running(w, rows[..i + 1]), rows[i])
    decreases |rows|
  {
    var n := |rows|;
    assert rows[..n] == rows;
    if i < n - 1 {
      var p := rows[..n - 1];
      CumProdAt(w, p, i);
      assert p[..i + 1] == rows[..i + 1];
    }
  }

  /**
   * Every row of `cumrets` after the first is the product of `1 + return` over the defined
   * returns of its column up to that row; a gap in the returns stays a gap.
   */
  lemma CumulativeAt(t: Table, pad: bool, i: nat, c: nat)
    requires Shaped(t) && 1 <= i < |t.rows| && c < |t.columns|
    ensures var q := PlusOne(PctChange(t, pad).rows);
      CumulativeReturns(t, pad).rows[i][c] ==
        if q[i][c].Some? then Some(ColumnProduct(q[..i + 1], c)) else None
  {
    var w := |t.columns|;
    var q := PlusOne(PctChange(t, pad).rows);
    CumProdAt(w, q, i);
    RunningIsProduct(w, q[..i + 1], c);
  }

  /** One step of the telescoping product of price ratios. */
  lemma RatioStep(a: real, b: real, z: real)
    requires a != 0.0 && z != 0.0
    ensures (a / z) * (b / a) == b / z
  {
    assert (a / z) * (b / a) == (a * b) / (z * a);
  }

  /** Where both prices are defined and the earlier one is not zero, `1 + return` is their ratio. */
  lemma GrowthAt(rows: seq<seq<Cell>>, w: nat, i: nat, c: nat)
    requires HasWidth(rows, w) && 1 <= i < |rows| && c < w
    requires rows[i][c].Some? && rows[i - 1][c].Some? && rows[i - 1][c].value != 0.0
    ensures PlusOne(ChangeRows(rows, w))[i][c] == Some(rows[i][c].value / rows[i - 1][c].value)
  {
    var r := ChangeRows(rows, w)[i][c];
    assert r == CellChange(rows[i - 1][c], rows[i][c]);
    assert r.value == rows[i][c].value / rows[i - 1][c].value - 1.0;
  }

  /** With no gaps and no zero price, the product of price ratios telescopes. */
  lemma {:induction false} ProductTelescopes(rows: seq<seq<Cell>>, w: nat, i: nat, c: nat)
    requires HasWidth(rows, w) && NoGaps(rows) && NonZero(rows) && i < |rows| && c < w
    ensures rows[i][c].Some? && rows[0][c].Some? && rows[0][c].value != 0.0
    ensures ColumnProduct(PlusOne(ChangeRows(rows, w))[..i + 1], c) == rows[i][c].value / rows[0][c].value
    decreases i, 1
  {
    assert rows[i][c].Some? && rows[0][c].Some? && rows[0][c].value != 0.0;
    if i == 0 {
      ProductFirst(rows, w, c);
    } else {
      ProductLater(rows, w, i, c);
    }
  }

  lemma {:induction false} ProductLater(rows: seq<seq<Cell>>, w: nat, i: nat, c: nat)
    requires HasWidth(rows, w) && NoGaps(rows) && NonZero(rows) && 1 <= i < |rows| && c < w
    ensures ColumnProduct(PlusOne(ChangeRows(rows, w))[..i + 1], c) == rows[i][c].value / rows[0][c].value
    decreases i, 0
  {
    ProductTelescopes(rows, w, i - 1, c);
    assert rows[i][c].Some? && rows[i - 1][c].Some? && rows[i - 1][c].value != 0.0;
    TelescopeStep(rows, w, i, c);
  }

  lemma ProductFirst(rows: seq<seq<Cell>>, w: nat, c: nat)
    requires HasWidth(rows, w) && 0 < |rows| && c < w
    requires rows[0][c].Some? && rows[0][c].value != 0.0
    ensures ColumnProduct(PlusOne(ChangeRows(rows, w))[..1], c) == rows[0][c].value / rows[0][c].value
  {
    var q := PlusOne(ChangeRows(rows, w));
    assert q[..1][..0] == [];
    assert q[0][c] == None;
  }

  lemma TelescopeStep(rows: seq<seq<Cell>>, w: nat, i: nat, c: nat)
    requires HasWidth(rows, w) && 1 <= i < |rows| && c < w
    requires rows[i][c].Some? && rows[i - 1][c].Some? && rows[0][c].Some?
    requires rows[i - 1][c].value != 0.0 && rows[0][c].value != 0.0
    requires ColumnProduct(PlusOne(ChangeRows(rows, w))[..i], c) == rows[i - 1][c].value / rows[0][c].value
    ensures ColumnProduct(PlusOne(ChangeRows(rows, w))[..i + 1], c) == rows[i][c].value / rows[0][c].value
  {
    var q := PlusOne(ChangeRows(rows, w));
    var r := q[..i + 1];
    assert r[..i] == q[..i];
    assert r[i] == q[i];
    var a, b, z := rows[i - 1][c].value, rows[i][c].value, rows[0][c].value;
    GrowthAt(rows, w, i, c);
    assert ColumnProduct(r[..i], c) == a / z;
    assert Factor(r[i][c]) == b / a;
    Chain(r, i, c, a, b, z);
  }

  /** A running product that was `a / z` and grows by `b / a` becomes `b / z`. */
  lemma Chain(r: seq<seq<Cell>>, i: nat, c: nat, a: real, b: real, z: real)
    requires |r| == i + 1 && forall k :: 0 <= k < |r| ==> c < |r[k]|
    requires a != 0.0 && z != 0.0
    requires ColumnProduct(r[..i], c) == a / z && Factor(r[i][c]) == b / a
    ensures ColumnProduct(r, c) == b / z
  {
    ColumnProductLast(r, i, c);
    RatioStep(a, b, z);
  }

  lemma ColumnProductLast(rows: seq<seq<Cell>>, n: nat, c: nat)
    requires |rows| == n + 1 && forall i :: 0 <= i < |rows| ==> c < |rows[i]|
    ensures var init := rows[..n]; ColumnProduct(rows, c) == ColumnProduct(init, c) * Factor(rows[n][c])
  {
  }

  /**
   * With no gaps and no zero price, `cumrets[t] == df[t] / df[0]` in every column: the value
   * of one unit invested at the first timestamp, the first row included.
   */
  lemma CumulativeTelescopes(t: Table, pad: bool, i: nat, c: nat)
    requires Shaped(t) && NoGaps(t.rows) && NonZero(t.rows) && i < |t.rows| && c < |t.columns|
    ensures CumulativeReturns(t, pad).rows[i][c] == Some(t.rows[i][c].value / t.rows[0][c].value)
  {
    var z := t.rows[0][c].value;
    assert z != 0.0 by {
      assert t.rows[0][c].Some?;
    }
    if i == 0 {
      assert z / z == 1.0;
    } else {
      LaterTelescopes(t, pad, i, c);
    }
  }

  lemma LaterTelescopes(t: Table, pad: bool, i: nat, c: nat)
    requires Shaped(t) && NoGaps(t.rows) && NonZero(t.rows) && 1 <= i < |t.rows| && c < |t.columns|
    ensures CumulativeReturns(t, pad).rows[i][c] == Some(t.rows[i][c].value / t.rows[0][c].value)
  {
    var rows: seq<seq<Cell>>, w: nat := t.rows, |t.columns|;
    PricesNoGaps(t, pad);
    var q := PlusOne(ChangeRows(rows, w));
    assert q == PlusOne(PctChange(t, pad).rows);
    CumulativeAt(t, pad, i, c);
    ProductTelescopes(rows, w, i, c);
    assert rows[i][c].Some? && rows[i - 1][c].Some? && rows[i - 1][c].value != 0.0;
    GrowthAt(rows, w, i, c);
  }

  /**
   * With no gaps and no zero price, each row of `cumrets` compounds the previous one by the
   * price ratio: `cumrets[t] == cumrets[t - 1] * (df[t] / df[t - 1])`.
   */
  lemma CumulativeRecurrence(t: Table, pad: bool, i: nat, c: nat)
    requires Shaped(t) && NoGaps(t.rows) && NonZero(t.rows) && 1 <= i < |t.rows| && c < |t.columns|
    ensures var cr := CumulativeReturns(t, pad).rows;
      Compounds(cr[i][c], cr[i - 1][c], t.rows[i][c].value / t.rows[i - 1][c].value)
  {
    var cr := CumulativeReturns(t, pad).rows;
    var rows: seq<seq<Cell>> := t.rows;
    assert rows[i][c].Some? && rows[i - 1][c].Some? && rows[0][c].Some?;
    var a, b, z := rows[i - 1][c].value, rows[i][c].value, rows[0][c].value;
    assert a != 0.0 && z != 0.0;
    var x, y := cr[i][c], cr[i - 1][c];
    assert x == Some(b / z) by {
      CumulativeTelescopes(t, pad, i, c);
    }
    assert y == Some(a / z) by {
      CumulativeTelescopes(t, pad, i - 1, c);
    }
    Compound(x, y, a, b, z);
  }

  /** `x` is defined and is `y`, defined too, compounded by `ratio`. */
  predicate Compounds(x: Cell, y: Cell, ratio: real) {
    x.Some? && y.Some? && x.value == y.value * ratio
  }

  /** Two values of one unit invested at price `z`, at prices `a` then `b`, differ by `b / a`. */
  lemma Compound(x: Cell, y: Cell, a: real, b: real, z: real)
    requires a != 0.0 && z != 0.0 && x == Some(b / z) && y == Some(a / z)
    ensures Compounds(x, y, b / a)
  {
    RatioStep(a, b, z);
  }

  // ---------------------------------------------------------------- column selection

  /** The position of the first column called `name`. */
  function IndexOf(cols: seq<string>, name: string): (k: nat)
    requires name in cols
    ensures k < |cols| && cols[k] == name
    ensures forall j :: 0 <= j < k ==> cols[j] != name
  {
    if cols[0] == name then 0 else 1 + IndexOf(cols[1..], name)
  }

  /** The requested names that are not columns, in request order. */
  function Missing(cols: seq<string>, names: seq<string>): (m: seq<string>)
    ensures forall x :: x in m <==> x in names && x !in cols
    ensures |m| == 0 <==> forall k :: 0 <= k < |names| ==> names[k] in cols
  {
    if |names| == 0 then []
    else (if names[0] in cols then [] else [names[0]]) + Missing(cols, names[1..])
  }

  /** Column `j` of a table, top to bottom. */
  function Column(t: Table, j: nat): (col: seq<Cell>)
    requires Shaped(t) && j < |t.columns|
    ensures |col| == |t.rows| && forall i :: 0 <= i < |t.rows| ==> col[i] == t.rows[i][j]
  {
    seq(|t.rows|, i requires 0 <= i < |t.rows| => t.rows[i][j])
  }

  predicate UniqueColumns(t: Table) {
    forall j, k :: 0 <= j < k < |t.columns| ==> t.columns[j] != t.columns[k]
  }

  /**
   * `table[names]`: the requested columns, in the requested order, over the same index. A name
   * the table does not have makes pandas raise a `KeyError` listing every such name.
   */
  function SelectColumns(t: Table, names: seq<string>): (r: Result<Table, Error>)
    requires Shaped(t)
    ensures r.Err? <==> exists k :: 0 <= k < |names| && names[k] !in t.columns
    ensures r.Err? ==> r.error == UnknownAssets(Missing(t.columns, names))
    ensures r.Ok? ==> Shaped(r.value) && r.value.columns == names && r.value.index == t.index
  {
    var m := Missing(t.columns, names);
    if |m| > 0 then Err(UnknownAssets(m))
    else
      Ok(Table(names, t.index, seq(|t.rows|, i requires 0 <= i < |t.rows| =>
        seq(|names|, k requires 0 <= k < |names| => t.rows[i][IndexOf(t.columns, names[k])]))))
  }

  /**
   * Selection leaves values unchanged: on a table whose labels are unique, the selected column
   * `k` is the table's column called `names[k]`, cell for cell.
   */
  lemma SelectedColumn(t: Table, names: seq<string>, k: nat, j: nat)
    requires Shaped(t) && UniqueColumns(t) && SelectColumns(t, names).Ok?
    requires k < |names| && j < |t.columns| && t.columns[j] == names[k]
    ensures Column(SelectColumns(t, names).value, k) == Column(t, j)
  {
    var n := names[k];
    assert IndexOf(t.columns, n) == j;
  }

  /** Selecting every column, in order, of a table with unique labels gives the table back. */
  lemma SelectAll(t: Table)
    requires Shaped(t) && UniqueColumns(t)
    ensures SelectColumns(t, t.columns) == Ok(t)
  {
    var r := SelectColumns(t, t.columns);
    assert r.Ok? by {
      assert forall k :: 0 <= k < |t.columns| ==> t.columns[k] in t.columns;
    }
    forall i | 0 <= i < |t.rows| ensures r.value.rows[i] == t.rows[i] {
      forall k | 0 <= k < |t.columns| ensures r.value.rows[i][k] == t.rows[i][k] {
        assert IndexOf(t.columns, t.columns[k]) == k;
      }
    }
    assert r.value.rows == t.rows;
  }

  /** Selecting `b` from a selection of `a` is selecting `b` at once, when `b` is drawn from `a`. */
  lemma SelectTwice(t: Table, a: seq<string>, b: seq<string>)
    requires Shaped(t) && SelectColumns(t, a).Ok?
    requires forall k :: 0 <= k < |b| ==> b[k] in a
    ensures SelectColumns(t, b).Ok? && SelectColumns(SelectColumns(t, a).value, b) == SelectColumns(t, b)
  {
    var ta := SelectColumns(t, a).value;
    var tb := SelectColumns(ta, b);
    assert SelectColumns(t, b).Ok? by {
      forall k | 0 <= k < |b| ensures b[k] in t.columns {
        var j := IndexOf(a, b[k]);
        assert a[j] in t.columns;
      }
    }
    var direct := SelectColumns(t, b).value;
    assert tb.Ok?;
    forall i | 0 <= i < |t.rows| ensures tb.value.rows[i] == direct.rows[i] {
      forall k | 0 <= k < |b| ensures tb.value.rows[i][k] == direct.rows[i][k] {
        var j := IndexOf(a, b[k]);
        assert a[j] == b[k];
      }
    }
    assert tb.value.rows == direct.rows;
  }
}
