/**
 * The combined price table: one column per asset, one row per timestamp, a gap where an
 * asset has no bar at that timestamp. `pd.concat([df, new_df], axis=1)` of time-indexed
 * series is an outer join on the sorted union of their timestamps.
 */
module Tables {
  import opened Wrappers
  import opened LoadClean

  /** A table cell: a value or a gap (NaN). */
  type Cell = Option<real>

  datatype Table = Table(columns: seq<string>, index: seq<int>, rows: seq<seq<Cell>>)

  /** An index and its rows, without column labels. */
  datatype Frame = Frame(index: seq<int>, rows: seq<seq<Cell>>)

  datatype Error =
    | DuplicateTimestamps  // reindexing a series whose index repeats a label
    | EmptyTable           // `iloc[0]` on a table with no rows
    | UnknownAssets(names: seq<string>)  // requested columns that the table does not have

  /** A rectangular table: one index entry per row, one cell per column in every row. */
  predicate Shaped(t: Table) {
    && |t.rows| == |t.index|
    && forall i :: 0 <= i < |t.rows| ==> |t.rows[i]| == |t.columns|
  }

  predicate StrictlyIncreasing(index: seq<int>) {
    forall i, j :: 0 <= i < j < |index| ==> index[i] < index[j]
  }

  /** No timestamp occurs twice in a series (for a sorted series: strictly increasing). */
  predicate StrictTs(s: seq<Record>) {
    forall i, j :: 0 <= i < j < |s| ==> s[i].ts < s[j].ts
  }

  function Gaps(w: nat): (r: seq<Cell>)
    ensures |r| == w && forall c :: 0 <= c < w ==> r[c] == None
  {
    seq(w, _ => None)
  }

  /** The timestamps of a series, in series order. */
  function Stamps(s: seq<Record>): (r: seq<int>)
    ensures |r| == |s| && forall i :: 0 <= i < |s| ==> r[i] == s[i].ts
    decreases |s|
  {
    if |s| == 0 then [] else [s[0].ts] + Stamps(s[1..])
  }

  /** The close value a series holds at timestamp `t`, or a gap if it has no bar there. */
  function Lookup(s: seq<Record>, t: int): (r: Cell)
    ensures r.None? <==> t !in Stamps(s)
    decreases |s|
  {
    if |s| == 0 then None
    else if s[0].ts == t then Some(s[0].close)
    else Lookup(s[1..], t)
  }

  /** In a series without repeated timestamps, the value at a record's timestamp is its close. */
  lemma {:induction false} LookupAt(s: seq<Record>, j: nat)
    requires StrictTs(s) && j < |s|
    ensures Lookup(s, s[j].ts) == Some(s[j].close)
    decreases j
  {
    if j > 0 {
      var tail := s[1..];
      LookupAt(tail, j - 1);
      assert tail[j - 1] == s[j];
    }
  }

  /** The row a frame holds at timestamp `t`, or a row of gaps if `t` is not in its index. */
  function RowAt(index: seq<int>, rows: seq<seq<Cell>>, w: nat, t: int): (r: seq<Cell>)
    requires |rows| == |index|
    ensures t !in index ==> r == Gaps(w)
    ensures StrictlyIncreasing(index) ==> forall p :: 0 <= p < |index| && index[p] == t ==> r == rows[p]
    decreases |index|
  {
    if |index| == 0 then Gaps(w)
    else if index[0] == t then rows[0]
    else RowAt(index[1..], rows[1..], w, t)
  }

  /**
   * Outer join of a frame `w` columns wide with one more series, by merging the two sorted
   * indexes: a timestamp in only one of them gets gaps on the other side.
   */
  function Merge(index: seq<int>, rows: seq<seq<Cell>>, w: nat, s: seq<Record>): (f: Frame)
    requires |rows| == |index|
    requires forall i :: 0 <= i < |rows| ==> |rows[i]| == w
    ensures |f.rows| == |f.index|
    ensures forall i :: 0 <= i < |f.rows| ==> |f.rows[i]| == w + 1
    decreases |index| + |s|
  {
    if |index| == 0 && |s| == 0 then Frame([], [])
    else if |s| == 0 || (|index| > 0 && index[0] < s[0].ts) then
      var f := Merge(index[1..], rows[1..], w, s);
      Frame([index[0]] + f.index, [rows[0] + [None]] + f.rows)
    else if |index| == 0 || s[0].ts < index[0] then
      var f := Merge(index, rows, w, s[1..]);
      Frame([s[0].ts] + f.index, [Gaps(w) + [Some(s[0].close)]] + f.rows)
    else
      var f := Merge(index[1..], rows[1..], w, s[1..]);
      Frame([index[0]] + f.index, [rows[0] + [Some(s[0].close)]] + f.rows)
  }

  lemma ConsIncreasing(x: int, g: seq<int>)
    requires StrictlyIncreasing(g)
    requires forall t :: t in g ==> x < t
    ensures StrictlyIncreasing([x] + g)
  {
    forall i, j | 0 <= i < j < |[x] + g|
      ensures ([x] + g)[i] < ([x] + g)[j]
    {
      assert ([x] + g)[j] == g[j - 1];
      assert g[j - 1] in g;
      if i > 0 {
        assert ([x] + g)[i] == g[i - 1];
      }
    }
  }

  /** The merged index is the strictly increasing union of both indexes. */
  ghost predicate MergedIndex(index: seq<int>, s: seq<Record>, g: seq<int>) {
    && (forall t :: t in g <==> t in index || t in Stamps(s))
    && StrictlyIncreasing(g)
  }

  lemma {:induction false} MergeIndex(index: seq<int>, rows: seq<seq<Cell>>, w: nat, s: seq<Record>)
    requires |rows| == |index|
    requires forall i :: 0 <= i < |rows| ==> |rows[i]| == w
    requires StrictlyIncreasing(index) && StrictTs(s)
    ensures forall t :: t in Merge(index, rows, w, s).index <==> t in index || t in Stamps(s)
    ensures StrictlyIncreasing(Merge(index, rows, w, s).index)
    decreases |index| + |s|, 1
  {
    if |index| == 0 && |s| == 0 {
    } else if |s| == 0 || (|index| > 0 && index[0] < s[0].ts) {
      MergeIndexFrameFirst(index, rows, w, s);
    } else if |index| == 0 || s[0].ts < index[0] {
      MergeIndexSeriesFirst(index, rows, w, s);
    } else {
      MergeIndexBothFirst(index, rows, w, s);
    }
  }

  lemma {:induction false} MergeIndexFrameFirst(index: seq<int>, rows: seq<seq<Cell>>, w: nat, s: seq<Record>)
    requires |rows| == |index|
    requires forall i :: 0 <= i < |rows| ==> |rows[i]| == w
    requires StrictlyIncreasing(index) && StrictTs(s)
    requires |index| > 0 && (|s| == 0 || index[0] < s[0].ts)
    ensures MergedIndex(index, s, Merge(index, rows, w, s).index)
    decreases |index| + |s|, 0
  {
    MergeIndex(index[1..], rows[1..], w, s);
    assert index == [index[0]] + index[1..];
    var g := Merge(index[1..], rows[1..], w, s);
    assert forall t :: t in index[1..] ==> index[0] < t;
    assert forall t :: t in Stamps(s) ==> index[0] < t;
    ConsIncreasing(index[0], g.index);
  }

  lemma {:induction false} MergeIndexSeriesFirst(index: seq<int>, rows: seq<seq<Cell>>, w: nat, s: seq<Record>)
    requires |rows| == |index|
    requires forall i :: 0 <= i < |rows| ==> |rows[i]| == w
    requires StrictlyIncreasing(index) && StrictTs(s)
    requires |s| > 0 && (|index| == 0 || s[0].ts < index[0])
    ensures MergedIndex(index, s, Merge(index, rows, w, s).index)
    decreases |index| + |s|, 0
  {
    MergeIndex(index, rows, w, s[1..]);
    assert Stamps(s) == [s[0].ts] + Stamps(s[1..]);
    var g := Merge(index, rows, w, s[1..]);
    assert forall t :: t in index ==> s[0].ts < t;
    assert forall t :: t in Stamps(s[1..]) ==> s[0].ts < t;
    ConsIncreasing(s[0].ts, g.index);
  }

  lemma {:induction false} MergeIndexBothFirst(index: seq<int>, rows: seq<seq<Cell>>, w: nat, s: seq<Record>)
    requires |rows| == |index|
    requires forall i :: 0 <= i < |rows| ==> |rows[i]| == w
    requires StrictlyIncreasing(index) && StrictTs(s)
    requires |index| > 0 && |s| > 0 && index[0] == s[0].ts
    ensures MergedIndex(index, s, Merge(index, rows, w, s).index)
    decreases |index| + |s|, 0
  {
    MergeIndex(index[1..], rows[1..], w, s[1..]);
    assert index == [index[0]] + index[1..];
    assert Stamps(s) == [s[0].ts] + Stamps(s[1..]);
    var g := Merge(index[1..], rows[1..], w, s[1..]);
    assert forall t :: t in index[1..] ==> index[0] < t;
    assert forall t :: t in Stamps(s[1..]) ==> index[0] < t;
    ConsIncreasing(index[0], g.index);
  }

  /**
   * Each merged row is the frame's row at that timestamp (gaps if it had none) followed by
   * the series' value there (a gap if it had none).
   */
  ghost predicate MergedCells(index: seq<int>, rows: seq<seq<Cell>>, w: nat, s: seq<Record>, f: Frame)
    requires |rows| == |index| && |f.rows| == |f.index|
  {
    forall i :: 0 <= i < |f.rows| ==> f.rows[i] == RowAt(index, rows, w, f.index[i]) + [Lookup(s, f.index[i])]
  }

  lemma ConsTail<T>(x: T, g: seq<T>, i: nat)
    requires 1 <= i <= |g|
    ensures ([x] + g)[i] == g[i - 1]
  {
  }

  /** A merged frame whose first row comes from the frame `index, rows` alone. */
  lemma CellsFrameFirst(index: seq<int>, rows: seq<seq<Cell>>, w: nat, s: seq<Record>, g: Frame)
    requires |rows| == |index| && |index| > 0 && |g.rows| == |g.index|
    requires |s| == 0 || index[0] < s[0].ts
    requires StrictTs(s)
    requires MergedCells(index[1..], rows[1..], w, s, g)
    requires forall t :: t in g.index ==> index[0] < t
    ensures MergedCells(index, rows, w, s, Frame([index[0]] + g.index, [rows[0] + [None]] + g.rows))
  {
    var f := Frame([index[0]] + g.index, [rows[0] + [None]] + g.rows);
    forall i | 0 <= i < |f.rows|
      ensures f.rows[i] == RowAt(index, rows, w, f.index[i]) + [Lookup(s, f.index[i])]
    {
      if i == 0 {
        assert index[0] !in Stamps(s);
      } else {
        ConsTail(f.index[0], g.index, i);
        ConsTail(f.rows[0], g.rows, i);
        assert g.index[i - 1] in g.index;
      }
    }
  }

  /** A merged frame whose first row comes from the series alone. */
  lemma CellsSeriesFirst(index: seq<int>, rows: seq<seq<Cell>>, w: nat, s: seq<Record>, g: Frame)
    requires |rows| == |index| && |s| > 0 && |g.rows| == |g.index|
    requires |index| == 0 || s[0].ts < index[0]
    requires StrictlyIncreasing(index)
    requires MergedCells(index, rows, w, s[1..], g)
    requires forall t :: t in g.index ==> s[0].ts < t
    ensures MergedCells(index, rows, w, s, Frame([s[0].ts] + g.index, [Gaps(w) + [Some(s[0].close)]] + g.rows))
  {
    var f := Frame([s[0].ts] + g.index, [Gaps(w) + [Some(s[0].close)]] + g.rows);
    forall i | 0 <= i < |f.rows|
      ensures f.rows[i] == RowAt(index, rows, w, f.index[i]) + [Lookup(s, f.index[i])]
    {
      if i == 0 {
        SeriesFirstHead(index, rows, w, s);
      } else {
        ConsTail(f.index[0], g.index, i);
        ConsTail(f.rows[0], g.rows, i);
        assert g.index[i - 1] in g.index;
        SeriesFirstTail(s, g.index[i - 1]);
      }
    }
  }

  lemma SeriesFirstHead(index: seq<int>, rows: seq<seq<Cell>>, w: nat, s: seq<Record>)
    requires |rows| == |index| && |s| > 0
    requires |index| == 0 || s[0].ts < index[0]
    requires StrictlyIncreasing(index)
    ensures RowAt(index, rows, w, s[0].ts) == Gaps(w) && Lookup(s, s[0].ts) == Some(s[0].close)
  {
    assert s[0].ts !in index;
  }

  lemma SeriesFirstTail(s: seq<Record>, t: int)
    requires |s| > 0 && s[0].ts < t
    ensures Lookup(s, t) == Lookup(s[1..], t)
  {
  }

  /** A merged frame whose first row is on a timestamp both sides have. */
  lemma CellsBothFirst(index: seq<int>, rows: seq<seq<Cell>>, w: nat, s: seq<Record>, g: Frame)
    requires |rows| == |index| && |index| > 0 && |s| > 0 && |g.rows| == |g.index|
    requires index[0] == s[0].ts
    requires MergedCells(index[1..], rows[1..], w, s[1..], g)
    requires forall t :: t in g.index ==> index[0] < t
    ensures MergedCells(index, rows, w, s, Frame([index[0]] + g.index, [rows[0] + [Some(s[0].close)]] + g.rows))
  {
    var f := Frame([index[0]] + g.index, [rows[0] + [Some(s[0].close)]] + g.rows);
    forall i | 0 <= i < |f.rows|
      ensures f.rows[i] == RowAt(index, rows, w, f.index[i]) + [Lookup(s, f.index[i])]
    {
      if i > 0 {
        ConsTail(f.index[0], g.index, i);
        ConsTail(f.rows[0], g.rows, i);
        assert g.index[i - 1] in g.index;
      }
    }
  }

  lemma {:induction false} MergeCells(index: seq<int>, rows: seq<seq<Cell>>, w: nat, s: seq<Record>)
    requires |rows| == |index|
    requires forall i :: 0 <= i < |rows| ==> |rows[i]| == w
    requires StrictlyIncreasing(index) && StrictTs(s)
    ensures MergedCells(index, rows, w, s, Merge(index, rows, w, s))
    decreases |index| + |s|, 1
  {
    if |index| == 0 && |s| == 0 {
    } else if |s| == 0 || (|index| > 0 && index[0] < s[0].ts) {
      MergeCellsFrameFirst(index, rows, w, s);
    } else if |index| == 0 || s[0].ts < index[0] {
      MergeCellsSeriesFirst(index, rows, w, s);
    } else {
      MergeCellsBothFirst(index, rows, w, s);
    }
  }

  lemma {:induction false} MergeCellsFrameFirst(index: seq<int>, rows: seq<seq<Cell>>, w: nat, s: seq<Record>)
    requires |rows| == |index|
    requires forall i :: 0 <= i < |rows| ==> |rows[i]| == w
    requires StrictlyIncreasing(index) && StrictTs(s)
    requires |index| > 0 && (|s| == 0 || index[0] < s[0].ts)
    ensures MergedCells(index, rows, w, s, Merge(index, rows, w, s))
    decreases |index| + |s|, 0
  {
    MergeCells(index[1..], rows[1..], w, s);
    MergeIndex(index[1..], rows[1..], w, s);
    assert forall t :: t in index[1..] ==> index[0] < t;
    CellsFrameFirst(index, rows, w, s, Merge(index[1..], rows[1..], w, s));
  }

  lemma {:induction false} MergeCellsSeriesFirst(index: seq<int>, rows: seq<seq<Cell>>, w: nat, s: seq<Record>)
    requires |rows| == |index|
    requires forall i :: 0 <= i < |rows| ==> |rows[i]| == w
    requires StrictlyIncreasing(index) && StrictTs(s)
    requires |s| > 0 && (|index| == 0 || s[0].ts < index[0])
    ensures MergedCells(index, rows, w, s, Merge(index, rows, w, s))
    decreases |index| + |s|, 0
  {
    MergeCells(index, rows, w, s[1..]);
    MergeIndex(index, rows, w, s[1..]);
    assert forall t :: t in Stamps(s[1..]) ==> s[0].ts < t;
    CellsSeriesFirst(index, rows, w, s, Merge(index, rows, w, s[1..]));
  }

  lemma {:induction false} MergeCellsBothFirst(index: seq<int>, rows: seq<seq<Cell>>, w: nat, s: seq<Record>)
    requires |rows| == |index|
    requires forall i :: 0 <= i < |rows| ==> |rows[i]| == w
    requires StrictlyIncreasing(index) && StrictTs(s)
    requires |index| > 0 && |s| > 0 && index[0] == s[0].ts
    ensures MergedCells(index, rows, w, s, Merge(index, rows, w, s))
    decreases |index| + |s|, 0
  {
    MergeCells(index[1..], rows[1..], w, s[1..]);
    MergeIndex(index[1..], rows[1..], w, s[1..]);
    assert forall t :: t in index[1..] ==> index[0] < t;
    assert forall t :: t in Stamps(s[1..]) ==> index[0] < t;
    CellsBothFirst(index, rows, w, s, Merge(index[1..], rows[1..], w, s[1..]));
  }

  /**
   * A table is the outer join of the series `ss`, one column each: its index is the sorted
   * union of their timestamps, and cell (i, k) is series k's value at index[i], or a gap.
   */
  ghost predicate Aligned(t: Table, ss: seq<seq<Record>>) {
    && |t.columns| == |ss|
    && Shaped(t)
    && StrictlyIncreasing(t.index)
    && (forall i, k :: 0 <= i < |t.rows| && 0 <= k < |ss| ==> t.rows[i][k] == Lookup(ss[k], t.index[i]))
    && (forall x :: x in t.index <==> exists k :: 0 <= k < |ss| && x in Stamps(ss[k]))
  }

  /** `load_data(...)['close']`: one series as a one-column table. */
  function SeriesTable(s: seq<Record>, name: string): (t: Table)
    ensures Shaped(t) && t.columns == [name] && t.index == Stamps(s)
  {
    Table([name], Stamps(s), seq(|s|, i requires 0 <= i < |s| => [Some(s[i].close)]))
  }

  /** A duplicate-free series is the outer join of itself alone. */
  lemma SeriesTableAligned(s: seq<Record>, name: string)
    requires StrictTs(s)
    ensures Aligned(SeriesTable(s, name), [s])
  {
    var t := SeriesTable(s, name);
    assert [s][0] == s;
    forall x
      ensures x in t.index <==> exists k :: 0 <= k < 1 && x in Stamps([s][k])
    {
    }
    forall i, k | 0 <= i < |t.rows| && 0 <= k < 1
      ensures t.rows[i][k] == Lookup([s][k], t.index[i])
    {
      LookupAt(s, i);
    }
  }

  /** `pd.concat([df, new_df], axis=1)` for a duplicate-free table and series. */
  function Concat(t: Table, s: seq<Record>, name: string): (r: Table)
    requires Shaped(t) && StrictlyIncreasing(t.index) && StrictTs(s)
    ensures r.columns == t.columns + [name]
  {
    var f := Merge(t.index, t.rows, |t.columns|, s);
    Table(t.columns + [name], f.index, f.rows)
  }

  /** Joining one more series keeps the table the outer join of all series so far. */
  lemma ConcatAligned(t: Table, ss: seq<seq<Record>>, s: seq<Record>, name: string)
    requires Aligned(t, ss) && StrictTs(s)
    ensures Aligned(Concat(t, s, name), ss + [s])
  {
    var w := |ss|;
    var r := Concat(t, s, name);
    var ss' := ss + [s];
    MergeIndex(t.index, t.rows, w, s);
    MergeCells(t.index, t.rows, w, s);
    forall i, k | 0 <= i < |r.rows| && 0 <= k < |ss'|
      ensures r.rows[i][k] == Lookup(ss'[k], r.index[i])
    {
      var x := r.index[i];
      if k < w {
        if x in t.index {
          var p :| 0 <= p < |t.index| && t.index[p] == x;
          assert RowAt(t.index, t.rows, w, x) == t.rows[p];
        } else {
          assert forall k' :: 0 <= k' < w ==> x !in Stamps(ss[k']);
        }
      }
    }
    forall x
      ensures x in r.index <==> exists k :: 0 <= k < |ss'| && x in Stamps(ss'[k])
    {
      assert x in r.index <==> x in t.index || x in Stamps(s);
      if x in t.index {
        var k :| 0 <= k < w && x in Stamps(ss[k]);
        assert ss'[k] == ss[k];
      }
      if x in Stamps(s) {
        assert ss'[w] == s;
      }
      if exists k :: 0 <= k < |ss'| && x in Stamps(ss'[k]) {
        var k :| 0 <= k < |ss'| && x in Stamps(ss'[k]);
        if k < w {
          assert ss'[k] == ss[k];
        }
      }
    }
  }
}
