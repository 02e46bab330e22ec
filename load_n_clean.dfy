/**
 * The series loader: one asset's bars, already read from storage, are sorted by time,
 * optionally moved one hour forward ("Paris time") and optionally restricted to the
 * whole-hour marks, which drops the half-hour records the upstream feed injects.
 */
module LoadClean {
  import opened Masks

  /** One stored bar of an asset, reduced to its timestamp (in whole minutes) and close price. */
  datatype Record = Record(ts: int, close: real)

  /** The fixed Paris correction, `timedelta(hours=1)`, in minutes. */
  const ParisOffset: int := 60

  /** The minute field of a timestamp. */
  function Minute(ts: int): (m: nat)
    ensures m < 60
  {
    ts % 60
  }

  predicate SortedByTs(s: seq<Record>) {
    forall i, j :: 0 <= i < j < |s| ==> s[i].ts <= s[j].ts
  }

  function ShiftRecord(r: Record): Record {
    Record(r.ts + ParisOffset, r.close)
  }

  /** `df.index + timedelta(hours=1)`: every timestamp one hour later, nothing else changed. */
  function Shifted(s: seq<Record>): (r: seq<Record>)
    ensures |r| == |s|
    ensures forall i :: 0 <= i < |s| ==> r[i].ts == s[i].ts + ParisOffset && r[i].close == s[i].close
    decreases |s|
  {
    if |s| == 0 then [] else Shifted(s[..|s| - 1]) + [ShiftRecord(s[|s| - 1])]
  }

  /** `df.index.minute == 0` */
  function HourMask(s: seq<Record>): (m: seq<bool>)
    ensures |m| == |s|
  {
    seq(|s|, i requires 0 <= i < |s| => Minute(s[i].ts) == 0)
  }

  /**
   * `df[df.index.minute == 0]`: the records on a whole-hour mark (see `OnTheHourKeeps`
   * for exactly which ones).
   */
  function OnTheHour(s: seq<Record>): (r: seq<Record>)
    ensures |r| <= |s|
    ensures forall k :: 0 <= k < |r| ==> Minute(r[k].ts) == 0
  {
    SelectAt(s, HourMask(s));
    Select(s, HourMask(s))
  }

  /**
   * The hourly filter keeps exactly the records whose minute is 0, unaltered and in their
   * original relative order; duplicates are kept.
   */
  lemma OnTheHourKeeps(s: seq<Record>)
    ensures |OnTheHour(s)| == |Positions(HourMask(s))| && Increasing(Positions(HourMask(s)))
    ensures forall k :: 0 <= k < |OnTheHour(s)| ==> OnTheHour(s)[k] == s[Positions(HourMask(s))[k]]
    ensures forall i :: 0 <= i < |s| ==> (Minute(s[i].ts) == 0 <==> i in Positions(HourMask(s)))
  {
    SelectAt(s, HourMask(s));
  }

  /** A filtered sorted series is still sorted. */
  lemma OnTheHourSorted(s: seq<Record>)
    requires SortedByTs(s)
    ensures SortedByTs(OnTheHour(s))
  {
    OnTheHourKeeps(s);
  }

  /** The shift preserves the order of timestamps. */
  lemma ShiftedSorted(s: seq<Record>)
    ensures SortedByTs(s) <==> SortedByTs(Shifted(s))
  {
  }

  /** What the cleaned series holds, irrespective of order. */
  function Cleaned(raw: seq<Record>, parisTime: bool, hourly: bool): (r: seq<Record>)
    ensures |r| <= |raw|
    ensures !hourly ==> |r| == |raw|
    ensures hourly ==> forall k :: 0 <= k < |r| ==> Minute(r[k].ts) == 0
  {
    var s := if parisTime then Shifted(raw) else raw;
    if hourly then OnTheHour(s) else s
  }

  /** The shift moves each record by exactly one hour: counts transfer one to one. */
  lemma {:induction false} ShiftedCount(s: seq<Record>, x: Record)
    ensures multiset(Shifted(s))[x] == multiset(s)[Record(x.ts - ParisOffset, x.close)]
    decreases |s|
  {
    if |s| > 0 {
      var n := |s|;
      var p, y := s[..n - 1], s[n - 1];
      ShiftedCount(p, x);
      assert s == p + [y];
      ShiftedCountStep(p, y, x);
    }
  }

  lemma ShiftedCountStep(p: seq<Record>, y: Record, x: Record)
    requires multiset(Shifted(p))[x] == multiset(p)[Record(x.ts - ParisOffset, x.close)]
    ensures multiset(Shifted(p + [y]))[x] == multiset(p + [y])[Record(x.ts - ParisOffset, x.close)]
  {
    var s := p + [y];
    var z := Record(x.ts - ParisOffset, x.close);
    assert s[..|s| - 1] == p;
    assert Shifted(s) == Shifted(p) + [ShiftRecord(y)];
    assert multiset(Shifted(s)) == multiset(Shifted(p)) + multiset{ShiftRecord(y)};
    assert multiset(s) == multiset(p) + multiset{y};
    assert ShiftRecord(y) == x <==> y == z;
  }

  /** The hourly filter keeps every copy of a whole-hour record and no copy of any other. */
  lemma {:induction false} OnTheHourCount(s: seq<Record>, x: Record)
    ensures multiset(OnTheHour(s))[x] == if Minute(x.ts) == 0 then multiset(s)[x] else 0
    decreases |s|
  {
    if |s| > 0 {
      var n := |s|;
      assert HourMask(s)[..n - 1] == HourMask(s[..n - 1]);
      OnTheHourCount(s[..n - 1], x);
      assert s == s[..n - 1] + [s[n - 1]];
    }
  }

  /** The number of records on a whole-hour mark, duplicates included. */
  function WholeHourCount(s: seq<Record>): (n: nat)
    ensures n <= |s|
    decreases |s|
  {
    if |s| == 0 then 0
    else WholeHourCount(s[..|s| - 1]) + (if Minute(s[|s| - 1].ts) == 0 then 1 else 0)
  }

  /** The hourly filter keeps one record per whole-hour record of its input: none is merged. */
  lemma {:induction false} OnTheHourLength(s: seq<Record>)
    ensures |OnTheHour(s)| == WholeHourCount(s)
    decreases |s|
  {
    if |s| > 0 {
      var n := |s|;
      var init := s[..n - 1];
      OnTheHourLength(init);
      assert HourMask(s)[..n - 1] == HourMask(init);
      assert init == s[..n - 1];
    }
  }

  /** The shift does not change how many records sit on a whole hour. */
  lemma {:induction false} ShiftedWholeHourCount(s: seq<Record>)
    ensures WholeHourCount(Shifted(s)) == WholeHourCount(s)
    decreases |s|
  {
    if |s| > 0 {
      var n := |s|;
      var init := s[..n - 1];
      ShiftedWholeHourCount(init);
      assert Shifted(s)[..n - 1] == Shifted(init);
      ShiftKeepsMinute(s[n - 1].ts);
    }
  }

  /** Shifting by a whole hour leaves the minute field as it was. */
  lemma ShiftKeepsMinute(ts: int)
    ensures Minute(ts + ParisOffset) == Minute(ts)
  {
  }

  /** The hourly filter of a series ending in `x`: the filter of the rest, then `x` if it is on the hour. */
  lemma OnTheHourSnoc(s: seq<Record>)
    requires |s| > 0
    ensures var n := |s|;
      OnTheHour(s) == OnTheHour(s[..n - 1]) + (if Minute(s[n - 1].ts) == 0 then [s[n - 1]] else [])
  {
    var n := |s|;
    assert HourMask(s)[..n - 1] == HourMask(s[..n - 1]);
  }

  /**
   * Filtering after the shift keeps the same records as filtering before it, the only
   * difference being the shifted timestamps.
   */
  lemma {:induction false} ShiftCommutesWithHourly(s: seq<Record>)
    ensures OnTheHour(Shifted(s)) == Shifted(OnTheHour(s))
    decreases |s|
  {
    if |s| > 0 {
      var n := |s|;
      var s', x := s[..n - 1], s[n - 1];
      var t := Shifted(s);
      assert t == Shifted(s') + [ShiftRecord(x)];
      assert t[..n - 1] == Shifted(s');
      ShiftCommutesWithHourly(s');
      ShiftKeepsMinute(x.ts);
      OnTheHourSnoc(s);
      OnTheHourSnoc(t);
      var a := OnTheHour(s');
      assert t[n - 1] == ShiftRecord(x);
      assert OnTheHour(t[..n - 1]) == Shifted(a);
      if Minute(x.ts) == 0 {
        assert (a + [x])[..|a|] == a;
        assert Shifted(a + [x]) == Shifted(a) + [ShiftRecord(x)];
        assert OnTheHour(t) == Shifted(a) + [ShiftRecord(x)];
        assert OnTheHour(s) == a + [x];
      } else {
        assert OnTheHour(t) == Shifted(a);
        assert OnTheHour(s) == a;
      }
    }
  }

  /** Equal multisets stay equal under the shift and under the hourly filter. */
  lemma CleanedRespectsPermutation(a: seq<Record>, b: seq<Record>, parisTime: bool, hourly: bool)
    requires multiset(a) == multiset(b)
    ensures multiset(Cleaned(a, parisTime, hourly)) == multiset(Cleaned(b, parisTime, hourly))
  {
    var a1 := if parisTime then Shifted(a) else a;
    var b1 := if parisTime then Shifted(b) else b;
    if parisTime {
      forall x ensures multiset(a1)[x] == multiset(b1)[x] {
        ShiftedCount(a, x);
        ShiftedCount(b, x);
      }
    }
    assert multiset(a1) == multiset(b1);
    if hourly {
      forall x ensures multiset(OnTheHour(a1))[x] == multiset(OnTheHour(b1))[x] {
        OnTheHourCount(a1, x);
        OnTheHourCount(b1, x);
      }
      assert multiset(OnTheHour(a1)) == multiset(OnTheHour(b1));
    }
  }

  /**
   * Where `x` belongs in a sorted series: after every record with an earlier or equal
   * timestamp, before every later one.
   */
  method InsertionPoint(s: seq<Record>, x: Record) returns (j: nat)
    requires SortedByTs(s)
    ensures j <= |s|
    ensures forall k :: 0 <= k < j ==> s[k].ts <= x.ts
    ensures forall k :: j <= k < |s| ==> x.ts < s[k].ts
  {
    j := 0;
    while j < |s| && s[j].ts <= x.ts
      invariant j <= |s|
      invariant forall k :: 0 <= k < j ==> s[k].ts <= x.ts
    {
      j := j + 1;
    }
  }

  /** Inserting a record at its insertion point keeps a series sorted and adds just that record. */
  lemma InsertKeepsSorted(s: seq<Record>, j: nat, x: Record)
    requires SortedByTs(s) && j <= |s|
    requires forall k :: 0 <= k < j ==> s[k].ts <= x.ts
    requires forall k :: j <= k < |s| ==> x.ts < s[k].ts
    ensures SortedByTs(s[..j] + [x] + s[j..])
    ensures multiset(s[..j] + [x] + s[j..]) == multiset(s) + multiset{x}
  {
    assert s == s[..j] + s[j..];
  }

  /** `df.sort_index(inplace=True)`: the same records, ordered by timestamp. */
  method SortIndex(rows: seq<Record>) returns (sorted: seq<Record>)
    ensures SortedByTs(sorted)
    ensures multiset(sorted) == multiset(rows)
  {
    sorted := [];
    var i := 0;
    while i < |rows|
      invariant i <= |rows|
      invariant SortedByTs(sorted)
      invariant multiset(sorted) == multiset(rows[..i])
    {
      var j := InsertionPoint(sorted, rows[i]);
      InsertKeepsSorted(sorted, j, rows[i]);
      sorted := sorted[..j] + [rows[i]] + sorted[j..];
      assert rows[..i + 1] == rows[..i] + [rows[i]];
      i := i + 1;
    }
    assert rows[..i] == rows;
  }

  /** The hourly filter invents no record. */
  lemma OnTheHourMember(s: seq<Record>, y: Record)
    requires y in OnTheHour(s)
    ensures y in s
  {
    OnTheHourKeeps(s);
    var k :| 0 <= k < |OnTheHour(s)| && OnTheHour(s)[k] == y;
    assert y == s[Positions(HourMask(s))[k]];
  }

  /** Every record of a shifted series is an input record moved by one hour. */
  lemma ShiftedMember(s: seq<Record>, y: Record)
    requires y in Shifted(s)
    ensures exists j :: 0 <= j < |s| && y == ShiftRecord(s[j])
  {
    var j :| 0 <= j < |Shifted(s)| && Shifted(s)[j] == y;
    assert y == ShiftRecord(s[j]);
  }

  /** Every record of a cleaned series is a record of the input, shifted when asked. */
  lemma CleanedMembers(s: seq<Record>, parisTime: bool, hourly: bool, y: Record)
    requires y in Cleaned(s, parisTime, hourly)
    ensures parisTime ==> exists j :: 0 <= j < |s| && y == ShiftRecord(s[j])
    ensures !parisTime ==> y in s
  {
    var m := if parisTime then Shifted(s) else s;
    if hourly {
      OnTheHourMember(m, y);
    }
    if parisTime {
      ShiftedMember(s, y);
    }
  }

  /** A cleaned series is sorted when its input is. */
  lemma CleanedSorted(s: seq<Record>, parisTime: bool, hourly: bool)
    requires SortedByTs(s)
    ensures SortedByTs(Cleaned(s, parisTime, hourly))
  {
    ShiftedSorted(s);
    if hourly {
      OnTheHourSorted(if parisTime then Shifted(s) else s);
    }
  }

  /**
   * Cleaning a permutation of `raw` yields records that come from `raw`: shifted by one hour
   * when asked, and otherwise records of `raw` themselves.
   */
  lemma CleanedFromRaw(raw: seq<Record>, sorted: seq<Record>, parisTime: bool, hourly: bool, y: Record)
    requires multiset(sorted) == multiset(raw) && y in Cleaned(sorted, parisTime, hourly)
    ensures parisTime ==> exists i :: 0 <= i < |raw| && y == Record(raw[i].ts + ParisOffset, raw[i].close)
    ensures !parisTime ==> y in raw
  {
    CleanedMembers(sorted, parisTime, hourly, y);
    if parisTime {
      var j :| 0 <= j < |sorted| && y == ShiftRecord(sorted[j]);
      assert sorted[j] in multiset(raw);
      var i :| 0 <= i < |raw| && raw[i] == sorted[j];
      assert y == Record(raw[i].ts + ParisOffset, raw[i].close);
    } else {
      assert y in multiset(raw);
    }
  }

  /** With the hourly filter, cleaning keeps exactly the whole-hour records, duplicates included. */
  lemma CleanedLength(raw: seq<Record>, parisTime: bool)
    ensures |Cleaned(raw, parisTime, true)| == WholeHourCount(raw)
  {
    var s := if parisTime then Shifted(raw) else raw;
    OnTheHourLength(s);
    ShiftedWholeHourCount(raw);
  }

  /**
   * `load_data` after the read: sort, optional one-hour shift, optional whole-hour filter.
   * The result is ordered and holds exactly the records of `Cleaned`; nothing is deduplicated.
   */
  method LoadData(raw: seq<Record>, parisTime: bool, hourly: bool) returns (df: seq<Record>)
    ensures SortedByTs(df)
    ensures multiset(df) == multiset(Cleaned(raw, parisTime, hourly))
    ensures !parisTime && !hourly ==> multiset(df) == multiset(raw)
    ensures hourly ==> forall k :: 0 <= k < |df| ==> Minute(df[k].ts) == 0
    ensures parisTime ==> forall k :: 0 <= k < |df| ==>
      exists i :: 0 <= i < |raw| && df[k] == Record(raw[i].ts + ParisOffset, raw[i].close)
    ensures !parisTime ==> forall k :: 0 <= k < |df| ==> df[k] in raw
    ensures hourly ==> |df| == WholeHourCount(raw)
  {
    var sorted := SortIndex(raw);
    df := sorted;
    if parisTime {
      df := Shifted(df);
    }
    if hourly {
      df := OnTheHour(df);
    }
    assert df == Cleaned(sorted, parisTime, hourly);
    CleanedSorted(sorted, parisTime, hourly);
    CleanedRespectsPermutation(sorted, raw, parisTime, hourly);
    if hourly {
      CleanedLength(raw, parisTime);
      assert |df| == |multiset(df)|;
    }
    forall k | 0 <= k < |df|
      ensures parisTime ==> exists i :: 0 <= i < |raw| && df[k] == Record(raw[i].ts + ParisOffset, raw[i].close)
      ensures !parisTime ==> df[k] in raw
    {
      CleanedFromRaw(raw, sorted, parisTime, hourly, df[k]);
    }
  }
}
