/**
 * The "latest present value" lookup shared by the summary, comparison and
 * vaccination queries: the maximum date among the rows whose metric is
 * present, and the metric read from the first row (in table order) carrying
 * that date.
 */
module LatestValue {
  import opened Wrappers
  import opened Frame

  /** A metric's latest date and the value read there. The value is `None`
      when the first row at that date has the metric missing, which can only
      happen when several rows share the date. */
  datatype Latest = Latest(date: int, value: Option<int>)

  /** `d` is the largest date among the rows where `m` is present. */
  ghost predicate IsLatestPresentDate(rows: seq<Row>, m: string, d: int)
  {
    && (exists i :: 0 <= i < |rows| && Present(rows[i], m) && rows[i].date == d)
    && (forall i :: 0 <= i < |rows| && Present(rows[i], m) ==> rows[i].date <= d)
  }

  /** `l` carries the latest present date of `m` and the cell of `m` in the
      first row, in table order, dated `l.date`. */
  ghost predicate IsLatestOf(rows: seq<Row>, m: string, l: Latest)
  {
    && IsLatestPresentDate(rows, m, l.date)
    && exists k ::
         && 0 <= k < |rows|
         && rows[k].date == l.date
         && (forall j :: 0 <= j < k ==> rows[j].date != l.date)
         && l.value == Cell(rows[k], m)
  }

  /** The inner `get_latest_value(df, metric)`: dropna on the metric, maximum
      date, then `.values[0]` of the rows at that date. */
  function GetLatestValue(rows: seq<Row>, m: string): (l: Latest)
    requires HasPresent(rows, m)
    ensures IsLatestOf(rows, m, l)
  {
    var present := DropMissing(rows, m);
    var i0 :| 0 <= i0 < |rows| && Present(rows[i0], m);
    assert rows[i0] in present;
    var d := MaxDate(present);
    assert IsLatestPresentDate(rows, m, d) by {
      var p :| 0 <= p < |present| && present[p].date == d;
      assert present[p] in present;
      var i :| 0 <= i < |rows| && rows[i] == present[p];
      assert Present(rows[i], m) && rows[i].date == d;
      forall i | 0 <= i < |rows| && Present(rows[i], m)
        ensures rows[i].date <= d
      {
        assert rows[i] in present;
      }
    }
    var k := FirstAtDate(rows, d);
    Latest(d, Cell(rows[k], m))
  }

  // ---------------------------------------------------------------------
  // Properties of the lookup

  /** The description in `IsLatestOf` leaves no choice: it fixes both the
      date and the value. */
  lemma LatestIsUnique(rows: seq<Row>, m: string, l1: Latest, l2: Latest)
    requires IsLatestOf(rows, m, l1) && IsLatestOf(rows, m, l2)
    ensures l1 == l2
  {
    var i1 :| 0 <= i1 < |rows| && Present(rows[i1], m) && rows[i1].date == l1.date;
    var i2 :| 0 <= i2 < |rows| && Present(rows[i2], m) && rows[i2].date == l2.date;
    assert l1.date == l2.date;
    var k1 :| 0 <= k1 < |rows| && rows[k1].date == l1.date
      && (forall j :: 0 <= j < k1 ==> rows[j].date != l1.date) && l1.value == Cell(rows[k1], m);
    var k2 :| 0 <= k2 < |rows| && rows[k2].date == l2.date
      && (forall j :: 0 <= j < k2 ==> rows[j].date != l2.date) && l2.value == Cell(rows[k2], m);
    assert k1 == k2;
  }

  /** A row appended with the metric missing changes neither the latest
      date nor the value, even when it is dated later than every other row. */
  lemma AppendedMissingIgnored(rows: seq<Row>, r: Row, m: string)
    requires HasPresent(rows, m)
    requires !Present(r, m)
    ensures HasPresent(rows + [r], m)
    ensures GetLatestValue(rows + [r], m) == GetLatestValue(rows, m)
  {
    var l := GetLatestValue(rows, m);
    AppendedMissingKeepsLatest(rows, r, m, l);
    LatestIsUnique(rows + [r], m, l, GetLatestValue(rows + [r], m));
  }

  lemma AppendedMissingKeepsLatest(rows: seq<Row>, r: Row, m: string, l: Latest)
    requires IsLatestOf(rows, m, l)
    requires !Present(r, m)
    ensures HasPresent(rows + [r], m)
    ensures IsLatestOf(rows + [r], m, l)
  {
    var ext := rows + [r];
    var i :| 0 <= i < |rows| && Present(rows[i], m) && rows[i].date == l.date;
    assert ext[i] == rows[i];
    forall j | 0 <= j < |ext| && Present(ext[j], m)
      ensures ext[j].date <= l.date
    {
      assert j < |rows| && ext[j] == rows[j];
    }
    var k :| 0 <= k < |rows| && rows[k].date == l.date
      && (forall j :: 0 <= j < k ==> rows[j].date != l.date) && l.value == Cell(rows[k], m);
    assert ext[k] == rows[k];
    forall j | 0 <= j < k
      ensures ext[j].date != l.date
    {
      assert ext[j] == rows[j];
    }
  }

  /** When no two rows share a date, the value read is the metric's value
      in the one row dated at its latest present date: never missing. */
  lemma DistinctDatesGivePresentValue(rows: seq<Row>, m: string)
    requires HasPresent(rows, m)
    requires DistinctDates(rows)
    ensures GetLatestValue(rows, m).value.Some?
    ensures exists i :: 0 <= i < |rows| && rows[i].date == GetLatestValue(rows, m).date
                        && GetLatestValue(rows, m).value == Cell(rows[i], m)
                        && Present(rows[i], m)
  {
    var l := GetLatestValue(rows, m);
    var i :| 0 <= i < |rows| && Present(rows[i], m) && rows[i].date == l.date;
    var k :| 0 <= k < |rows| && rows[k].date == l.date
      && (forall j :: 0 <= j < k ==> rows[j].date != l.date) && l.value == Cell(rows[k], m);
    assert k == i;
  }

  /** The lookup of `m` reads only the dates and the cells of `m`: tables
      that agree on those give the same result whatever their other metrics
      hold, so every metric gets its own latest date. */
  lemma LatestReadsOnlyItsMetric(a: seq<Row>, b: seq<Row>, m: string)
    requires |a| == |b|
    requires forall i :: 0 <= i < |a| ==> a[i].date == b[i].date && Cell(a[i], m) == Cell(b[i], m)
    requires HasPresent(a, m)
    ensures HasPresent(b, m)
    ensures GetLatestValue(a, m) == GetLatestValue(b, m)
  {
    var l := GetLatestValue(a, m);
    var i :| 0 <= i < |a| && Present(a[i], m) && a[i].date == l.date;
    assert Present(b[i], m);
    var k :| 0 <= k < |a| && a[k].date == l.date
      && (forall j :: 0 <= j < k ==> a[j].date != l.date) && l.value == Cell(a[k], m);
    assert Present(b[i], m) && b[i].date == l.date;
    forall j | 0 <= j < |b| && Present(b[j], m)
      ensures b[j].date <= l.date
    {
      assert Present(a[j], m);
    }
    forall j | 0 <= j < k
      ensures b[j].date != l.date
    {
      assert a[j].date != l.date;
    }
    assert b[k].date == l.date && l.value == Cell(b[k], m);
    assert IsLatestOf(b, m, l);
    LatestIsUnique(b, m, l, GetLatestValue(b, m));
  }

  /** Two rows on increasing dates: the later row wins when it has the
      metric, otherwise the earlier one. */
  lemma LatestOfTwoRows(r1: Row, r2: Row, m: string)
    requires r1.date < r2.date
    requires Present(r1, m) || Present(r2, m)
    ensures HasPresent([r1, r2], m)
    ensures GetLatestValue([r1, r2], m) ==
      if Present(r2, m) then Latest(r2.date, Cell(r2, m)) else Latest(r1.date, Cell(r1, m))
  {
    var rows := [r1, r2];
    assert Present(rows[0], m) || Present(rows[1], m);
    var l := if Present(r2, m) then Latest(r2.date, Cell(r2, m)) else Latest(r1.date, Cell(r1, m));
    assert IsLatestOf(rows, m, l) by {
      if Present(r2, m) {
        assert rows[1].date == l.date && rows[0].date != l.date;
      } else {
        assert rows[0].date == l.date;
      }
    }
    LatestIsUnique(rows, m, l, GetLatestValue(rows, m));
  }

  /** With a repeated date the value can be missing although the metric is
      present on that very date: `.values[0]` reads the first row at the date. */
  lemma RepeatedDateCanHideValue()
    ensures var rows := [Row("Testland", 3, 100, map["new_cases" := None]),
                         Row("Testland", 3, 100, map["new_cases" := Some(9)])];
            HasPresent(rows, "new_cases") && GetLatestValue(rows, "new_cases") == Latest(3, None)
  {
    var rows := [Row("Testland", 3, 100, map["new_cases" := None]),
                 Row("Testland", 3, 100, map["new_cases" := Some(9)])];
    assert Present(rows[1], "new_cases");
    var l := GetLatestValue(rows, "new_cases");
    var k :| 0 <= k < |rows| && rows[k].date == l.date
      && (forall j :: 0 <= j < k ==> rows[j].date != l.date) && l.value == Cell(rows[k], "new_cases");
    assert l.date == 3;
    assert k == 0;
  }
}
