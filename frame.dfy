/**
 * The in-memory COVID table and the handful of dataframe operations the
 * query layer applies to it: selecting one country's rows, selecting the rows
 * of a list of countries, dropping rows whose metric is missing, the maximum
 * date, the first row carrying a given date, and sorting by date.
 */
module Frame {
  import opened Wrappers

  /** One row of the dataset. A metric that is absent from `metrics`, or mapped
      to `None`, is a missing (NaN) cell. Dates are totally ordered integers. */
  datatype Row = Row(country: string, date: int, population: int, metrics: map<string, Option<int>>)

  /** The table: its metric columns and its rows, in file order. */
  datatype Dataset = Dataset(columns: set<string>, rows: seq<Row>)

  /** The cell of metric `m` in row `r`. */
  function Cell(r: Row, m: string): Option<int>
  {
    if m in r.metrics then r.metrics[m] else None
  }

  predicate Present(r: Row, m: string)
  {
    Cell(r, m).Some?
  }

  /** Some row of `rows` has a non-missing value of `m`. */
  predicate HasPresent(rows: seq<Row>, m: string)
  {
    exists i :: 0 <= i < |rows| && Present(rows[i], m)
  }

  // ---------------------------------------------------------------------
  // Selecting rows

  /** `df[df['country'] == c]`: the rows of country `c`, in table order. */
  function CountryRows(rows: seq<Row>, c: string): (r: seq<Row>)
    ensures |r| <= |rows|
    ensures forall x :: x in r <==> x in rows && x.country == c
  {
    if rows == [] then []
    else if rows[0].country == c then [rows[0]] + CountryRows(rows[1..], c)
    else CountryRows(rows[1..], c)
  }

  /** `df[df['country'].isin(cs)]`: the rows of any country listed in `cs`, in table order. */
  function RowsOfCountries(rows: seq<Row>, cs: seq<string>): (r: seq<Row>)
    ensures |r| <= |rows|
    ensures forall x :: x in r <==> x in rows && x.country in cs
  {
    if rows == [] then []
    else if rows[0].country in cs then [rows[0]] + RowsOfCountries(rows[1..], cs)
    else RowsOfCountries(rows[1..], cs)
  }

  /** `df.dropna(subset=[m])`: the rows whose `m` is present, in table order. */
  function DropMissing(rows: seq<Row>, m: string): (r: seq<Row>)
    ensures |r| <= |rows|
    ensures forall x :: x in r <==> x in rows && Present(x, m)
  {
    if rows == [] then []
    else if Present(rows[0], m) then [rows[0]] + DropMissing(rows[1..], m)
    else DropMissing(rows[1..], m)
  }

  /** Selecting a country distributes over concatenation, so it keeps table order. */
  lemma {:induction false} CountryRowsAppend(a: seq<Row>, b: seq<Row>, c: string)
    ensures CountryRows(a + b, c) == CountryRows(a, c) + CountryRows(b, c)
  {
    if a == [] {
      assert a + b == b;
    } else {
      assert (a + b)[1..] == a[1..] + b;
      CountryRowsAppend(a[1..], b, c);
    }
  }

  /** Narrowing to a list of countries first and then to one listed country
      gives the same rows as narrowing to that country directly. */
  lemma {:induction false} CountryRowsOfListed(rows: seq<Row>, cs: seq<string>, c: string)
    requires c in cs
    ensures CountryRows(RowsOfCountries(rows, cs), c) == CountryRows(rows, c)
  {
    if rows != [] {
      CountryRowsOfListed(rows[1..], cs, c);
    }
  }

  /** A country with no rows in the table selects nothing. */
  lemma {:induction false} NoCountryRows(rows: seq<Row>, c: string)
    requires forall x :: x in rows ==> x.country != c
    ensures CountryRows(rows, c) == []
  {
    if rows != [] {
      assert rows[0] in rows;
      NoCountryRows(rows[1..], c);
    }
  }

  /** The last row selected for a country is the last row of that country in
      table order, whatever its date. */
  lemma LastCountryRow(pre: seq<Row>, r: Row, post: seq<Row>, c: string)
    requires r.country == c
    requires forall x :: x in post ==> x.country != c
    ensures var sel := CountryRows(pre + [r] + post, c); sel != [] && sel[|sel| - 1] == r
  {
    CountryRowsAppend(pre + [r], post, c);
    CountryRowsAppend(pre, [r], c);
    NoCountryRows(post, c);
    assert CountryRows([r], c) == [r];
  }

  // ---------------------------------------------------------------------
  // Maximum date and the first row at a date

  /** `['date'].max()` of a non-empty selection. */
  function MaxDate(rows: seq<Row>): (d: int)
    requires rows != []
    ensures exists i :: 0 <= i < |rows| && rows[i].date == d
    ensures forall i :: 0 <= i < |rows| ==> rows[i].date <= d
  {
    if |rows| == 1 then rows[0].date
    else
      var rest := MaxDate(rows[1..]);
      assert forall i :: 1 <= i < |rows| ==> rows[i] == rows[1..][i - 1];
      if rows[0].date > rest then rows[0].date else rest
  }

  predicate HasDate(rows: seq<Row>, d: int)
  {
    exists i :: 0 <= i < |rows| && rows[i].date == d
  }

  /** The position `.values[0]` reads in `df[df['date'] == d]`: the first row,
      in table order, whose date is `d`. */
  function FirstAtDate(rows: seq<Row>, d: int): (k: nat)
    requires HasDate(rows, d)
    ensures k < |rows| && rows[k].date == d
    ensures forall j :: 0 <= j < k ==> rows[j].date != d
  {
    if rows[0].date == d then 0
    else
      assert HasDate(rows[1..], d) by {
        var i :| 0 <= i < |rows| && rows[i].date == d;
        assert rows[1..][i - 1].date == d;
      }
      1 + FirstAtDate(rows[1..], d)
  }

  // ---------------------------------------------------------------------
  // Sorting by date

  predicate SortedByDate(s: seq<Row>)
  {
    forall i, j :: 0 <= i < j < |s| ==> s[i].date <= s[j].date
  }

  /** Inserts `x` after every row dated no later than it. */
  function InsertByDate(x: Row, s: seq<Row>): (r: seq<Row>)
    requires SortedByDate(s)
    ensures SortedByDate(r)
    ensures multiset(r) == multiset(s) + multiset{x}
    ensures |r| == |s| + 1
  {
    if s == [] then [x]
    else if x.date < s[0].date then [x] + s
    else
      var tail := InsertByDate(x, s[1..]);
      assert s == [s[0]] + s[1..];
      InsertedNotEarlier(x, s, tail);
      PrependSorted(s[0], tail);
      [s[0]] + tail
  }

  lemma InsertedNotEarlier(x: Row, s: seq<Row>, tail: seq<Row>)
    requires SortedByDate(s) && s != [] && s[0].date <= x.date
    requires multiset(tail) == multiset(s[1..]) + multiset{x}
    ensures forall y :: y in tail ==> s[0].date <= y.date
  {
    forall y | y in tail
      ensures s[0].date <= y.date
    {
      assert y in multiset(tail);
      if y != x {
        assert y in multiset(s[1..]);
        var i :| 0 <= i < |s[1..]| && s[1..][i] == y;
        assert s[i + 1] == y;
      }
    }
  }

  lemma PrependSorted(y: Row, t: seq<Row>)
    requires SortedByDate(t)
    requires forall z :: z in t ==> y.date <= z.date
    ensures SortedByDate([y] + t)
  {
    var r := [y] + t;
    forall i, j | 0 <= i < j < |r|
      ensures r[i].date <= r[j].date
    {
      assert r[j] == t[j - 1];
      if i > 0 {
        assert r[i] == t[i - 1];
      } else {
        assert t[j - 1] in t;
      }
    }
  }

  /** `sort_values(by='date')`: the rows in ascending date order; rows that
      share a date keep their table order. */
  function SortByDate(rows: seq<Row>): (r: seq<Row>)
    ensures SortedByDate(r)
    ensures multiset(r) == multiset(rows)
    ensures |r| == |rows|
  {
    if rows == [] then []
    else
      var n := |rows| - 1;
      assert rows == rows[..n] + [rows[n]];
      InsertByDate(rows[n], SortByDate(rows[..n]))
  }

  /** After sorting, the last row carries the table's latest date and the
      one before it the latest date among the remaining rows. */
  lemma LastTwoAreLatest(rows: seq<Row>)
    requires |rows| >= 2
    ensures var s := SortByDate(rows); var n := |s|;
      && s[n - 1].date == MaxDate(rows)
      && (forall i :: 0 <= i < n - 1 ==> s[i].date <= s[n - 2].date)
  {
    SortedLastIsLatest(rows, SortByDate(rows));
  }

  lemma SortedLastIsLatest(rows: seq<Row>, s: seq<Row>)
    requires |rows| >= 2 && |s| == |rows|
    requires SortedByDate(s) && multiset(s) == multiset(rows)
    ensures s[|s| - 1].date == MaxDate(rows)
    ensures forall i :: 0 <= i < |s| - 1 ==> s[i].date <= s[|s| - 2].date
  {
    var n := |s|;
    var i :| 0 <= i < |rows| && rows[i].date == MaxDate(rows);
    assert rows[i] in multiset(s);
    var j :| 0 <= j < n && s[j] == rows[i];
    assert s[j].date <= s[n - 1].date;
    assert s[n - 1] in multiset(rows);
    var k :| 0 <= k < |rows| && rows[k] == s[n - 1];
  }

  /** The rows dated `d`, in the order they come in. */
  function OnDate(s: seq<Row>, d: int): seq<Row>
  {
    if s == [] then []
    else if s[0].date == d then [s[0]] + OnDate(s[1..], d)
    else OnDate(s[1..], d)
  }

  lemma {:induction false} OnDateAppend(a: seq<Row>, b: seq<Row>, d: int)
    ensures OnDate(a + b, d) == OnDate(a, d) + OnDate(b, d)
  {
    if a == [] {
      assert a + b == b;
    } else {
      assert (a + b)[0] == a[0] && (a + b)[1..] == a[1..] + b;
      OnDateAppend(a[1..], b, d);
    }
  }

  lemma {:induction false} OnDateOfLater(s: seq<Row>, d: int)
    requires forall i :: 0 <= i < |s| ==> s[i].date > d
    ensures OnDate(s, d) == []
  {
    if s != [] {
      OnDateOfLater(s[1..], d);
    }
  }

  lemma InsertFirstOnDate(x: Row, s: seq<Row>, d: int)
    requires SortedByDate(s) && s != [] && x.date < s[0].date
    ensures OnDate([x] + s, d) == OnDate(s, d) + (if x.date == d then [x] else [])
  {
    OnDateAppend([x], s, d);
    if x.date == d {
      assert forall i :: 0 <= i < |s| ==> s[0].date <= s[i].date;
      OnDateOfLater(s, d);
    }
  }

  /** Inserting a row puts it after the rows already dated like it. */
  lemma {:induction false} InsertByDateOnDate(x: Row, s: seq<Row>, d: int)
    requires SortedByDate(s)
    ensures OnDate(InsertByDate(x, s), d) == OnDate(s, d) + (if x.date == d then [x] else [])
  {
    if s == [] {
    } else if x.date < s[0].date {
      InsertFirstOnDate(x, s, d);
    } else {
      InsertByDateOnDate(x, s[1..], d);
      InsertLaterOnDate(x, s, d);
    }
  }

  lemma InsertLaterOnDate(x: Row, s: seq<Row>, d: int)
    requires SortedByDate(s) && s != [] && s[0].date <= x.date
    requires OnDate(InsertByDate(x, s[1..]), d) == OnDate(s[1..], d) + (if x.date == d then [x] else [])
    ensures OnDate(InsertByDate(x, s), d) == OnDate(s, d) + (if x.date == d then [x] else [])
  {
    var tail := InsertByDate(x, s[1..]);
    var head := OnDate([s[0]], d);
    var added := if x.date == d then [x] else [];
    assert InsertByDate(x, s) == [s[0]] + tail;
    OnDateAppend([s[0]], tail, d);
    assert OnDate(InsertByDate(x, s), d) == head + (OnDate(s[1..], d) + added);
    assert s == [s[0]] + s[1..];
    OnDateAppend([s[0]], s[1..], d);
    assert OnDate(s, d) == head + OnDate(s[1..], d);
  }

  /** The sort is stable: the rows that share a date keep their table order. */
  lemma {:induction false} SortByDateStable(rows: seq<Row>, d: int)
    ensures OnDate(SortByDate(rows), d) == OnDate(rows, d)
  {
    if rows != [] {
      var n := |rows| - 1;
      assert rows == rows[..n] + [rows[n]];
      SortByDateStable(rows[..n], d);
      InsertByDateOnDate(rows[n], SortByDate(rows[..n]), d);
      OnDateAppend(rows[..n], [rows[n]], d);
    }
  }

  /** No two rows share a date. */
  predicate DistinctDates(s: seq<Row>)
  {
    forall i, j :: 0 <= i < j < |s| ==> s[i].date != s[j].date
  }

  /** A row occurring twice in a sequence occurs at two positions. */
  lemma {:induction false} RepeatedRowAt(s: seq<Row>, x: Row)
    requires multiset(s)[x] >= 2
    ensures exists p, q :: 0 <= p < q < |s| && s[p] == x && s[q] == x
  {
    assert s == [s[0]] + s[1..];
    if s[0] == x {
      assert x in multiset(s[1..]);
      var q :| 0 <= q < |s[1..]| && s[1..][q] == x;
      assert s[q + 1] == x;
    } else {
      RepeatedRowAt(s[1..], x);
      var p, q :| 0 <= p < q < |s[1..]| && s[1..][p] == x && s[1..][q] == x;
      assert s[p + 1] == x && s[q + 1] == x;
    }
  }

  /** Reordering rows cannot make two of them share a date. */
  lemma DistinctDatesPermutation(a: seq<Row>, b: seq<Row>)
    requires multiset(a) == multiset(b)
    requires DistinctDates(a)
    ensures DistinctDates(b)
  {
    forall i, j | 0 <= i < j < |b|
      ensures b[i].date != b[j].date
    {
      if b[i] == b[j] {
        assert b == b[..j] + [b[j]] + b[j + 1..];
        assert b[i] in multiset(b[..j]);
        assert multiset(a)[b[i]] >= 2;
        RepeatedRowAt(a, b[i]);
      } else {
        assert b[i] in multiset(a) && b[j] in multiset(a);
        var p :| 0 <= p < |a| && a[p] == b[i];
        var q :| 0 <= q < |a| && a[q] == b[j];
        assert p != q;
      }
    }
  }

  lemma TailMultiset(s: seq<Row>)
    requires s != []
    ensures multiset(s[1..]) == multiset(s) - multiset{s[0]}
  {
    assert s == [s[0]] + s[1..];
  }

  /** Two ascending arrangements of the same rows with distinct dates start alike. */
  lemma SameFirstRow(s1: seq<Row>, s2: seq<Row>)
    requires SortedByDate(s1) && SortedByDate(s2) && DistinctDates(s1)
    requires multiset(s1) == multiset(s2) && s1 != []
    ensures s2 != [] && s1[0] == s2[0]
  {
    assert s1[0] in multiset(s2);
    assert s2 != [];
    assert s2[0] in multiset(s1);
    var j :| 0 <= j < |s2| && s2[j] == s1[0];
    var i :| 0 <= i < |s1| && s1[i] == s2[0];
    assert s1[0].date <= s1[i].date == s2[0].date <= s2[j].date == s1[0].date;
  }

  lemma TailSortedDistinct(s: seq<Row>)
    requires s != [] && SortedByDate(s) && DistinctDates(s)
    ensures SortedByDate(s[1..]) && DistinctDates(s[1..])
  {
    forall i, j | 0 <= i < j < |s| - 1
      ensures s[1..][i].date < s[1..][j].date
    {
      assert s[1..][i] == s[i + 1] && s[1..][j] == s[j + 1];
    }
  }

  /** Rows with distinct dates have exactly one ascending order. */
  lemma {:induction false} SortedDistinctUnique(s1: seq<Row>, s2: seq<Row>)
    requires SortedByDate(s1) && SortedByDate(s2)
    requires DistinctDates(s1) && DistinctDates(s2)
    requires multiset(s1) == multiset(s2)
    ensures s1 == s2
  {
    if s1 == [] {
      assert |multiset(s2)| == 0;
    } else {
      SameFirstRow(s1, s2);
      TailMultiset(s1);
      TailMultiset(s2);
      TailSortedDistinct(s1);
      TailSortedDistinct(s2);
      SortedDistinctUnique(s1[1..], s2[1..]);
      assert s1 == [s1[0]] + s1[1..] && s2 == [s2[0]] + s2[1..];
    }
  }

  /** When no two rows share a date, sorting by date does not depend on the
      order the rows come in. */
  lemma SortByDateOrderFree(a: seq<Row>, b: seq<Row>)
    requires multiset(a) == multiset(b)
    requires DistinctDates(a)
    ensures SortByDate(a) == SortByDate(b)
  {
    DistinctDatesPermutation(a, SortByDate(a));
    DistinctDatesPermutation(a, SortByDate(b));
    SortedDistinctUnique(SortByDate(a), SortByDate(b));
  }
}
