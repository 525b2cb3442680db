/**
 * The four query tools the chat agent can call: the latest summary of a
 * country, the moving-average trend of one metric, a comparison of one metric
 * across countries, and vaccination progress relative to population. Every
 * query works on the table passed in; fetching and parsing it is not modelled.
 */
module Agent {
  import opened Wrappers
  import opened Frame
  import opened Rolling
  import opened LatestValue

  const NewCases := "new_cases"
  const NewDeaths := "new_deaths"
  const NewVaccinations := "new_vaccinations"
  const PeopleVaccinated := "people_vaccinated"
  const PeopleFullyVaccinated := "people_fully_vaccinated"
  const TotalBoosters := "total_boosters"

  /** The error record of a single-country query whose country has no rows. */
  function NotFoundMessage(country: string): string
  {
    "No data found for " + country + "."
  }

  /** The error entry `compare_countries` records for a country without rows. */
  const NoDataFound := "No data found"

  // ---------------------------------------------------------------------
  // Metric names

  /** `metric.replace(" ", "_")`. */
  function NormalizeMetric(s: string): (r: string)
    ensures |r| == |s|
    ensures ' ' !in r
  {
    if s == [] then [] else [if s[0] == ' ' then '_' else s[0]] + NormalizeMetric(s[1..])
  }

  /** Each space becomes an underscore; every other character is kept in place. */
  lemma {:induction false} NormalizeMetricAt(s: string, i: nat)
    requires i < |s|
    ensures NormalizeMetric(s)[i] == if s[i] == ' ' then '_' else s[i]
  {
    if i > 0 {
      NormalizeMetricAt(s[1..], i - 1);
    }
  }

  /** A name without spaces is already normal. */
  lemma {:induction false} NormalizeMetricFixesSpaceFree(s: string)
    requires ' ' !in s
    ensures NormalizeMetric(s) == s
  {
    if s != [] {
      assert ' ' !in s[1..];
      NormalizeMetricFixesSpaceFree(s[1..]);
      assert s == [s[0]] + s[1..];
    }
  }

  lemma NormalizeMetricIdempotent(s: string)
    ensures NormalizeMetric(NormalizeMetric(s)) == NormalizeMetric(s)
  {
    NormalizeMetricFixesSpaceFree(NormalizeMetric(s));
  }

  // ---------------------------------------------------------------------
  // get_latest_summary

  datatype Summary =
    | SummaryNotFound(message: string)
    | Summary(country: string, cases: Latest, deaths: Latest, vaccinations: Latest)

  /** Where the source does not fail: a country with rows has each of the
      three metrics present in at least one of them. */
  predicate SummaryDefined(data: Dataset, country: string)
  {
    var rows := CountryRows(data.rows, country);
    rows != [] ==>
      HasPresent(rows, NewCases) && HasPresent(rows, NewDeaths) && HasPresent(rows, NewVaccinations)
  }

  function GetLatestSummary(data: Dataset, country: string): (s: Summary)
    requires SummaryDefined(data, country)
    ensures s.SummaryNotFound? <==> CountryRows(data.rows, country) == []
    ensures s.SummaryNotFound? ==> s.message == NotFoundMessage(country)
    ensures s.Summary? ==>
      && s.country == country
      && IsLatestOf(CountryRows(data.rows, country), NewCases, s.cases)
      && IsLatestOf(CountryRows(data.rows, country), NewDeaths, s.deaths)
      && IsLatestOf(CountryRows(data.rows, country), NewVaccinations, s.vaccinations)
  {
    var rows := CountryRows(data.rows, country);
    if rows == [] then SummaryNotFound(NotFoundMessage(country))
    else
      Summary(country,
              GetLatestValue(rows, NewCases),
              GetLatestValue(rows, NewDeaths),
              GetLatestValue(rows, NewVaccinations))
  }

  /** Each metric gets its own latest date: here cases were last reported on
      day 2 and deaths on day 1, and the summary reports both. */
  lemma SummaryDatesAreIndependent()
    ensures var data := Dataset({NewCases, NewDeaths, NewVaccinations}, [
              Row("Testland", 1, 100, map[NewCases := Some(5), NewDeaths := Some(2), NewVaccinations := Some(1)]),
              Row("Testland", 2, 100, map[NewCases := Some(7), NewDeaths := None, NewVaccinations := Some(4)])]);
            SummaryDefined(data, "Testland")
            && GetLatestSummary(data, "Testland") ==
               Summary("Testland", Latest(2, Some(7)), Latest(1, Some(2)), Latest(2, Some(4)))
  {
    var r1 := Row("Testland", 1, 100, map[NewCases := Some(5), NewDeaths := Some(2), NewVaccinations := Some(1)]);
    var r2 := Row("Testland", 2, 100, map[NewCases := Some(7), NewDeaths := None, NewVaccinations := Some(4)]);
    var data := Dataset({NewCases, NewDeaths, NewVaccinations}, [r1, r2]);
    var rows := [r1, r2];
    assert CountryRows(data.rows, "Testland") == rows by {
      assert data.rows[1..] == [r2];
    }
    assert SummaryDefined(data, "Testland") by {
      assert Present(rows[0], NewDeaths) && Present(rows[1], NewCases) && Present(rows[1], NewVaccinations);
    }
    LatestOfTwoRows(r1, r2, NewCases);
    LatestOfTwoRows(r1, r2, NewDeaths);
    LatestOfTwoRows(r1, r2, NewVaccinations);
  }

  // ---------------------------------------------------------------------
  // get_trend

  datatype Trend = Increasing | Decreasing | Stable

  datatype TrendResult =
    | TrendNotFound(message: string)
    | TrendReport(country: string, metric: string, window: int, trend: Trend)

  /** Python's `a > b` on two averages: false when either is NaN. */
  predicate Above(a: Option<real>, b: Option<real>)
  {
    a.Some? && b.Some? && a.value > b.value
  }

  /** The if/elif/else on the latest and previous average. */
  function Classify(latest: Option<real>, previous: Option<real>): (t: Trend)
    ensures t == Increasing <==> latest.Some? && previous.Some? && latest.value > previous.value
    ensures t == Decreasing <==> latest.Some? && previous.Some? && latest.value < previous.value
  {
    if Above(latest, previous) then Increasing
    else if Above(previous, latest) then Decreasing
    else Stable
  }

  /** A cell as a float, NaN staying NaN. */
  function AsReal(v: Option<int>): Option<real>
  {
    if v.Some? then Some(v.value as real) else None
  }

  /** The metric column of a selection, in its order. */
  function Column(rows: seq<Row>, m: string): seq<Option<int>>
  {
    seq(|rows|, i requires 0 <= i < |rows| => Cell(rows[i], m))
  }

  /** The classification over rows already in date order: take the moving
      average and compare its last two positions. */
  function TrendOfSorted(s: seq<Row>, m: string, window: nat): Trend
    requires |s| >= 2
  {
    var vals := Column(s, m);
    Classify(MeanAt(vals, window, |s| - 1), MeanAt(vals, window, |s| - 2))
  }

  /** The trend of metric `m` over one country's rows: sort them by date,
      then classify. */
  function TrendOf(rows: seq<Row>, m: string, window: nat): Trend
    requires |rows| >= 2
  {
    TrendOfSorted(SortByDate(rows), m, window)
  }

  /** Where the source does not fail: a country with rows has at least two
      of them (for `.iloc[-2]`) and the metric is a column of the table. */
  predicate TrendDefined(data: Dataset, country: string, m: string)
  {
    var rows := CountryRows(data.rows, country);
    rows != [] ==> |rows| >= 2 && m in data.columns
  }

  method GetTrend(data: Dataset, country: string, metric: string, window: int) returns (r: TrendResult)
    requires window >= 0
    requires TrendDefined(data, country, NormalizeMetric(metric))
    ensures r.TrendNotFound? <==> CountryRows(data.rows, country) == []
    ensures r.TrendNotFound? ==> r.message == NotFoundMessage(country)
    ensures r.TrendReport? ==>
      && r.country == country
      && r.metric == NormalizeMetric(metric)
      && r.window == window
      && r.trend == TrendOf(CountryRows(data.rows, country), r.metric, window)
  {
    var m := NormalizeMetric(metric);
    var rows := CountryRows(data.rows, country);
    if rows == [] {
      return TrendNotFound(NotFoundMessage(country));
    }
    var sorted := SortByDate(rows);
    var vals := Column(sorted, m);
    var averages := RollingMean(vals, window);
    var n := |averages|;
    assert averages[n - 1] == MeanAt(vals, window, n - 1);
    assert averages[n - 2] == MeanAt(vals, window, n - 2);
    var trend := Classify(averages[n - 1], averages[n - 2]);
    assert trend == TrendOfSorted(sorted, m, window);
    r := TrendReport(country, m, window, trend);
  }

  lemma SortedSingleWindow(s: seq<Row>, m: string)
    requires |s| >= 2
    ensures TrendOfSorted(s, m, 1) == Classify(AsReal(Cell(s[|s| - 1], m)), AsReal(Cell(s[|s| - 2], m)))
  {
    var n := |s|;
    var vals := Column(s, m);
    assert vals[n - 1] == Cell(s[n - 1], m) && vals[n - 2] == Cell(s[n - 2], m);
    MeanOfSingleWindow(vals, n - 1);
    MeanOfSingleWindow(vals, n - 2);
  }

  /** With a window of one the trend compares the metric in the last two
      rows in date order (the two latest-dated, by `LastTwoAreLatest`)
      directly; a missing cell in either gives Stable. */
  lemma TrendOfSingleWindow(rows: seq<Row>, m: string)
    requires |rows| >= 2
    ensures var s := SortByDate(rows); var n := |s|;
      TrendOf(rows, m, 1) == Classify(AsReal(Cell(s[n - 1], m)), AsReal(Cell(s[n - 2], m)))
  {
    SortedSingleWindow(SortByDate(rows), m);
  }

  /** A window as wide as the country's history leaves the previous average
      undefined, so the trend is Stable. */
  lemma WideWindowIsStable(rows: seq<Row>, m: string, window: nat)
    requires |rows| >= 2 && window >= |rows|
    ensures TrendOf(rows, m, window) == Stable
  {
    var vals := Column(SortByDate(rows), m);
    MeanDefined(vals, window, |vals| - 2);
  }

  /** A window of zero leaves every average undefined, so the trend is Stable. */
  lemma ZeroWindowIsStable(rows: seq<Row>, m: string)
    requires |rows| >= 2
    ensures TrendOf(rows, m, 0) == Stable
  {
  }

  lemma SortedMissingRecentValue(s: seq<Row>, m: string, window: nat, k: nat)
    requires |s| >= 2
    requires k < |s| && k + window >= |s|
    requires !Present(s[k], m)
    ensures TrendOfSorted(s, m, window) == Stable
  {
    var vals := Column(s, m);
    var n := |vals|;
    assert vals[k] == Cell(s[k], m) == None;
    MeanDefined(vals, window, n - 1);
    if window <= n {
      assert !AllPresent(vals, n - window, n);
    }
  }

  /** A missing metric anywhere in the last `window` rows by date makes the
      latest average undefined, so the trend is Stable. */
  lemma MissingRecentValueIsStable(rows: seq<Row>, m: string, window: nat, k: nat)
    requires |rows| >= 2
    requires k < |rows| && k + window >= |rows|
    requires !Present(SortByDate(rows)[k], m)
    ensures TrendOf(rows, m, window) == Stable
  {
    SortedMissingRecentValue(SortByDate(rows), m, window, k);
  }

  /** When no two of the country's rows share a date, the trend does not
      depend on the order the rows come in. */
  lemma TrendIgnoresRowOrder(a: seq<Row>, b: seq<Row>, m: string, window: nat)
    requires |a| >= 2
    requires multiset(a) == multiset(b)
    requires DistinctDates(a)
    ensures |b| == |a|
    ensures TrendOf(a, m, window) == TrendOf(b, m, window)
  {
    assert |b| == |multiset(b)| == |multiset(a)| == |a|;
    SortByDateOrderFree(a, b);
  }

  /** Two new-cases values on consecutive dates, listed latest first: with a
      window of one the trend is Increasing when the later value is larger and
      Stable when the two are equal. */
  lemma TrendOfTwoDays(x: int, y: int)
    ensures var rows := [Row("Testland", 2, 100, map[NewCases := Some(y)]),
                         Row("Testland", 1, 100, map[NewCases := Some(x)])];
            && (TrendOf(rows, NewCases, 1) == Increasing <==> y > x)
            && (TrendOf(rows, NewCases, 1) == Stable <==> y == x)
  {
    var later := Row("Testland", 2, 100, map[NewCases := Some(y)]);
    var earlier := Row("Testland", 1, 100, map[NewCases := Some(x)]);
    var rows := [later, earlier];
    assert rows[..1] == [later];
    assert SortByDate(rows[..1]) == [later];
    assert SortByDate(rows) == [earlier, later];
    TrendOfSingleWindow(rows, NewCases);
  }

  // ---------------------------------------------------------------------
  // compare_countries

  datatype Entry =
    | EntryNotFound(country: string, error: string)
    | EntryFound(country: string, latest: Latest)

  datatype Comparison = Comparison(metric: string, entries: seq<Entry>)

  /** `e` is the right comparison entry for country `c` and metric `m`. */
  ghost predicate IsEntryFor(rows: seq<Row>, c: string, m: string, e: Entry)
  {
    var sel := CountryRows(rows, c);
    && e.country == c
    && (e.EntryNotFound? <==> sel == [])
    && (e.EntryNotFound? ==> e.error == NoDataFound)
    && (e.EntryFound? ==> IsLatestOf(sel, m, e.latest))
  }

  /** Where the source does not fail: every listed country that has rows has
      the metric present in at least one of them. */
  predicate CompareDefined(rows: seq<Row>, countries: seq<string>, m: string)
  {
    forall i :: 0 <= i < |countries| && CountryRows(rows, countries[i]) != [] ==>
      HasPresent(CountryRows(rows, countries[i]), m)
  }

  method CompareCountries(data: Dataset, countries: seq<string>, metric: string) returns (r: Comparison)
    requires CompareDefined(data.rows, countries, NormalizeMetric(metric))
    ensures r.metric == NormalizeMetric(metric)
    ensures |r.entries| == |countries|
    ensures forall i :: 0 <= i < |countries| ==> IsEntryFor(data.rows, countries[i], r.metric, r.entries[i])
  {
    var m := NormalizeMetric(metric);
    var listed := RowsOfCountries(data.rows, countries);
    var results: seq<Entry> := [];
    for i := 0 to |countries|
      invariant |results| == i
      invariant forall j :: 0 <= j < i ==> IsEntryFor(data.rows, countries[j], m, results[j])
    {
      var country := countries[i];
      var sel := CountryRows(listed, country);
      CountryRowsOfListed(data.rows, countries, country);
      assert sel == CountryRows(data.rows, country);
      if sel == [] {
        var e := EntryNotFound(country, NoDataFound);
        EntriesExtended(data.rows, countries, m, results, e);
        results := results + [e];
        continue;
      }
      var e := EntryFound(country, GetLatestValue(sel, m));
      EntriesExtended(data.rows, countries, m, results, e);
      results := results + [e];
    }
    r := Comparison(m, results);
  }

  lemma EntriesExtended(rows: seq<Row>, countries: seq<string>, m: string, done: seq<Entry>, e: Entry)
    requires |done| < |countries|
    requires forall j :: 0 <= j < |done| ==> IsEntryFor(rows, countries[j], m, done[j])
    requires IsEntryFor(rows, countries[|done|], m, e)
    ensures forall j :: 0 <= j <= |done| ==> IsEntryFor(rows, countries[j], m, (done + [e])[j])
  {
    forall j | 0 <= j <= |done|
      ensures IsEntryFor(rows, countries[j], m, (done + [e])[j])
    {
      if j < |done| {
        assert (done + [e])[j] == done[j];
      }
    }
  }

  /** An entry is determined by its country alone: a country listed twice
      gets the same entry twice, and other entries cannot affect it. */
  lemma EntryIsUnique(rows: seq<Row>, c: string, m: string, e1: Entry, e2: Entry)
    requires IsEntryFor(rows, c, m, e1) && IsEntryFor(rows, c, m, e2)
    ensures e1 == e2
  {
    if e1.EntryFound? {
      LatestIsUnique(CountryRows(rows, c), m, e1.latest, e2.latest);
    }
  }

  /** Comparing new cases reports, for each country with rows, the same
      date and value as that country's summary. */
  lemma CompareAgreesWithSummary(data: Dataset, c: string, e: Entry)
    requires SummaryDefined(data, c)
    requires IsEntryFor(data.rows, c, NewCases, e)
    ensures GetLatestSummary(data, c).Summary? <==> e.EntryFound?
    ensures e.EntryFound? ==> e.latest == GetLatestSummary(data, c).cases
  {
    var s := GetLatestSummary(data, c);
    if e.EntryFound? {
      LatestIsUnique(CountryRows(data.rows, c), NewCases, e.latest, s.cases);
    }
  }

  // ---------------------------------------------------------------------
  // get_vaccination_progress

  /** A metric's latest value with its share of the population. */
  datatype Reading = Reading(latest: Latest, share: Option<real>)

  datatype Progress =
    | ProgressNotFound(message: string)
    | Progress(country: string, vaccinated: Reading, fullyVaccinated: Reading, boosters: Reading)

  /** `value / population`; `None` where the division yields NaN or an
      infinity (a missing value, or a population of zero). */
  function Share(value: Option<int>, population: int): (r: Option<real>)
    ensures r.Some? <==> value.Some? && population != 0
  {
    if value.Some? && population != 0 then Some(value.value as real / population as real) else None
  }

  /** A defined share times the population gives back the count. */
  lemma ShareTimesPopulation(value: Option<int>, population: int)
    requires Share(value, population).Some?
    ensures Share(value, population).value * population as real == value.value as real
  {
  }

  /** `r` holds the latest value of `m` among `rows` and its share of the
      population recorded in the last of `rows`. */
  ghost predicate IsReadingOf(rows: seq<Row>, m: string, r: Reading)
  {
    && rows != []
    && IsLatestOf(rows, m, r.latest)
    && r.share == Share(r.latest.value, rows[|rows| - 1].population)
  }

  /** One metric's entry of the progress record. */
  function ReadingOf(rows: seq<Row>, m: string, population: int): (r: Reading)
    requires HasPresent(rows, m)
    requires rows != [] && population == rows[|rows| - 1].population
    ensures IsReadingOf(rows, m, r)
  {
    var latest := GetLatestValue(rows, m);
    Reading(latest, Share(latest.value, population))
  }

  /** Where the source does not fail: a country with rows has each of the
      three vaccination metrics present in at least one of them. */
  predicate VaccinationDefined(data: Dataset, country: string)
  {
    var rows := CountryRows(data.rows, country);
    rows != [] ==>
      HasPresent(rows, PeopleVaccinated) && HasPresent(rows, PeopleFullyVaccinated) && HasPresent(rows, TotalBoosters)
  }

  function GetVaccinationProgress(data: Dataset, country: string): (p: Progress)
    requires VaccinationDefined(data, country)
    ensures p.ProgressNotFound? <==> CountryRows(data.rows, country) == []
    ensures p.ProgressNotFound? ==> p.message == NotFoundMessage(country)
    ensures p.Progress? ==>
      var rows := CountryRows(data.rows, country);
      && p.country == country
      && IsReadingOf(rows, PeopleVaccinated, p.vaccinated)
      && IsReadingOf(rows, PeopleFullyVaccinated, p.fullyVaccinated)
      && IsReadingOf(rows, TotalBoosters, p.boosters)
  {
    var rows := CountryRows(data.rows, country);
    if rows == [] then ProgressNotFound(NotFoundMessage(country))
    else
      var population := rows[|rows| - 1].population;
      Progress(country,
               ReadingOf(rows, PeopleVaccinated, population),
               ReadingOf(rows, PeopleFullyVaccinated, population),
               ReadingOf(rows, TotalBoosters, population))
  }

  /** The population behind a share is that of the country's last row in
      table order, even when an earlier row carries a later date. */
  lemma ShareUsesLastRowPopulation(pre: seq<Row>, last: Row, post: seq<Row>, m: string, r: Reading)
    requires forall x :: x in post ==> x.country != last.country
    requires IsReadingOf(CountryRows(pre + [last] + post, last.country), m, r)
    ensures r.share == Share(r.latest.value, last.population)
  {
    LastCountryRow(pre, last, post, last.country);
    ShareOfLastRow(CountryRows(pre + [last] + post, last.country), m, r);
  }

  lemma ShareOfLastRow(rows: seq<Row>, m: string, r: Reading)
    requires IsReadingOf(rows, m, r)
    ensures r.share == Share(r.latest.value, rows[|rows| - 1].population)
  {
  }
}
