# COVID-19 query layer, modelled in Dafny

The covid CLI's chat agent answers questions about the Our World in Data
COVID-19 table through four query tools in `src/covid_cli/agent.py`:

- `get_latest_summary(country)`: the latest new cases, new deaths and new
  vaccinations of a country, each with the date it was last reported.
- `get_trend(country, metric, window)`: sorts the country's rows by date and
  takes a trailing moving average of the metric. It then calls the metric
  increasing, decreasing or stable by comparing the last two averages.
- `compare_countries(countries, metric)`: one entry per listed country. Each
  entry holds that country's latest value and date, or the error
  "No data found".
- `get_vaccination_progress(country)`: people vaccinated, people fully
  vaccinated and total boosters, each with its latest date and its share of
  the population.

The project models these four queries and the inner lookup
`get_latest_value`. Each query takes the table as an argument, so its result
depends on that table alone.

- `wrappers.dfy`: `Option`. A missing (NaN) cell or an undefined average is
  `None`.
- `frame.dfy`, module `Frame`: the table and the dataframe operations the
  queries use. These are the country filter, the `isin` filter, `dropna`, the
  maximum date, the first row at a date (`.values[0]`) and the sort by date.
- `rolling.dfy`, module `Rolling`: `rolling(window).mean()` with pandas'
  default `min_periods == window`. It has a reference definition per position
  and a loop that computes the whole column.
- `latest.dfy`, module `LatestValue`: `get_latest_value`. It returns the
  latest date at which the metric is present. The value is read from the first
  row, in table order, dated on that day.
- `agent.dfy`, module `Agent`: the four queries, metric-name normalisation,
  the trend classification and the population share.

Where pandas would raise, the model has a precondition instead:

- the metric has no present value for a country that has rows (`max` of an
  empty column is NaN, so `.values[0]` fails);
- the trend is asked for a country with a single row (`.iloc[-2]`);
- the trend's metric is not a column of the table;
- the window is negative.

A country with no rows is not an error of the model. It is the
"No data found" result, modelled in every query.

## Model

| member | source | states |
|---|---|---|
| Frame.CountryRows | src/covid_cli/agent.py:21 | The selection holds exactly the table's rows of that country and is no longer than the table. |
| Frame.RowsOfCountries | src/covid_cli/agent.py:81 | The `isin` filter holds exactly the rows whose country is listed. |
| Frame.DropMissing | src/covid_cli/agent.py:26 | `dropna` keeps exactly the rows where the metric is present. |
| Frame.CountryRowsOfListed | src/covid_cli/agent.py:81-85 | Selecting a listed country from the `isin`-filtered table gives the same rows as selecting it from the whole table. |
| Frame.LastCountryRow | src/covid_cli/agent.py:115 | `.iloc[-1]` of a country's selection is the country's last row in table order, whatever comes after it. |
| Frame.MaxDate | src/covid_cli/agent.py:26 | The maximum is one of the dates and bounds all of them. |
| Frame.FirstAtDate | src/covid_cli/agent.py:27 | The position read is a row with that date, and no earlier row has that date. |
| Frame.SortByDate | src/covid_cli/agent.py:55 | The result is in ascending date order and is a permutation of the rows. |
| Frame.SortByDateStable | src/covid_cli/agent.py:55 | Rows that share a date stay in their table order. |
| Frame.SortByDateOrderFree | src/covid_cli/agent.py:55 | When no two rows share a date, any permutation of the rows sorts to the same sequence. |
| Frame.LastTwoAreLatest | src/covid_cli/agent.py:55-59 | After the sort, `.iloc[-1]` carries the table's maximum date, and `.iloc[-2]` carries the latest date among all the other rows. |
| Rolling.RollingMean | src/covid_cli/agent.py:56 | The computed column has one entry per row, and each entry equals the reference moving average at that position. |
| Rolling.WindowSumDefined | src/covid_cli/agent.py:56 | A window's sum is defined exactly when every cell in the window is present. |
| Rolling.MeanDefined | src/covid_cli/agent.py:56 | An average is defined iff all of these hold: the window is non-empty, it fits before the position, and none of its cells is missing. |
| Rolling.MeanOfSingleWindow | src/covid_cli/agent.py:56 | With a window of one, the average at a position is that position's value. |
| Rolling.MeanWithinBounds | src/covid_cli/agent.py:56 | A defined average lies between any lower and upper bound of the values in its window. |
| LatestValue.GetLatestValue | src/covid_cli/agent.py:25-28 | The date is the latest date at which the metric is present. The value is the metric's cell in the first row, in table order, at that date. |
| LatestValue.LatestIsUnique | src/covid_cli/agent.py:25-28 | That description determines both the date and the value. |
| LatestValue.AppendedMissingIgnored | src/covid_cli/agent.py:26 | A row appended after the others with the metric missing does not change the result, even if it is dated later than every other row. (A missing-metric row placed earlier on the latest present date can change the value, as `LatestValue.RepeatedDateCanHideValue` shows.) |
| LatestValue.DistinctDatesGivePresentValue | src/covid_cli/agent.py:26-27 | When no two rows share a date, the value is present and comes from the row at the latest present date. |
| LatestValue.RepeatedDateCanHideValue | src/covid_cli/agent.py:27 | With a repeated date, the value can be missing even though the metric is present on that date. |
| LatestValue.LatestOfTwoRows | src/covid_cli/agent.py:25-28 | For two rows on increasing dates, the later row wins when it has the metric; otherwise the earlier row does. |
| LatestValue.LatestReadsOnlyItsMetric | src/covid_cli/agent.py:30-32 | A lookup reads only the dates and the cells of its own metric, so each metric gets its own latest date. |
| Agent.NormalizeMetric | src/covid_cli/agent.py:48 | Normalisation keeps the length and leaves no space behind. |
| Agent.NormalizeMetricAt | src/covid_cli/agent.py:48 | Each space becomes an underscore, and every other character is kept in place. |
| Agent.NormalizeMetricFixesSpaceFree | src/covid_cli/agent.py:79 | A metric name without spaces is unchanged. |
| Agent.NormalizeMetricIdempotent | src/covid_cli/agent.py:79 | Normalising twice gives the same result as normalising once. |
| Agent.GetLatestSummary | src/covid_cli/agent.py:16-42 | The result is "No data found for <country>." exactly when the country has no rows. Otherwise it names the country, and each of the three metrics carries its own latest present date and the value there. |
| Agent.SummaryDatesAreIndependent | src/covid_cli/agent.py:30-41 | In one summary, cases and deaths can carry different latest dates. |
| Agent.Classify | src/covid_cli/agent.py:61-66 | The trend is increasing exactly when both averages are defined and the latest is greater. It is decreasing exactly when both are defined and the latest is smaller. Otherwise it is stable. |
| Agent.GetTrend | src/covid_cli/agent.py:44-73 | The result is "No data found for <country>." exactly when the country has no rows. Otherwise it echoes the country, the normalised metric and the window. Its trend is the classification of the last two moving averages over the date-sorted rows. |
| Agent.TrendOfSingleWindow | src/covid_cli/agent.py:56-66 | With a window of one, the trend compares the metric in the last two rows in date order. |
| Agent.TrendOfTwoDays | src/covid_cli/agent.py:54-66 | Take two dated values listed latest first, with a window of one. The trend is increasing iff the later value is larger, and stable iff the two are equal. |
| Agent.WideWindowIsStable | src/covid_cli/agent.py:56-66 | A window at least as long as the country's history gives stable. |
| Agent.ZeroWindowIsStable | src/covid_cli/agent.py:56-66 | A window of zero gives stable. |
| Agent.MissingRecentValueIsStable | src/covid_cli/agent.py:56-66 | A missing value anywhere in the latest window gives stable. |
| Agent.TrendIgnoresRowOrder | src/covid_cli/agent.py:54-55 | When the country's dates are distinct, the trend does not depend on the order of its rows in the table. |
| Agent.CompareCountries | src/covid_cli/agent.py:75-96 | The result echoes the normalised metric and has one entry per listed country, in list order. Entry i names country i. It is "No data found" exactly when that country has no rows, and otherwise holds the metric's latest present date and value. |
| Agent.EntryIsUnique | src/covid_cli/agent.py:84-91 | An entry is determined by its own country alone. A country listed twice gets the same entry twice, and other countries cannot affect it. |
| Agent.CompareAgreesWithSummary | src/covid_cli/agent.py:89-90 | Comparing new cases gives the same date and value as the summary's cases for that country, and fails exactly when the summary does. |
| Agent.Share | src/covid_cli/agent.py:121 | The share is defined exactly when the value is present and the population is not zero. |
| Agent.ShareTimesPopulation | src/covid_cli/agent.py:121-127 | A defined share multiplied by the population gives back the count. |
| Agent.ReadingOf | src/covid_cli/agent.py:112-127 | Each vaccination metric is the latest present value with its date, and its share of the population given. |
| Agent.GetVaccinationProgress | src/covid_cli/agent.py:98-128 | The result is "No data found for <country>." exactly when the country has no rows. Otherwise each of the three metrics holds its latest present date and value, and that value's share of the population in the country's last row. |
| Agent.ShareUsesLastRowPopulation | src/covid_cli/agent.py:115 | The population behind every share is the one in the country's last row in table order. |

## Left out

- `get_covid_data` (HTTP download and CSV parsing) is not modelled. Every query takes the parsed table as an argument, so the model has no refetch per query.
- The `root_agent` definition and the language-model framework it plugs into are not modelled. They are configuration, not logic.
- `main.py` (the command-line loop) and `animation.py` (terminal animation) are not modelled. They are I/O.
- Dates are integers. `pd.to_datetime` parsing is not modelled.
- Metrics are integers, and averages and shares are exact rationals. Floating-point rounding is not modelled.
- The `:.2%` percentage formatting is not modelled. A share is the ratio itself.
- Division by a zero population, which gives inf or NaN in pandas, is an undefined share (`None`). A NaN population is not modelled.
- Frame.SortByDate: pandas' default sort is not guaranteed to keep the table order of rows that share a date, but the model's sort does. The model's results therefore match pandas only when no two rows share a date. `Frame.SortByDateOrderFree` and `Agent.TrendIgnoresRowOrder` prove that in that case the order of the rows does not matter.
- The vaccination percentages use the population of the country's last row in table order, as the code does. This need not be the row with the latest date.
- The population is the row field `population`, which the vaccination shares read. A table may also list `population` among its metrics, which `compare_countries` and `get_trend` read as a metric cell. The model does not require the two to agree.
- A column made only of missing values is modelled as missing cells. Pandas dtype changes, such as an all-NaN column read as float, are not modelled.
