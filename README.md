# Ocean pollution tracker — verified model of the filter/aggregate/colour pipeline

The dashboard loads a table of ocean plastic observations (region, plastic
type, weight in kg, date, coordinates, depth), lets the user pick a set of
regions and a set of plastic types, and draws three views of the rows that
match: total weight per region (bar chart), total weight per calendar month
(line chart) and a map whose markers are coloured by plastic type. This
project models the logic the script itself owns, and proves what it promises:

- **Row filter** (`Filter`): a row is kept exactly when its region is selected
  AND its plastic type is selected; kept rows stay in source order.
- **Group-and-sum** (`GroupSum`): grouping sorts its keys and sums the weights
  per key. The summary is a strictly ascending sequence of (key, total)
  entries, built by inserting the rows one by one. One generic definition
  serves both summaries.
- **Summaries** (`Summaries`): the per-region summary, with regions in string
  order, and the per-month summary. Each date is truncated to its (year,
  month) period, and each period is then re-expanded to the first day of
  its month.
- **Colour assignment** (`Colors`): the five fixed colours, the loop that
  pops a palette colour for every unmapped type of the filtered view
  (`AssignColors`, a method with a loop, proved equal to the reference
  function `Assign`), and the marker lookup with gray fallback.
- **One run** (`Dashboard`): the composed pipeline and the worked scenarios.

Modelling choices:
- Dates come already parsed, as (year, month, day) triples.
- Weights are exact `real`s.
- The region and type selections are inputs.
- The shuffled palette is an input: any sequence of colour names.
- Popping from an empty palette raises an error in the script, which then
  stops. The model returns this as the outcome `PopFromEmpty(type)`.

Behaviour of the code that the model keeps:
- Grouping sorts its keys, so the monthly groups come out in chronological
  order (app.py:35).
- A type left without a colour when the palette is empty makes `pop` raise
  an error (app.py:71). Gray is only the default of the marker lookup
  (app.py:82).
- The colour map is rebuilt from the five fixed entries on every run of the
  script, and the palette is reshuffled each time (app.py:51-67), so a type's
  colour can change between runs.

## Model

| member | source | states |
|---|---|---|
| Filter.FilterRows | app.py:22 | the view is no longer than the table; every row in it passes both tests; every row of the table that passes both tests is in it |
| Filter.FilterMembership | app.py:22 | a row is in the view if and only if it is in the table with a selected region and a selected type |
| Filter.FilterMultiplicity | app.py:22 | a row that passes occurs in the view exactly as often as in the table; a row that fails does not occur |
| Filter.FilterPreservesOrder | app.py:22 | the view is a subsequence of the table (source order kept) |
| Filter.FilterAppend | app.py:22 | filtering a concatenation is the concatenation of the filtered parts |
| Filter.EmptySelectionFiltersAll | app.py:22 | an empty region or type selection gives an empty view, not the whole table |
| Filter.FullSelectionKeepsAll | app.py:16-22 | the default selection (every region and type present) keeps the table unchanged |
| Filter.FilterIdempotent | app.py:22 | filtering the view again with the same selections changes nothing |
| Ordering.MonthTruncationMonotone | app.py:34 | truncating dates to their (year, month) period keeps chronological order: a later date never falls in an earlier period, and a date in an earlier period is strictly earlier |
| Ordering.MonthStartBeginsMonth | app.py:34-36 | a valid date truncated and re-expanded gives the first day of its month: no later than the date, equal to it exactly when the day is 1, no later than any valid date of that month; re-expanding then truncating gives back the period |
| Observations.MonthStart | app.py:36 | a period becomes a day-1 date of the same period, and a valid date whenever the month is valid |
| Ordering.StrLessIsStrictTotalOrder | app.py:25 | the string order used for region keys is irreflexive, transitive and total |
| Ordering.MonthLessIsStrictTotalOrder | app.py:35 | the chronological order of periods is irreflexive, transitive and total |
| GroupSum.InsertKeys | app.py:25 | adding a row's weight adds its key to the keys and grows the summary by at most one entry |
| GroupSum.InsertSum | app.py:25 | adding a row's weight raises the sum of the totals by exactly that weight |
| GroupSum.InsertAscending | app.py:25 | adding a row to a strictly ascending summary keeps it strictly ascending |
| GroupSum.InsertTotalOf | app.py:25 | adding a row raises the total of its own key by its weight and leaves every other key's total alone |
| GroupSum.GroupByKeys | app.py:25 | the summary's keys are exactly the keys of the rows (absent keys get no entry); it has at most one entry per row |
| GroupSum.GroupBySum | app.py:25 | the totals add up to the weight of all rows (nothing dropped or double-counted) |
| GroupSum.GroupByAscending | app.py:25 | the keys come out strictly ascending, so each key has one entry |
| GroupSum.GroupByTotalOf | app.py:25 | the total recorded for any key is the weight of exactly the rows with that key |
| GroupSum.GroupByEntries | app.py:25 | each entry's total is the weight of exactly the rows with its key |
| Summaries.ToTimestamps | app.py:36 | each period entry becomes the day-1 date of that period with the same total, in the same order |
| Summaries.RegionSummaryCorrect | app.py:25 | one entry per region present and none for an absent one; regions in ascending string order; each total is its region's weight; totals add up to the view's weight |
| Summaries.MonthlySummaryKeys | app.py:34-36 | every timestamp is day 1 of the month of some row; every row's month has its timestamp |
| Summaries.MonthlySummaryAscending | app.py:35-36 | the monthly timestamps are in strictly ascending (year, month) order |
| Summaries.MonthlySummaryTotals | app.py:34-36 | each monthly total is the weight of that month's rows; the totals add up to the view's weight |
| Summaries.MonthlySummaryValidDates | app.py:34-36 | rows with valid dates give valid first-of-month timestamps |
| Colors.Distinct | app.py:60 | the distinct values have no duplicates and are exactly the values of the input |
| Colors.DistinctKeepsFirstAppearanceOrder | app.py:60 | the distinct values come out in the order of their first occurrences |
| Colors.UniqueTypes | app.py:60 | the unique types of the view are duplicate-free and are exactly the types of its rows |
| Colors.Unmapped | app.py:69-70 | the types needing a colour are exactly the types without an entry, duplicate-free if the types are |
| Colors.UnmappedOrder | app.py:69-70 | the types needing a colour keep the order in which the loop visits the types: an earlier one occurs earlier among the types |
| Colors.NewTypesInViewOrder | app.py:60-71 | the view's new types come in the order the view's rows first show them; with `ColoringPopsFromEnd` the first new type to appear takes the palette's last colour |
| Colors.AssignColors | app.py:51-71 | the loop over the unique types, starting from the five fixed entries and the palette, computes the reference outcome `Coloring` |
| Colors.AssignOutcome | app.py:69-71 | the loop succeeds if and only if the palette has a colour for every unmapped type; when it fails, it stops at the first unmapped type beyond the palette |
| Colors.AssignKeys | app.py:69-71 | a successful loop keeps every existing entry and maps every type |
| Colors.AssignRemaining | app.py:66-71 | a successful loop leaves the palette without its last entries, one per unmapped type |
| Colors.AssignPopAt | app.py:69-71 | the j-th unmapped type gets the j-th colour from the end of the palette |
| Colors.ColoringSucceedsIff | app.py:60-71 | the script's colouring completes if and only if the palette has a colour for each new type; on failure it names the first type beyond the palette, a type outside the five |
| Colors.ColoringKeepsBaseAndCoversTypes | app.py:51-71 | after the loop the five fixed colours are unchanged and the keys are the five plus every type of the view |
| Colors.ColoringPopsFromEnd | app.py:66-71 | the palette shrinks by exactly the number of new types; the j-th new type gets the j-th colour from its end |
| Colors.NewColorsDistinctAndRemoved | app.py:66-71 | with a duplicate-free palette, the new types get pairwise distinct colours, none of them left in the palette |
| Colors.MarkersNeverFallBack | app.py:82 | after a successful loop every marker of the view takes its type's mapped colour, never the fallback |
| Colors.NewColorMayRepeatBase | app.py:51-71 | a new type can get a colour equal to a fixed one (`rope` may get `blue`, like `plastic_bottle`) |
| Dashboard.EmptySelectionEmptiesViews | app.py:22-71 | with an empty selection the view and both summaries are empty; the colour map is the five fixed entries and the palette is untouched |
| Dashboard.SummariesConserveWeight | app.py:22-36 | both summaries add up to the weight of the filtered view |
| Dashboard.EnoughColorsColorEveryMarker | app.py:60-82 | with enough palette colours, the loop completes, keeps the five colours, and colours every marker from the map |
| Dashboard.ScenarioRegionA | app.py:22-36 | the three-row scenario: region A with both types keeps two rows, the region summary is A: 15 and the time summary is 2024-01-01: 15 |
| Dashboard.ScenarioNewType | app.py:60-71 | a single `rope` row with palette [teal, coral] maps rope to coral and leaves [teal] |

## Left out

- Loading the CSV file and caching the table (app.py:7-11): file I/O and framework memoisation. The table is an input.
- The sidebar widgets, the title, chart and map output (app.py:13-20, 31, 42, 45, 99): these belong to the UI framework. Only the selections they produce are modelled, as inputs to the filter.
- Chart and map rendering (app.py:27-30, 38-41, 78, 87-96), including the map centre and zoom constants (app.py:74-75): these are calls into outside libraries.
- The marker radius `3 + w**0.2` and the two-decimal weight in the popup (app.py:85-89): both are floating point.
- Parsing date strings (app.py:34): the parser's behaviour is defined by the library. Dates arrive already parsed.
- The shuffle of the palette (app.py:67): it is random. The palette is any input sequence, so the 148 CSS colour names are not listed.
- Colours staying the same across reruns: the code does not do this, since the map is rebuilt and the palette reshuffled on every run.
- Missing values: the model's strings and reals cannot be missing. So it does not cover rows dropped by grouping on a missing key, or missing weights skipped by the sum.
- Floating-point rounding in the sums: weights are exact reals.
- The extra `YearMonth` column on the filtered view (app.py:34): it only feeds the grouping, which the model computes directly from each row's date.
- Dashboard.Run: the script stops at a failed pop after both charts are drawn. The model still returns both summaries beside the `PopFromEmpty` outcome. Map markers are not modelled beyond their colour lookup.
