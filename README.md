# Student dashboard: filter-and-rank pipeline

A Dafny model of the data path of the Streamlit dashboard `streamlit/app.py`, which loads a
table of student records (school, sex, age, study time, failures, absences and the three grades
G1, G2, G3) and shows views of the rows a sidebar selection keeps:

- the option lists of the two selectors (`Selectors`): the wildcard, then each distinct value
  of the column once, in order of first appearance;
- the filter (`Filters`): school equal to the selected one unless the wildcard "Todas" is
  chosen, sex equal to the selected one unless the wildcard "Todos" is chosen, and age within
  the slider's range, both ends included; the slider only offers 15..22;
- the row count and the five-row preview, the derived column `melhoria = G3 - G1` inserted into
  the filtered frame, and the three five-row rankings: best and worst by G3, best by
  `melhoria` (`Dashboard`, `Rankings`).

Modules, one per concern: `Students` (the record and its columns), `Selectors`, `Filters`,
`Rankings` (pandas `nlargest`/`nsmallest` with `keep='first'`, on row positions), and
`Dashboard` (the frame class, the preview and the whole page as one method `Run`).

Modelling choices:

- School and sex are strings, as in the table; the wildcard test is a string comparison, so a
  school literally called "Todas" would act as the wildcard, exactly as in the source.
- A boolean mask `frame[mask]` is the function `Filters.Where`. The source narrows the table
  step by step (lines 37-42); `Filters.ApplyFilters` does the same reassignments and is proved
  equal to the single mask of the conjunction, `Filters.Filtered`.
- The age test is applied unconditionally, as in the source: even with both wildcards and the
  default slider (15, 22), rows whose age is outside 15..22 are dropped. The design notes of the
  system describe a filter with no active predicate as the identity; the code does not behave
  so, and the model follows the code (`NoConstraintIsIdentity` needs every age in range).
- The slider bounds are not a precondition of the filter; `SliderRange` states what the slider
  can produce and `SliderBoundsAges` what follows from it.
- A ranking is computed as the first n entries of a stable insertion sort of the row positions
  by key (ties: earlier row first). Its contract `IsTopN` is proved to determine the answer
  uniquely (`TopNIsUnique`), so the insertion sort is only one way of reaching it.
- The dataframe into which `melhoria` is inserted is the class `Dashboard.Frame`; `Run` reads
  the loaded frame without a modifies clause, so the insertion provably never reaches it.

## Model

| member | source | states |
|---|---|---|
| `Filters.Where` | streamlit/app.py:39-42 | a boolean mask keeps exactly the rows of the table on which it holds, and never more rows than the table has |
| `Filters.WhereIsSubsequence` | streamlit/app.py:39-42 | the masked table lists its rows in their original order |
| `Filters.WhereMultiplicity` | streamlit/app.py:39-42 | a kept row appears as often as in the table, a dropped row not at all |
| `Filters.WhereWhere` | streamlit/app.py:38-42 | masking twice in a row equals masking once with the conjunction of the two masks |
| `Filters.WhereAgree` | streamlit/app.py:38-42 | two masks that agree on every row of the table select the same rows |
| `Filters.WhereAll` | streamlit/app.py:37-42 | a mask true on every row returns the table unchanged |
| `Filters.WhereKeepsCount` | streamlit/app.py:39-46 | the masked table has as many rows as the table exactly when the mask holds on every row |
| `Filters.FilterOrderIrrelevant` | streamlit/app.py:38-42 | applying two filters in either order gives the same table |
| `Filters.ApplyFilters` | streamlit/app.py:36-42 | the step-by-step narrowing (copy, school unless "Todas", sex unless "Todos", inclusive age range) yields the rows admitted by the conjunction of the three conditions, in table order |
| `Filters.FilteredIsSubset` | streamlit/app.py:37-42 | the filtered table is an order-preserving subsequence of the loaded one, contains exactly the admitted rows with unchanged fields, and each admitted row as often as in the loaded table |
| `Filters.WildcardsLeaveOnlyAge` | streamlit/app.py:38-42 | with both wildcards chosen, a row is kept exactly when lo <= age <= hi |
| `Filters.KeptRowsMatchSelection` | streamlit/app.py:38-42 | a non-wildcard school (sex) holds of every kept row; every row matching school, sex and age range is kept |
| `Filters.AgeRangeInclusive` | streamlit/app.py:42 | a row with age equal to the low or the high end of the range is kept when its school and sex pass |
| `Filters.SliderBoundsAges` | streamlit/app.py:34-42 | under any slider value the kept ages lie in 15..22; at the default every row outside 15..22 is dropped |
| `Filters.FilteredCount` | streamlit/app.py:46 | the displayed count is at most the table's and equals it exactly when every row is admitted |
| `Filters.NoConstraintIsIdentity` | streamlit/app.py:37-42 | both wildcards and a range covering every age leave the table unchanged |
| `Selectors.Unique` | streamlit/app.py:32-33 | the distinct values of a column: each value of the column exactly once, nothing else |
| `Selectors.UniqueInFirstAppearanceOrder` | streamlit/app.py:32-33 | the distinct values are listed in the order of their first occurrence in the column |
| `Selectors.SchoolOptions` | streamlit/app.py:32 | the school options are "Todas" followed by every school of the table, once each |
| `Selectors.SexOptions` | streamlit/app.py:33 | the sex options are "Todos" followed by every sex of the table, once each |
| `Selectors.OptionsInFirstAppearanceOrder` | streamlit/app.py:32-33 | after the wildcard, both option lists follow the order in which the values first appear |
| `Rankings.InsertRanked` | streamlit/app.py:153-162 | inserting a new row position into a ranked list keeps it ranked |
| `Rankings.SortRanked` | streamlit/app.py:153-162 | sorting distinct row positions puts them in ranking order (key, then table order) |
| `Rankings.Select` | streamlit/app.py:153-162 | `nlargest`/`nsmallest(n)` returns min(n, rows) distinct rows in ranking order, and every row left out ranks behind every row returned |
| `Rankings.TopNIsUnique` | streamlit/app.py:153-162 | any list meeting that contract is the one `Select` returns |
| `Rankings.SmallestIsLargestOfNegated` | streamlit/app.py:162 | `nsmallest` on a column equals `nlargest` on the negated column, ties included |
| `Rankings.TopKeysOrdered` | streamlit/app.py:153-162 | in `nlargest` keys never rise, equal keys keep table order, and no omitted row has a larger key than the last listed row (or an equal key and an earlier place); `nsmallest` mirrors this |
| `Rankings.BetterKeyListedFirst` | streamlit/app.py:153-162 | a row whose key beats a listed row's is listed too, ahead of it |
| `Dashboard.ImprovementColumn` | streamlit/app.py:156 | the derived column has one value per row, G3 - G1 of that row |
| `Dashboard.Frame.constructor` | streamlit/app.py:37 | a new frame holds the given rows and no added column |
| `Dashboard.Frame.AddImprovement` | streamlit/app.py:156 | inserting `melhoria` sets it to G3 - G1 per row and leaves the rows and the other columns unchanged |
| `Dashboard.Head` | streamlit/app.py:47 | the preview is a prefix of the filtered table of min(5, rows) rows |
| `Dashboard.RankedRows` | streamlit/app.py:153-162 | a ranking table has min(5, rows) rows, each drawn from the filtered table |
| `Dashboard.Run` | streamlit/app.py:36-162 | the page's count, preview and three rankings are those of the filtered table, the `melhoria` ranking uses the column inserted into the filtered frame, and the loaded frame is not modified |

## Left out

- Loading the CSV file (streamlit/app.py:28): file I/O; the model takes the loaded rows as given.
- Page configuration, the React component declaration, the sidebar widgets as UI and all
  `st.*` display calls (streamlit/app.py:10-24, 31-34, 45-47, 149-162 as display): I/O; only the
  values handed to them are modelled.
- The column projections of the ranking tables (`[['sex', 'age', ...]]`, lines 153, 158, 162):
  they only choose which fields are displayed; the model returns whole rows.
- Means of G1, G2, G3 and their rounding, and the line plot of the means (streamlit/app.py:57-71):
  floating-point division; the mean of an empty selection is NaN in pandas.
- Histograms, box plots, the scatter plot (streamlit/app.py:73-138) and the correlation matrix
  with its heatmap (streamlit/app.py:140-146): binning, statistics and rendering happen inside
  plotting and statistics libraries that are not part of this model.
- Missing values: the grade and age columns are integers without gaps, so the NaN handling of
  `nlargest`/`nsmallest` and of the comparisons is not modelled.
- Rankings.Select: the tie order is the one pandas documents for `keep='first'` (earlier row
  first); when n is at least the number of rows pandas takes a sort-based path whose tie order
  depends on the sort being stable, which the model assumes.
- backend/main.py: an HTTP endpoint around a file-existence check and `pd.read_csv`, with no
  algorithm. Its `except Exception` at line 33 also catches the `HTTPException`s raised at lines
  17 and 24, so the intended 404 answers come out as 500; this is not modelled.
- streamlit/componente.js: a static header component, presentation only.
