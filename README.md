# Smart City Citizen Dashboard: filter, age binning and counts

This project models the data pipeline inside the Streamlit script `app.py` of the
Smart City Citizen Activity Dashboard. It also proves what that pipeline promises.
The script loads a table of citizens. The part modelled here reads four of its
columns: Age, Gender, an optional District column, and Mode_of_Transport. It then:

- filters the table with the sidebar's selections into `filtered_df`: an inclusive age
  range, a gender multiselect, a transport-mode multiselect, and a district
  multiselect that exists only when the District column does;
- bins ages with `pd.cut(..., right=False)` into the seven groups "18-24" … "75+";
- counts Gender, District and Mode_of_Transport values over the filtered rows
  (`value_counts`);
- draws an "EV usage by age group" histogram from the whole, unfiltered table;
- adds an Age_Group column to a copy of the filtered rows.

The model is purely functional, as the script is:

- a table is a value (`Citizens.Table`), and a boolean mask is `Rows.Keep`;
- a derived column is `Rows.Project`;
- a `value_counts().reset_index()` table is a sequence of `Tallies.CountRow`.

Nothing updates a table in place, so `df` is unchanged by construction.

Modules: `Wrappers` (Option), `Rows` (selection and projection on sequences),
`Tallies` (value counts, categorical counts, dropping missing cells), `Binning`
(`pd.cut` and the age groups), `Citizens` (record, table, criteria, filter) and
`Dashboard` (EV histogram, the age-grouped copy, one render of the dashboard).

Two consequences of the code are easy to miss, and the model keeps both:

- The last edge is 100 and `right=False` is set, so Age 100 gets no group
  (`Binning.AgeGroupBoundaries` proves `AgeGroup(100) == None`).
- The range test is inclusive at both ends. With ten citizens, where the men are aged
  20, 30, 40, 50 and 60, the range 25 to 55 and the gender "Male" select the men aged
  30, 40 and 50 (`Citizens.TenCitizensScenario`).

## Model

| member | source | states |
|---|---|---|
| `Citizens.SidebarCriteria` | app.py:149-157 | the District selection is present exactly when the table has a District column, and then it is the multiselect's choice; the district test of line 175 is on exactly when the table has the column and some district is chosen |
| `Citizens.ApplyFilters` | app.py:168-176 | every row of `filtered_df` meets the selection rule, and there are never more rows than in `df` |
| `Citizens.FilterIsOneMask` | app.py:168-176 | the two masks applied one after the other are the single selection rule: age in `[min, max]`, gender and mode selected, and a selected district unless the District test is off |
| `Citizens.FilterExact` | app.py:168-176 | a row is in `filtered_df` if and only if it is in `df` and meets the rule, and it occurs there exactly as often as in `df` |
| `Citizens.SidebarFilter` | app.py:133-176 | with the criteria the sidebar builds, a row is shown exactly when it is in the table, its age is in the slider's inclusive range, its gender and mode are selected, and, if the table has a District column and some district is chosen, its district is chosen |
| `Citizens.FilterOnlyRemoves` | app.py:168-179 | `filtered_df` is an order-preserving subsequence of `df`, so "Showing X of Y" has X ≤ Y |
| `Citizens.FilterIdempotent` | app.py:168-176 | filtering the filtered rows again with the same criteria changes nothing |
| `Citizens.EmptyGenderSelection` | app.py:171 | an empty Gender selection yields no rows |
| `Citizens.EmptyModeSelection` | app.py:172 | an empty Transport selection yields no rows |
| `Citizens.EmptyDistrictSelection` | app.py:175-176 | an empty District selection switches the district test off: the result is what the age, gender and mode tests select, and it equals the result with no District selection at all |
| `Citizens.NoDistrictColumn` | app.py:149-157 | without a District column, no District selection has any effect on the result |
| `Citizens.EmptyDistrictCellDropped` | app.py:176 | while the district test is on, a row with an empty District cell is dropped |
| `Citizens.TenCitizensScenario` | app.py:168-173 | five men aged 20 to 60 and five other citizens, with the range 25 to 55 and the gender "Male": exactly the men aged 30, 40 and 50 are selected, in order |
| `Rows.Keep` | app.py:168-173 | a boolean-mask selection keeps only rows that pass, never adds rows, and never grows the table |
| `Rows.KeepMultiset` | app.py:168-173 | a mask keeps every passing row exactly as often as it occurs, and no other row |
| `Rows.KeepSubseq` | app.py:168-173 | a mask keeps the passing rows in their original order |
| `Binning.Cut` | app.py:347 | `pd.cut` with `right=False` gives a label exactly for `bins[0] ≤ x < bins[last]`, and label i for `bins[i] ≤ x < bins[i+1]` |
| `Binning.BinsPartition` | app.py:347 | increasing edges split `[bins[0], bins[last])` into bins that are disjoint and together cover it |
| `Binning.AgeGroup` | app.py:344-347 | an age has a group exactly when `18 ≤ age < 100`, and the group is one of the seven labels |
| `Binning.AgeGroupBins` | app.py:344-347 | an age gets label i if and only if it lies in `[AgeBins[i], AgeBins[i+1])` |
| `Binning.AgeBinsPartition` | app.py:344-345 | every age in `[18, 100)` lies in exactly one of the seven bins |
| `Binning.AgeGroupMonotone` | app.py:344-345 | label order is bin order: an older citizen never gets an earlier label |
| `Binning.AgeGroupBoundaries` | app.py:483-488 | a boundary age goes to the higher bin (24 → "18-24", 25 → "25-34", 74 → "65-74", 75 → "75+"); 17 and 100 get no group |
| `Tallies.ValueCounts` | app.py:252 | one row per value that occurs, with distinct keys and positive counts; each count is the value's number of occurrences, and the counts sum to the column length |
| `Tallies.Present` | app.py:269 | `value_counts` drops empty cells: every value keeps its number of occurrences, and the length falls by the number of empty cells |
| `Tallies.CategoricalCounts` | app.py:351 | categorical `value_counts().sort_index()` lists every category in category order (zero counts included), each with its number of occurrences |
| `Tallies.CategoricalTotal` | app.py:351 | the categorical counts sum to the number of cells that hold one of the categories |
| `Dashboard.WithAgeGroup` | app.py:346-347 | the copy keeps every row in order, and gives each row the `pd.cut` group of its own age: present exactly for ages in `[18, 100)`, and always one of the labels |
| `Dashboard.EvAgeDistribution` | app.py:349-351 | the EV histogram has one bar per age group, in bin order |
| `Dashboard.EvBinCounts` | app.py:346-351 | bar i counts the EV citizens of the whole table whose age lies in `[AgeBins[i], AgeBins[i+1])` |
| `Dashboard.EvTotal` | app.py:346-351 | the bars sum to the number of EV citizens aged 18 to 99 in the whole table |
| `Dashboard.EvOnlyReadsEvRows` | app.py:350 | the histogram depends only on the table's EV rows |
| `Dashboard.Render` | app.py:168-179 | the view's rows are `ApplyFilters` of the table, and "Showing X of Y" has X = their number ≤ Y = the table's; District counts (app.py:268-269) exist exactly when the column does; the histogram is `EvAgeDistribution` of the whole table (app.py:346-351); the age-grouped copy (app.py:481-488) is `WithAgeGroup` of the filtered rows. The Gender, District and Mode counts (app.py:252, 269, 296) are stated by the three lemmas below |
| `Dashboard.GenderCounts` | app.py:252 | each Gender count is the number of filtered rows of that gender; the counts sum to the rows shown; an unselected gender has no count |
| `Dashboard.ModeCounts` | app.py:296 | each Mode count is the number of filtered rows using that mode; the counts sum to the rows shown; an unselected mode has no count |
| `Dashboard.DistrictCounts` | app.py:268-269 | each District count is the number of filtered rows in that district; the counts sum to the rows shown minus those with an empty District cell; while the district test is on, an unselected district has no count |
| `Dashboard.EvIgnoresSidebar` | app.py:346-351 | the EV histogram is the same for any sidebar criteria, and sums to the EV citizens aged 18 to 99 in the unfiltered table |
| `Dashboard.FilteredAgeGroups` | app.py:481-488 | the age-grouped copy of `filtered_df` keeps its rows; row i gets label j exactly when its age lies in `[AgeBins[j], AgeBins[j+1])`; every row has a group when the age range lies within `[18, 100)` |

## Left out

- Page setup, CSS, tabs, metric cards, footer and the Reset button's rerun (app.py:11-80, 181-183, 185-223, 532-539): presentation only.
- Every chart: the plotly and seaborn calls, the OLS trendline and the choropleth placeholder. These are library calls with no logic of the dashboard's own.
- `load_data`, reading the CSV, the `st.cache_data` session cache and the mock-data fallback with its notice (app.py:83-118): I/O and framework state. `generate_mock_data` only draws from numpy's random generator. The model takes the table as a parameter.
- The slider's bounds (the table's minimum and maximum age), its default `(20, 60)`, and the multiselects' defaults (all values). These are widget state: the model takes any criteria.
- The date-range input (app.py:125-130): it is never used.
- The columns the pipeline does not filter or count on: carbon footprint, steps, sleep, social media, recycling and digital usage. Their group means are left out too (app.py:196-220, 317-318, 373, 421, 490, 511). They are floating-point averages, and the means of empty categorical groups depend on the pandas version.
- Tallies.ValueCounts: lists categories in order of first appearance. pandas sorts the result by descending count, and its order among equal counts is left to the implementation. Only the charts' bar order depends on this.
- Citizens.ApplyFilters: an empty District cell never matches a District selection. pandas' `isin` would match it if NaN itself were one of the selected options.
- Dashboard.FilteredAgeGroups: the guard `"Age_Group" not in df_age_group.columns` (app.py:482) always passes here, because the modelled table has no Age_Group column of its own.
- Dashboard.Render: builds the age-grouped copy of `filtered_df` on every pass. The script builds it only inside `if "Recycling_Rate" in filtered_df.columns` (app.py:476), and the modelled table has no Recycling_Rate column.
