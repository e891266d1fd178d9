# CloudMart cost-governance dashboard: verified model of its data core

This project models in Dafny the data logic of the CloudMart cost-governance dashboard (`streamlit_dashboard.py`). It proves properties of that model. The dashboard reads a table of cloud resources, one row per resource. Each row has:

- a ResourceID, Service and Region;
- a monthly cost;
- a `Tagged` flag;
- five governance tags: Department, Project, Environment, Owner and CostCenter.

The dashboard computes governance metrics and lets a user fill in missing tags. The model covers the six parts of that logic that compute something:

- **Loading** (`load.dfy`, module `Load`):
  - Cells the CSV reader treats as missing become absent.
  - Rows equal in all ten dashboard columns are dropped, and the first occurrence is kept.
  - Each row gets its tag-completeness score (0 to 5) and its percentage. These are defined in `table.dfy` (module `Table`), which also holds the row type.
- **Metrics snapshot** (`metrics.dfy`, module `Metrics`), `calculate_metrics`:
  - Counts and cost sums over the rows whose Tagged cell is exactly "Yes" or exactly "No".
  - The tagging rate and the untagged-cost share, each with its division-by-zero guard.
  - The mean completeness score.
- **Filters** (`filter.dfy`, module `Filter`):
  - Four exact-equality choices, on Service, Region, Department and Environment.
  - The sentinel "All" leaves a column unconstrained.
  - They are applied one after the other.
- **Grouped rollups** (`rollup.dfy`, module `Rollup`):
  - Per Department, Service or Environment: the resource count, the total cost and the tagging rate.
  - Sorted by total cost, highest first.
- **Remediation merge** (`remediation.dfy`, module `Remediation`):
  - Each edited untagged row is written into a copy of the table on every row with its ResourceID.
  - Then every row's completeness columns are recomputed.
- **Before/after comparison** (same module):
  - The metrics before and after the merge.
  - The raw deltas and the displayed deltas. A displayed delta is floored at zero.

Model choices:

- Every text cell is optional (`Option<string>`), because the missing-cell markers apply to every column. An absent cell equals no string, so an absent ResourceID matches nothing in the merge.
- Costs, rates and means are exact `real` numbers.
- The merge (`Remediation.Merge`) is imperative, like the source:
  - It works on an `array` copy of the table.
  - It has two nested loops, over the edited rows and over the edit columns.
  - Inside them, a parallel `forall` statement writes the column on every row under the ResourceID mask.
  - It ends with a parallel `forall` statement that rescores all rows.
  - It is proved equal to the specification function `Remediated`, and the lemmas are proved about that function.
- Everything else in the core is a computation on values. It is modelled as functions and lemmas, plus the `ApplyFilters` method that mirrors the successive narrowing steps.

## Model

| member | source | states |
|---|---|---|
| Table.TagScore | streamlit_dashboard.py:30-31 | The completeness score counts the non-missing tag fields. It is at most 5. It is 5 exactly when all five tags are present and 0 exactly when none is. |
| Table.Rescore | streamlit_dashboard.py:31-32 | Recomputing the two derived columns makes them agree with the tag fields: score = number of present tags, percentage = score / 5 * 100, and the percentage is in [0, 100]. Every other column is kept. |
| Table.RescoreIdempotent | streamlit_dashboard.py:350-353 | Recomputing the completeness columns of a row whose columns are already up to date changes nothing. |
| Load.Cell | streamlit_dashboard.py:25 | A CSV cell is absent exactly when it is one of the reader's missing markers ("" and " " plus the built-in list). Otherwise it keeps its text verbatim. |
| Load.Normalize | streamlit_dashboard.py:25 | Every text column (ResourceID, Service, Region, Tagged and the five tags) is absent exactly when its raw cell is a missing marker, and otherwise holds the raw text. The cost is kept, and the derived columns are not yet computed. |
| Load.Dedup | streamlit_dashboard.py:27 | The deduplicated table is never longer than the input. Distinctness, membership and order are the three lemmas below. |
| Load.LoadRows | streamlit_dashboard.py:22-34 | Loading yields at most as many rows as were read, and every loaded row has consistent completeness columns. |
| Load.DedupDistinct | streamlit_dashboard.py:27 | After dropping duplicates, no two rows are equal in every column. |
| Load.DedupMembers | streamlit_dashboard.py:27 | Dropping duplicates keeps every distinct row and invents none. |
| Load.DedupKeepsFirstOrder | streamlit_dashboard.py:27 | The rows left are the first occurrences, in the order in which each first appears in the input. |
| Load.LoadRowsCorrect | streamlit_dashboard.py:22-34 | The loaded rows are pairwise distinct. Every read row is represented, normalised and scored. Every loaded row comes from a read row. |
| Metrics.CalculateMetrics | streamlit_dashboard.py:95-117 | total = number of rows; tagged + untagged <= total; the tagging rate lies in [0, 100]; on an empty table the rate, the total cost and the untagged share are 0; with total cost <= 0 the untagged share is 0; the mean completeness is defined exactly when the table is non-empty. |
| Metrics.TaggedUntaggedBound | streamlit_dashboard.py:97-99 | The tagged count, the untagged count and the count of rows whose Tagged cell is absent or any other text add up to the number of rows, so tagged + untagged <= total. |
| Metrics.CostSplit | streamlit_dashboard.py:101-103 | With non-negative costs, the tagged and untagged costs are non-negative and add up to at most the total cost. |
| Metrics.UntaggedCostPctBounds | streamlit_dashboard.py:115 | With non-negative costs, the untagged-cost percentage lies in [0, 100]. |
| Metrics.AvgCompletenessBounds | streamlit_dashboard.py:105 | On a non-empty table with up-to-date completeness columns, the mean completeness lies in [0, 5]. |
| Metrics.PercentBounds | streamlit_dashboard.py:111 | A part of a positive whole is between 0 and 100 percent. |
| Metrics.MetricsOrderIndependent | streamlit_dashboard.py:95-117 | The snapshot depends only on the multiset of rows. Reordering the table changes no metric. |
| Metrics.AggregatesPermutation | streamlit_dashboard.py:98-105 | Counts, column sums and sums over a selection are invariant under permutation of the rows. |
| Metrics.TwoRowExample | streamlit_dashboard.py:95-117 | On a two-row table (R1 untagged, cost 100, no tags; R2 tagged, cost 50, one tag), the snapshot is 2 / 1 / 1 rows, a 50% rate, costs 150 / 50 / 100, a share of 200/3% and a mean completeness of 0.5. |
| Metrics.CountOfConcat | streamlit_dashboard.py:98-99 | Counting a mask selection distributes over concatenation of tables. |
| Metrics.CountMonotone | streamlit_dashboard.py:99 | If every row satisfying a predicate in one table has its counterpart satisfying it in another, the first count is no larger. |
| Metrics.SumWhereMonotone | streamlit_dashboard.py:103 | Row-by-row smaller selected costs give a smaller selected sum. |
| Filter.ApplyFilters | streamlit_dashboard.py:166-174 | Narrowing the table once per concrete choice gives exactly the one-pass reference filter `Selected`. |
| Filter.Narrow | streamlit_dashboard.py:167-174 | One `df[df[c] == v]` step is never longer than its input. Which rows it keeps is stated by `Filter.NarrowSound` and `Filter.NarrowSelected`. |
| Filter.NarrowSound | streamlit_dashboard.py:168-174 | Every row kept by a narrowing step is an input row whose column holds exactly the chosen value. |
| Filter.NarrowSelected | streamlit_dashboard.py:167-174 | One more narrowing step equals filtering once with that choice added. |
| Filter.SelectedUnconstrained | streamlit_dashboard.py:166 | With every choice "All", the view is the whole table. |
| Filter.SelectedSound | streamlit_dashboard.py:166-174 | Every kept row is an input row that satisfies all choices. Under a concrete choice, its cell equals that value exactly, so an absent cell is never kept. |
| Filter.SelectedMultiplicity | streamlit_dashboard.py:166-174 | Each matching row is kept as often as it occurs in the input, and each other row not at all. |
| Filter.SelectedIsSubsequence | streamlit_dashboard.py:166-174 | The view keeps the input's row order. |
| Filter.NoMatchGivesZeroMetrics | streamlit_dashboard.py:95-117 | A selection no row satisfies leaves the filter (lines 166-174) with the empty view. The metrics function would give that view an all-zero snapshot with no mean completeness, so no division by zero can occur; the page itself stops with a warning before computing metrics of an empty view. |
| Rollup.Keys | streamlit_dashboard.py:248 | The group keys are distinct, and they are exactly the present values of the grouping column. |
| Rollup.GroupOf | streamlit_dashboard.py:248-252 | A group line has its key, a resource count no larger than the group, and a tagging rate in [0, 100]. |
| Rollup.Insert | streamlit_dashboard.py:254 | Inserting a line into a cost-descending table keeps it cost-descending and adds exactly that line. |
| Rollup.SortByCost | streamlit_dashboard.py:254 | The sorted rollup is cost-descending and a permutation of its lines. |
| Rollup.Rollup | streamlit_dashboard.py:248-254 | A rollup is sorted by total cost, highest first, and holds exactly one line per computed group. |
| Rollup.RollupGroups | streamlit_dashboard.py:248-254 | Every line holds the statistics of a key that occurs in the column, and every key that occurs has a line. |
| Rollup.GroupBounds | streamlit_dashboard.py:249-251 | A group's tagging rate lies in [0, 100]. Its resource count is at least 1 when every row has a ResourceID. |
| Rollup.RollupKeysDistinct | streamlit_dashboard.py:248 | No two lines of a rollup share a key. |
| Rollup.RollupPartition | streamlit_dashboard.py:248-250 | The groups partition the rows whose key is present. Their counts add up to the number of such rows with a ResourceID, and their costs to those rows' total cost. |
| Remediation.Overwrite | streamlit_dashboard.py:346-348 | Writing an edited row copies all ten edit columns and leaves the derived columns to be recomputed. |
| Remediation.Remediated | streamlit_dashboard.py:343-353 | The remediated table has as many rows as the input, and every row has up-to-date completeness columns. |
| Remediation.IdMatches | streamlit_dashboard.py:345 | The merge mask: an absent ResourceID on either side matches nothing, and a match means equal ResourceIDs. |
| Remediation.SetColumn | streamlit_dashboard.py:348 | `.loc[mask, col] = row[col]` on one row: column `col` takes the edited value, and every other column, derived ones included, is kept. |
| Remediation.ApplyEdit | streamlit_dashboard.py:345-348 | Applying one edited row keeps the table's length, every row's ResourceID and every row's stored score. |
| Remediation.ApplyEdits | streamlit_dashboard.py:344-348 | Applying the edited rows in order keeps the table's length, every row's ResourceID and every row's stored score. Which edit wins is `ApplyEditsAt`. |
| Remediation.LastMatch | streamlit_dashboard.py:344-345 | The edit in force on a row is an edited row with its ResourceID, at a position after which no edited row matches it: the last match. When there is none, no edited row matches it. |
| Remediation.Merge | streamlit_dashboard.py:343-353 | The loop-built table is the specification `Remediated(df, edited)`, and the input table is untouched. |
| Remediation.ApplyEditsAt | streamlit_dashboard.py:344-348 | Last writer wins: each row is overwritten by the last edited row with its ResourceID, or kept when none has it. |
| Remediation.RemediatedAt | streamlit_dashboard.py:343-353 | Each remediated row is the last-writer-wins merge of the original row, rescored. |
| Remediation.UnmatchedRowUnchanged | streamlit_dashboard.py:343-353 | A row that no edited row matches, and whose completeness columns were up to date, comes through unchanged. |
| Remediation.ReadOnlyColumnsKept | streamlit_dashboard.py:320-323 | If the edited rows keep the read-only ResourceID, Service, Region and cost of the rows they match, the merge keeps those columns. |
| Remediation.EditedRowsWithinOptions | streamlit_dashboard.py:326-337 | If the editor only produces Prod/Dev/Test and Yes/No, every row an edit reaches ends with such values. |
| Remediation.UntaggedRows | streamlit_dashboard.py:302 | The editor offers exactly the rows whose Tagged cell is "No". |
| Remediation.UntaggedRowsSelection | streamlit_dashboard.py:302 | The editor's rows are a mask selection: each "No" row appears as often as in the table and every other row not at all, in the table's order. |
| Remediation.EditorSeed | streamlit_dashboard.py:309-316 | The editor starts with the ten edit columns of each untagged row. |
| Remediation.UntouchedEditorIsIdentity | streamlit_dashboard.py:302-353 | Submitting the editor untouched reproduces the table, when ResourceIDs are unique and completeness columns are up to date. |
| Remediation.SharedIdSpreadsEdits | streamlit_dashboard.py:343-386 | With a ResourceID shared by an untagged and a tagged row, the untouched editor copies the untagged row over the tagged one. The untagged count rises by one, yet the displayed reduction is 0. |
| Remediation.RawDeltas | streamlit_dashboard.py:364-382 | The untagged-count reduction is positive exactly when the count fell and zero exactly when it is unchanged. The cost reduction is positive exactly when the untagged cost fell, and the completeness improvement is positive exactly when the mean rose. Equal snapshots give zero deltas. |
| Remediation.Displayed | streamlit_dashboard.py:364-387 | Each displayed delta is the raw delta when that is positive and zero otherwise. The displayed deltas equal the raw ones exactly when no raw delta is negative. |
| Remediation.RemediationPreview | streamlit_dashboard.py:283-386 | The snapshot of `df` is produced in every case. The page stops after it exactly when no row is untagged. Otherwise it also yields the merged table `Remediated(df, edited)`, the snapshot after (both snapshots have a defined mean), and the displayed deltas of the two. |
| Remediation.CompletingEditsOnlyImprove | streamlit_dashboard.py:343-386 | If every edit sets Tagged to "Yes" and fills all five tags, none of the three deltas is negative (given non-negative costs and up-to-date completeness columns). The display then shows the raw deltas. |
| Remediation.CompletingEditsRowwise | streamlit_dashboard.py:343-353 | Row by row, a completing edit never makes a row untagged, never lowers its score and never adds to its untagged cost. |

## Left out

- The user interface: page layout, sidebar widgets, the metric cards' formatting, charts (`create_*_chart`), the impact text and the download button. The filter choices and the editor's content are parameters of the model.
- CSV reading and writing, the file-not-found message and the caching of `load_data`: the model starts from the cells as strings, and ends with the remediated table rather than its CSV text.
- The filter option lists (sorted distinct values prefixed with "All"): they are not modelled. A concrete value equal to the string "All" is taken as the sentinel, as the source's comparison does.
- Load.Cell: only the reader's fixed marker set counts as missing. A cell of other whitespace (two spaces, a tab) stays a value. Whitespace stripping and type inference of the reader are not modelled.
- Load.Dedup: the row type holds only the ten dashboard columns, so duplicates are judged on those ten. Two CSV rows that differ only in some further column (an account id, say) are both kept by the source but collapsed into one here.
- Load.Normalize: the cost column is taken as an exact number. A blank or non-numeric cost cell (NaN in the source) is not modelled.
- Metrics.CalculateMetrics: floating-point arithmetic is modelled by exact reals. The mean of an empty table (NaN in the source) is modelled as an absent value.
- Rollup.GroupOf: the rounding to two decimals of the rollup table is not modelled.
- Rollup.SortByCost: groups with equal total cost may come out in a different order. Here groups enter the sort in order of first appearance of their key, and the sort is stable. In the source, grouping emits its keys in sorted order, and the default sort then promises no particular order among ties.
- Remediation.Merge: the guard that an edit column exists in the editor output always holds (the editor has all ten columns), so it is not modelled. The editor's `required=True` and option lists are widget configuration, not enforced by the merge. They appear only as hypotheses of `EditedRowsWithinOptions` and `CompletingEditsOnlyImprove`.
- Remediation.Displayed: the text of the deltas (sign prefix, currency and two-decimal formatting) is not modelled, only the value shown.
- The before/after comparison chart re-displays snapshot fields and is not modelled separately.
