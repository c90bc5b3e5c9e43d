# Gene significance filter of the BioSLATE gene browser

The gene browser (`streamlit_app/gene_browser_with_stats.py`) reads a long
table of CNA / protein-expression measurements and a per-gene table of test
statistics (a t-statistic, p-value and Cohen's d for Amplification vs Neutral
and for Deletion vs Neutral). From the statistics it builds a ranked list of
significant genes, lets the user pick one gene (or two, in compare mode), and
shows each picked gene's statistics row and measurement rows.

This project models that logic as pure functions over sequences of rows:

- `wrappers.dfy` — `Option` (a missing cell, an empty selector) and `Result`.
- `gene_stats.dfy` — the two row types, the completeness test, the
  two-sided significance test (strict `<` on the p-value, non-strict `>=` on
  |d|, OR across the two comparisons) and the ranking key
  min(amplification p, deletion p).
- `significance_filter.dfy` — dropping incomplete rows, the significance
  mask, the ascending sort on the ranking key and the composed
  `FilterAndRank`, with the membership, ordering, permutation and
  monotonicity facts about them.
- `gene_lookup.dfy` — the measurement-row selection, the first statistics row
  of a gene, the selectors and their default positions, and the single-gene
  and compare views, with the error when there is nothing to select.

Missing values are `None`; numbers are `real`, since the filter only
compares, takes absolute values and takes a minimum.

The ranking is `sort_values` on the derived "Min P-value" column with its
default, non-stable sorting algorithm, so nothing fixes the relative order of
rows with equal keys. The model therefore promises only that the output is a
permutation of the filtered rows in non-decreasing key order, and
`TwoGeneScenario` shows both orders of two tied genes are allowed.

## Model

| member | source | states |
|---|---|---|
| `GeneStats.RankKey` | streamlit_app/gene_browser_with_stats.py:35-38 | the "Min P-value" of a complete row is at most both p-values and equal to one of them |
| `GeneStats.SideBoundaries` | streamlit_app/gene_browser_with_stats.py:28-31 | a p-value equal to the cutoff never passes; an |d| equal to the cutoff passes when its p-value is below the cutoff, for either sign of d |
| `GeneStats.RecordBoundaries` | streamlit_app/gene_browser_with_stats.py:27-32 | a row whose p-values both equal the cutoff is excluded; a row with an |d| exactly at the cutoff and its p-value below is kept, on either side |
| `GeneStats.AmplificationSideAlone` | streamlit_app/gene_browser_with_stats.py:27-32 | OR across the sides: amp p 0.01, d 0.5 with del p 0.9, d 0 is kept at cutoffs 0.05 / 0.3, and symmetrically for the deletion side |
| `GeneStats.SignificantMonotone` | streamlit_app/gene_browser_with_stats.py:27-32 | a row significant at tighter cutoffs is significant at looser ones |
| `GeneStats.RetainedKeyBelowCutoff` | streamlit_app/gene_browser_with_stats.py:27-38 | a kept row's ranking key is below the p cutoff and at most both of its p-values |
| `SignificanceFilter.DropIncomplete` | streamlit_app/gene_browser_with_stats.py:19-24 | every output row has both p-values and both Cohen's d; each complete row keeps its multiplicity, every incomplete row is gone |
| `SignificanceFilter.DropIncompleteAppend` | streamlit_app/gene_browser_with_stats.py:19-24 | the drop works row by row, so survivors keep their relative order |
| `SignificanceFilter.ThresholdFilter` | streamlit_app/gene_browser_with_stats.py:27-32 | of complete rows, exactly the significant ones are kept, with their multiplicities |
| `SignificanceFilter.ThresholdFilterAppend` | streamlit_app/gene_browser_with_stats.py:27-32 | the mask works row by row, so kept rows keep their relative order |
| `SignificanceFilter.Insert` | streamlit_app/gene_browser_with_stats.py:39 | inserting into a key-sorted sequence keeps it sorted and adds exactly the one row |
| `SignificanceFilter.SortByKey` | streamlit_app/gene_browser_with_stats.py:39 | the result is a permutation of the input in non-decreasing ranking-key order |
| `SignificanceFilter.FilterAndRank` | streamlit_app/gene_browser_with_stats.py:19-39 | the output is sorted by key; each row in it is complete, significant and has key below the p cutoff; each such table row appears as often as in the table and no other row appears |
| `SignificanceFilter.RankedMembership` | streamlit_app/gene_browser_with_stats.py:19-39 | a row is in the output if and only if it is in the table, complete and significant |
| `SignificanceFilter.IncompleteNeverRanked` | streamlit_app/gene_browser_with_stats.py:19-24 | a row missing any of the four filter values is never output, whatever the cutoffs |
| `SignificanceFilter.TighterCutoffsSubMultiset` | streamlit_app/gene_browser_with_stats.py:27-32 | lowering the p cutoff or raising the effect cutoff yields a sub-multiset of the rows |
| `SignificanceFilter.TighterCutoffsKeepFewer` | streamlit_app/gene_browser_with_stats.py:27-45 | tighter cutoffs yield no more rows and no gene that looser cutoffs did not list |
| `SignificanceFilter.EmptyTableRanksNothing` | streamlit_app/gene_browser_with_stats.py:19-39 | an empty statistics table gives an empty ranking, without error |
| `SignificanceFilter.TwoGeneScenario` | streamlit_app/gene_browser_with_stats.py:27-39 | two genes significant on opposite sides with equal keys 0.001 are both kept, in either order |
| `GeneLookup.RowsForCount` | streamlit_app/gene_browser_with_stats.py:48 | exactly the measurement rows of the selected gene, with their multiplicities; none when nothing is selected |
| `GeneLookup.RowsForAppend` | streamlit_app/gene_browser_with_stats.py:48 | the row selection keeps the table order of the selected rows |
| `GeneLookup.FirstStatIndex` | streamlit_app/gene_browser_with_stats.py:49 | None exactly when no statistics row has the gene; otherwise the position of the first such row |
| `GeneLookup.Resolve` | streamlit_app/gene_browser_with_stats.py:48-49 | succeeds exactly when a gene is selected and has a statistics row; then gives its measurement rows and the first statistics row with its name |
| `GeneLookup.Pick` | streamlit_app/gene_browser_with_stats.py:46 | a selector over an empty list holds nothing; otherwise it holds the listed gene at the chosen position |
| `GeneLookup.DefaultSecondIndex` | streamlit_app/gene_browser_with_stats.py:73 | the Gene B start position is a valid position, non-zero exactly when the list has more than one gene |
| `GeneLookup.CompareDefaultsValid` | streamlit_app/gene_browser_with_stats.py:72-73 | Gene A and Gene B start on different entries when the first two listed genes differ, and on the same entry for a one-gene list |
| `GeneLookup.RankedGenes` | streamlit_app/gene_browser_with_stats.py:45 | the gene list gives, position by position, the gene of each ranked row (most significant first), and each listed gene names a complete, significant table row |
| `GeneLookup.RankedGeneResolves` | streamlit_app/gene_browser_with_stats.py:45-49 | every gene offered by a selector has a statistics row, so the lookup succeeds |
| `GeneLookup.ResolvedStatIsRankedRow` | streamlit_app/gene_browser_with_stats.py:49 | with one statistics row per gene, the row shown for a ranked gene is the ranked row itself |
| `GeneLookup.SingleGeneView` | streamlit_app/gene_browser_with_stats.py:44-49 | single-gene mode fails exactly when the ranking is empty; otherwise it shows the chosen ranked gene with exactly its measurement rows and its first statistics row |
| `GeneLookup.CompareView` | streamlit_app/gene_browser_with_stats.py:71-83 | compare mode fails exactly when the ranking is empty; otherwise it shows the two chosen ranked genes, each with exactly its measurement rows and its first statistics row |
| `GeneLookup.CompareDefaults` | streamlit_app/gene_browser_with_stats.py:71-83 | at the start positions, Gene A is the top-ranked gene and Gene B the second, or the top one again for a one-gene list |

## Left out

- Loading the two CSV files and the page configuration: file I/O and framework setup.
- Sliders, the mode radio button, columns, titles, markdown and the footer: user interface; the cutoffs, the mode and the selector positions are parameters.
- The boxplots (and the repeated row selection that feeds them at lines 96-97, which is the same as `RowsFor`): rendering by external plotting libraries.
- Formatting of the t-statistic, p-value and Cohen's d for display: float-to-text presentation. The t-statistics are carried in the row but never filtered on.
- IEEE floating point and NaN: missing values are `None`, numbers are exact reals.
- RankedGeneResolves: gene names are assumed present. The missing-value drop does not look at the Gene column, so a statistics row with an empty gene name could pass the filter and be listed, and looking it up would then match no row and fail; the model's `Gene` type cannot express a missing name.
- Pick: requires a valid position for a non-empty list; the selector widget rejects any other, and the defaults used by the page always meet it (`CompareDefaultsValid`).
- Resolve: when the statistics table has no row for the gene, or nothing is selected, the page fails on taking row 0 of an empty selection; the model returns `Err(NoStatsRow)` and does not model the exception text.
- ResolvedStatIsRankedRow: holds only when the statistics table has one row per gene; with repeated gene names the page shows the first row with that name, which `Resolve` models, and that row need not be the ranked one.
- `streamlit_app/gene_browser_basic.py`: a file read, a selector over the distinct genes and one row selection, already covered by `RowsFor`.
- Repeated runs with the same inputs give the same output because every operation is a function; no separate property is stated.
