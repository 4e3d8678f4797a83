# Aircraft crashes data explorer: the cleaning pipeline and its aggregations

This project models the logic of `app.py`, a dashboard over a table of
aircraft crash records. The model covers two parts:

- `load_data`, the fixed, ordered cleaning pipeline. Its steps are:
  1. an exact `"-"` in Country/Region becomes missing;
  2. a missing Country/Region or Operator becomes `"Unknown"`;
  3. Country/Region and Aircraft Manufacturer are stripped and title-cased;
     Aircraft, Location and Operator are only stripped;
  4. Quarter and Month become categories over closed sets;
  5. Tukey fences are computed for Ground and Fatalities (air), from
     linear-interpolation quartiles;
  6. both columns are clipped into their fences;
  7. duplicate rows are dropped, keeping the first.
- What the dashboard derives from the cleaned table:
  - the Year filter and its default all-years selection;
  - crashes per Year and fatalities per Year;
  - the top-10 value counts of Country/Region (shown only when the file has
    no Latitude/Longitude columns) and of Aircraft Manufacturer.

The table is a `seq<Row>`, already parsed from CSV. Missing cells are
`Option.None`. The modules are:

- `Crash`: the row datatype.
- `Text`: `str.strip` and `str.title` over ASCII.
- `Stats`: quantiles, fences and clipping, over exact `real`s.
- `Seqs`: keep-first deduplication, counts and a stable sort.
- `Cleaning`: `load_data`.
  - Each column reassignment is a function applied to every row.
  - Clipping and `drop_duplicates` are loops (`ClipColumn`, `DropDuplicates`).
  - `LoadData` runs the stages in source order. It is proved equal to the
    specification function `Clean`, and the lemmas about `Clean` state what
    the cleaned table satisfies.
- `Explore`: the filter and the aggregations, as functions with lemmas.

Cleaning is not idempotent: running `load_data`'s steps on their own output
can change it again, for two reasons:

- The fences are recomputed from the clipped column, so a second pass can
  clip again. For Ground values 0, 0, 0, 100, the first pass clips 100 to
  62.5 and the second clips 62.5 to 39.0625 (`Cleaning.CleanNotIdempotent`).
- The sentinel test runs before stripping, so `" - "` becomes `"-"` and only
  turns into `"Unknown"` on a second pass (`Cleaning.PaddedDashSurvives`).

Row normalisation alone is idempotent apart from that case
(`Cleaning.NormaliseRowIdempotent`).

A Country/Region or Operator cell holding only whitespace is present, so it
is not filled with `"Unknown"`, and stripping then leaves it as the empty
string. A cleaned row therefore always has these two cells, but they may be
empty (`Cleaning.BlankNamesBecomeEmpty`).

`load_data` performs no schema or type validation of its own. The model
assumes every column it reads is present and that Ground and Fatalities
(air) hold numbers; the failures pandas raises otherwise are listed under
"Left out".

## Model

| member | source | states |
|---|---|---|
| Text.StartIndex | app.py:19-23 | the scan from the left stops at the first non-whitespace character, having passed only whitespace |
| Text.EndIndex | app.py:19-23 | the scan from the right stops after the last non-whitespace character, having passed only whitespace |
| Text.Strip | app.py:19-23 | `str.strip`: the result is an infix of the input, only whitespace is removed from either end, and the result neither starts nor ends with whitespace |
| Text.StripIdempotent | app.py:21-23 | stripping a stripped value changes nothing |
| Text.StripTrimmed | app.py:21-23 | a value with no whitespace at either end is left unchanged by stripping |
| Text.Title | app.py:19-20 | `str.title` keeps the length of the string |
| Text.TitleAt | app.py:19-20 | the left-to-right scan agrees position by position with the rule: a letter is upper-cased when it is first or the character just before it is not a letter, and lower-cased otherwise; other characters are kept |
| Text.TitleSpec | app.py:19-20 | title-casing leaves the string title-cased, changes only the case of letters, and keeps every non-letter |
| Text.TitledFixed | app.py:19-20 | a string that is already title-cased is left unchanged by title-casing |
| Text.TitleIdempotent | app.py:19-20 | title-casing twice equals title-casing once |
| Text.StripTitleIdempotent | app.py:19-20 | strip then title, applied to its own result, changes nothing |
| Text.StripTitleBoeing | app.py:20 | `" boeing "` normalises to `"Boeing"` |
| Text.TitleApostrophe | app.py:19-20 | a letter after an apostrophe starts a word: `"o'neil"` becomes `"O'Neil"` |
| Cleaning.StepsCompose | app.py:12-29 | the sentinel, fill, text and category reassignments, composed in source order, equal the one-row normalisation |
| Cleaning.CountryOutcome | app.py:12-19 | Country/Region: exact `"-"` or missing becomes `"Unknown"`; any other value is stripped and title-cased; the result is never missing and is already normal |
| Cleaning.OperatorOutcome | app.py:16-23 | Operator: missing becomes `"Unknown"`; a present value is only stripped; never missing; already stripped |
| Cleaning.TextOutcome | app.py:20-22 | Aircraft Manufacturer is stripped and title-cased; Aircraft and Location are only stripped; missing stays missing in each |
| Cleaning.CategoryOutcome | app.py:26-29 | Quarter and Month are kept exactly when in their closed sets; any other value, and a missing one, comes out missing |
| Cleaning.BlankNamesBecomeEmpty | app.py:15-23 | a whitespace-only Country/Region or Operator is not filled, and comes out as the empty string |
| Cleaning.PaddedDashSurvives | app.py:12-19 | `" - "` comes out as `"-"`, because the sentinel test precedes the strip; a second pass turns it into `"Unknown"` |
| Cleaning.NormaliseRowIdempotent | app.py:12-29 | normalising a row twice equals normalising it once, unless the first pass produced `"-"` |
| Cleaning.NormaliseKeeps | app.py:12-29 | normalisation leaves Year, Aboard, Ground, Fatalities (air) and all other columns unchanged |
| Cleaning.ValuesAgree | app.py:32-37 | tables whose column cells agree have the same non-missing values, so the quartiles read after normalisation are those of the raw column |
| Cleaning.MapRows | app.py:12-29 | a column reassignment keeps the row count and transforms each row in place |
| Stats.Sorted | app.py:32-37 | the values a quantile reads are an ascending permutation of the column's non-missing values |
| Stats.Scale | app.py:32-37 | the interpolation point (n - 1) * q lies between 0 and n - 1 |
| Stats.ScaleMonotone | app.py:32-37 | a higher quantile level gives an interpolation point that is not lower |
| Stats.Interpolate | app.py:32-37 | linear interpolation between two order statistics lies between them |
| Stats.InterpolateMonotone | app.py:32-37 | moving further along the interpolation never gives a smaller value |
| Stats.Position | app.py:32-37 | the interpolation index is floor((n - 1) * q), a valid index |
| Stats.Quantile | app.py:32-37 | the linear-interpolation quantile lies between the two neighbouring order statistics it interpolates, and equals the maximum at the last position |
| Stats.QuantileMonotone | app.py:32-37 | a higher quantile is never below a lower one |
| Stats.FenceOf | app.py:32-44 | a column has a fence exactly when it has a non-missing value; an empty column has NaN bounds, so nothing is clipped |
| Stats.FenceWellFormed | app.py:32-44 | Q1 <= Q3, so IQR >= 0 and lower bound <= Q1 <= Q3 <= upper bound; both quartiles lie within the column's range of values |
| Stats.FenceOrdered | app.py:40-44 | whenever there is a fence, its lower bound is at most its upper bound |
| Stats.FenceOfAscending | app.py:32-33 | for values already ascending, the quartiles are read directly off them |
| Stats.AscendingSortedIsSelf | app.py:32-33 | sorting values that are already ascending returns them unchanged |
| Stats.FenceExample | app.py:32-34 | Ground 0, 0, 1, 2, 3, 3, 100 has Q1 = 0.5 and Q3 = 3 |
| Stats.ClipExample | app.py:40-46 | the IQR is then 2.5, the upper bound 6.75, and 100 clips to 6.75 |
| Stats.SkewedFence | app.py:32-41 | Ground 0, 0, 0, 100 has Q1 = 0 and Q3 = 25 |
| Stats.SkewedFenceAfterClip | app.py:32-41 | Ground 0, 0, 0, 62.5 has Q1 = 0 and Q3 = 15.625 |
| Stats.ReclipMovesValue | app.py:40-46 | 100 clips to 62.5 under the first fence, and 62.5 clips to 39.0625 under the second |
| Stats.ClipValueSpec | app.py:46-47 | `ClipValue`, one cell of `Series.clip`: clipping keeps a missing value missing, puts a present value inside the bounds, leaves a value already inside unchanged, and is a no-op when repeated |
| Cleaning.ClipColumn | app.py:46-47 | the clip loop keeps the row count, clips each row's cell and touches nothing else; missing stays missing; every value lies inside a well-formed fence |
| Seqs.Dedup | app.py:50 | keep-first deduplication: every input row occurs in the output, every output row occurs in the input, no two output rows are equal, and the output is no longer |
| Seqs.DedupOrder | app.py:50 | survivors keep the relative order of their first occurrences |
| Seqs.DedupOfDistinct | app.py:50 | a table without equal rows is unchanged by deduplication |
| Seqs.DedupIdempotent | app.py:50 | deduplicating twice equals deduplicating once |
| Cleaning.DropDuplicates | app.py:50 | the in-order scan that keeps a row only if no equal row was kept computes the keep-first deduplication, with its properties |
| Cleaning.LoadData | app.py:6-52 | running the stages in order yields the cleaned table; every row has Country/Region and Operator, with Quarter and Month in their sets; both columns lie in their fences; no duplicate rows remain |
| Cleaning.CleanRowCleaned | app.py:12-47 | a fully cleaned row has Country/Region and Operator, with Quarter and Month in their sets |
| Cleaning.CleanRowInFence | app.py:32-47 | a fully cleaned row's Ground and Fatalities (air) lie in the fences of the raw columns |
| Cleaning.CleanInvariants | app.py:6-52 | `Clean`, the whole pipeline as a function of the raw table: every row of the cleaned table has Country/Region and Operator, with Quarter and Month in their sets |
| Cleaning.CleanInFence | app.py:32-50 | every non-missing Ground and Fatalities (air) value of the cleaned table lies in the fence computed from the pre-clip column |
| Cleaning.CleanComplete | app.py:6-52 | every raw row's cleaned version appears in the cleaned table |
| Cleaning.CleanSound | app.py:6-52 | every row of the cleaned table is the cleaned version of some raw row |
| Cleaning.CleanNotIdempotent | app.py:32-50 | four rows with Ground 0, 0, 0, 100 clean to a table that a second cleaning changes |
| Cleaning.SkewedClean | app.py:32-50 | those four rows clean to Ground 0, 0, 0, 62.5, all rows kept |
| Crash.Values | app.py:32-37 | the non-missing values of a numeric column, as `quantile` reads them: every present cell is included, nothing else is, and each value occurs exactly as many times as the column's cells hold it |
| Crash.Set | app.py:46-47 | assigning one numeric cell of a row changes that cell and no other |
| Explore.FilterYears | app.py:67 | `isin`: every kept row is from the table and has a selected Year, and every row with a selected Year is kept |
| Explore.FilterAppend | app.py:67 | filtering distributes over concatenation, so the original order is kept |
| Explore.FilterAll | app.py:67 | a selection that covers every Year of the table keeps the whole table |
| Explore.DefaultSelectionKeepsAll | app.py:64-67 | the default selection, every distinct Year, returns the table unchanged |
| Explore.FilterTwice | app.py:64-67 | filtering by one selection and then another equals filtering by their intersection |
| Explore.OnlySelectedYears | app.py:67 | the filtered table has only selected Years |
| Explore.YearsAscending | app.py:71 | the `groupby` keys are strictly ascending and are exactly the Years of the table |
| Explore.CrashesPerYearSpec | app.py:71 | `CrashesPerYear`, crashes per Year: keys strictly ascending and exactly the table's Years; each count is that Year's positive number of rows; the counts sum to the row count |
| Explore.CountsPositive | app.py:71 | every Year that `groupby` reports has at least one row |
| Explore.CountsAddUp | app.py:71 | the per-Year counts add up to the number of rows |
| Explore.FatalitiesPerYearSpec | app.py:115 | `FatalitiesPerYear`, fatalities per Year: the same keys, each the sum of that Year's non-missing Fatalities (air), adding up to the table total |
| Explore.SingleYearSelection | app.py:64-71 | selecting one present Year keeps only its rows and yields one crash count, for that Year |
| Explore.Present | app.py:86 | `value_counts` drops missing cells: every present value is kept, and nothing else |
| Explore.PresentCounts | app.py:86 | each value occurs among the present cells exactly as many times as the column holds it |
| Explore.Tally | app.py:86 | each distinct value with its exact number of occurrences, every present value included once |
| Explore.RankedSpec | app.py:86 | `value_counts`: distinct values with exact positive counts, in descending order of count, covering every present value |
| Explore.TopCountsCountRows | app.py:86-88 | every count shown is the number of the column's cells holding that value |
| Explore.TopCountsSpec | app.py:86-88 | `head(10)` of the counts: at most 10 entries with distinct values, exact positive counts, descending; a value is left out only when 10 are shown and none has a smaller count |
| Explore.TopCountsOfColumn | app.py:86-88 | the top-n counts stated against the column itself: at most n distinct values, each with the number of cells holding it, descending; a value the column holds is left out only when n entries are shown, none with a smaller count |
| Explore.TopRegionsSpec | app.py:82-88 | `TopRegions`, the region chart of the `else` arm: at most 10 regions, each with its number of rows, most frequent first; a region left out has no more rows than the last one shown |
| Explore.TopManufacturersSpec | app.py:105 | `TopManufacturers`, `value_counts().head(10)` of Aircraft Manufacturer: at most 10 manufacturers, each with its number of rows, most frequent first; one left out has no more rows than the last one shown |

## Left out

- The Streamlit interface is not modelled: the title, sidebar, year multiselect, `st.pyplot`, `st.map`, `st.write` and the download button. The selected years are a parameter.
- matplotlib plotting is rendering only, so it is not modelled.
- CSV reading (`read_csv` of a fixed path) and CSV writing with UTF-8 encoding are file I/O. The model starts from an already-parsed table.
- pandas dtype inference is not modelled. Aboard, Ground and Fatalities (air) are `Option<real>`, Year is `int`, and text columns are `Option<string>`; a non-string cell in a text column is not represented.
- Floating point is not modelled. Quartiles, 1.5 * IQR and the bounds are exact `real`s; IEEE rounding in pandas is not represented.
- Text.Strip: whitespace is ASCII only (tab through carriage return, 0x1C-0x1F, space). Unicode whitespace is not removed.
- Text.Title: cased letters are ASCII only. Unicode letters and title-case digraphs are not represented.
- Explore.TopCountsSpec: the order among values with equal counts is not stated, because `value_counts` does not promise one. The model breaks ties by first appearance.
- The Latitude/Longitude test is not modelled. When the file has both columns, the dashboard shows a map and does not compute the region top-10 at all. `TopRegions` models the `else` arm, which runs only when the file lacks those columns.
- Year is assumed present and integral in every row. A missing Year is not represented. pandas would make the column float with NaN, `isin` under the default selection would keep that row, and `groupby('Year')` would drop it, so the per-Year counts would then sum to less than the row count.
- The Fatalities vs. Aboard scatter plot only renders two columns, so it is not modelled.
- Columns the pipeline never touches are kept as opaque cells in `Row.rest`, and they take part in row equality for deduplication.
- `Quarter` and `Month` become pandas categoricals. The model keeps the value or makes it missing, and does not model the categorical dtype or its category order.
- Every column `load_data` reads is assumed present. The `KeyError` pandas raises for a missing column is not modelled, nor is the failure of `quantile` on a Ground or Fatalities (air) column holding non-numbers.
