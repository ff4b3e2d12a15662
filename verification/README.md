# Census district aggregation, modelled in Dafny

The repository turns Hungarian census tables into one record per district. The tables are published per county, in long format, with one row per district, category and census year (2011 or 2022). This project models that core as pure Dafny functions over sequences and proves what the records mean.

- **Religion** (`religion.dfy`) models `transform_religion_data` and `get_value_for_religion`. Null values become zero. Rows are flagged religious unless their category is `RE_NOT`. Each record holds the following for 2011 and 2022:
  - the nine per-denomination counts, each the first matching value clamped at zero;
  - the share of religious people.

  It also holds the change in the religious population relative to 2011.
- **Educational attainment** (`education.dfy`) models `transform_educational_attainment_data`, `calculate_normalized_value` and `get_value_for_educational_attainment`.
  - Category codes map to levels through their last digit.
  - Each year gets a score `((Σ value·level / Σ value) − 1) / 4`.
  - The five per-level counts are kept, along with the difference between the two scores.
- **Combining** (`combine.dfy`) models `combine_data_frame`. It is pandas' `DataFrame.join` with `rsuffix='_RIGHT'`, a left join on the row index, followed by `del` of the right-hand copy of the key column. Tables are modelled with their positional index, so row *i* of the left table meets row *i* of the right table.
- **County catalogue** (`counties.dfy`) models the `COUNTY_NAMES` table and the entry-building loop of `collect_counties`. Listing the directory, reading the files and writing JSON are left to the caller: the file names and each file's `TERUL_GEO5` column are parameters.

Shared pieces:
- `series.dfy` covers `pd.unique`, the first-occurrence index, `sum` and `max(x, 0)`.
- `frames.dfy` covers the long-format row and the district/year slices.
- `ratios.dfy` holds inequality facts about real division.
- `wrappers.dfy` holds `Option` and `Result`.

Arithmetic is exact (`real`), so `round(·, 4)` and floating-point effects are not modelled.

Some behaviours of the code that are easy to get wrong are modelled as written:
- A missing category makes `values[0]` raise an `IndexError`. The model makes the category's presence a precondition (`Frames.ValueFor`).
- `combine_data_frame` joins by row position, not by the values of the key column.
- Its two guard lines build a tuple and discard it, so the returned flag is always `True`.
- A county's `ids` are a list in first-appearance order (`pd.unique`).
- The 2011 higher-education count is read from the 2022 rows (see "## Findings"). `Education.Transform` does the same; `Education.IntendedTransform` is the corrected version.

## Model

| member | source | states |
|---|---|---|
| Series.Unique | data_processing/religion.py:78 | `pd.unique`: the result has no duplicates and holds exactly the values of the column, no more than the column's length |
| Series.UniqueInFirstAppearanceOrder | data_processing/religion.py:78 | the distinct values appear in the order of their first occurrence in the column |
| Frames.Slice | data_processing/religion.py:79-83 | a district/year slice holds exactly the table's rows with that district and year: every row it holds matches and comes from the table, and every matching row of the table is in it |
| Frames.SliceConcat | data_processing/religion.py:79-83 | slicing distributes over concatenation, so the slice keeps the table order of the matching rows |
| Frames.SliceIgnoresOtherYears | data_processing/religion.py:81-83 | dropping rows of other years leaves a kept year's slice unchanged |
| Frames.ValueFor | data_processing/religion.py:6-13 | the value of the first row carrying the category, clamped at zero; defined only when such a row exists (`values[0]`) |
| Religion.FillNulls | data_processing/religion.py:48-49 | `fillna(0)`: same rows and fields, a null becomes 0 and any other value is kept |
| Religion.NullsAddNothing | data_processing/religion.py:49 | the filled column sums to the sum of the values that were present |
| Religion.ReligiousSum | data_processing/religion.py:86 | the religious sum is non-negative for non-negative values, and zero when every row is `RE_NOT`; which values it adds is stated by `Religion.SumsAreAdditive` and `Religion.SumsOfOneRow` |
| Religion.NonReligiousSum | data_processing/religion.py:89 | the `RE_NOT` sum is non-negative for non-negative values, and zero when no row is `RE_NOT`; which values it adds is stated by `Religion.SumsAreAdditive` and `Religion.SumsOfOneRow` |
| Religion.SumsAreAdditive | data_processing/religion.py:86-89 | both sums add up over concatenated tables, so each is the sum of its rows' single-row contributions |
| Religion.SumsOfOneRow | data_processing/religion.py:46 | a row adds its value to the religious sum exactly when its category is not `RE_NOT`, and to the `RE_NOT` sum otherwise |
| Religion.SplitSumsTotal | data_processing/religion.py:86-89 | the religious sum and the `RE_NOT` sum together make up the slice's total |
| Religion.Percentage | data_processing/religion.py:92-94 | the percentage is the religious share of the total; with non-negative inputs it lies in [0, 1], and it is 1 when no one is non-religious |
| Religion.Change | data_processing/religion.py:107-111 | the change is the growth relative to the 2011 religious population; for a positive 2011 count its sign is the sign of the difference |
| Religion.CountsOfMeaning | data_processing/religion.py:116-134 | each of the nine count columns holds the clamped first value of its own category code |
| Religion.Summarize | data_processing/religion.py:79-137 | the loop body yields a record for the district it was given; what its fields hold is stated by `Religion.RecordMeaning` |
| Religion.Transform | data_processing/religion.py:78-137 | one record per distinct district, in order, each built from that district's rows |
| Religion.OneRecordPerDistrict | data_processing/religion.py:78 | record *i* is for district *i* of `pd.unique` of the input's district column, and no two records share a district |
| Religion.RecordMeaning | data_processing/religion.py:114-137 | every count is non-negative and read from its own year; each percentage is the religious share of that year's total; the change is relative to 2011 |
| Religion.PercentagesAreFractions | data_processing/religion.py:92-105 | with non-negative values both percentages lie in [0, 1] |
| Religion.OtherYearsIgnored | data_processing/religion.py:81-83 | rows of years other than 2011 and 2022 change no record |
| Education.LevelOf | data_processing/educational_attainment.py:41 | `int(code[-1])`: a level 0 to 9 that is the code's last digit |
| Education.ToLevels | data_processing/educational_attainment.py:41 | only the category column changes, and each group becomes the level its code ends with |
| Education.WeightedTotalConcat | data_processing/educational_attainment.py:15 | the weighted total of two concatenated tables is the sum of their weighted totals |
| Education.WeightedTotalOfOneRow | data_processing/educational_attainment.py:15 | a single row contributes its value times its level, so with `Education.WeightedTotalConcat` the weighted total is Σ value·level |
| Education.NormalizedScore | data_processing/educational_attainment.py:14-19 | 4·score + 1 is the weighted mean level of the rows |
| Education.WeightedTotalBounds | data_processing/educational_attainment.py:15-17 | with levels 1 to 5 and non-negative values, the weighted total lies between 1 and 5 times the total |
| Education.ScoreIsFraction | data_processing/educational_attainment.py:14-19 | with levels 1 to 5, non-negative values and a positive total, the score lies in [0, 1] |
| Education.ScoreOfOneLevel | data_processing/educational_attainment.py:14-19 | when everyone is at one level, the score is (level − 1) / 4 |
| Education.ScoreExample | data_processing/educational_attainment.py:14-19 | 10, 20, 30, 30 and 10 people at levels 1 to 5 give 310 over 100 and a score of 0.525 |
| Education.CountsFor | data_processing/educational_attainment.py:80-89 | each per-level column holds the clamped first value of that level in the slice it is read from |
| Education.SummarizeAsWritten | data_processing/educational_attainment.py:63-91 | the loop body as written yields a record for the district it was given; what its fields hold is stated by `Education.HigherEducation2011IsRead2022` |
| Education.Summarize | data_processing/educational_attainment.py:63-91 | the loop body with line 84 corrected yields a record for the district it was given; what its fields hold is stated by `Education.RecordMeaning` |
| Education.Transform | data_processing/educational_attainment.py:62-91 | as written: one record per distinct district, in order, each the as-written loop body applied to that district's rows |
| Education.IntendedTransform | data_processing/educational_attainment.py:62-91 | the same with line 84 corrected: each record is the corrected loop body applied to that district's rows |
| Education.OneRecordPerDistrict | data_processing/educational_attainment.py:62 | record *i* of the as-written output is for district *i* of `pd.unique` of the input's district column, and no two records share a district |
| Education.RecordMeaning | data_processing/educational_attainment.py:69-89 | for the corrected record: each score is its year's normalised mean level, the change is their difference, and every count is the clamped value of its level in its own year |
| Education.ScoresAreFractions | data_processing/educational_attainment.py:69-73 | for the as-written record, with levels 1 to 5 and non-negative values, both scores lie in [0, 1] and the change in [−1, 1] |
| Education.HigherEducation2011IsRead2022 | data_processing/educational_attainment.py:69-89 | for the as-written record: the scores and change as in `RecordMeaning`, the 2011 counts of levels 1 to 4 and all 2022 counts from their own year, but the 2011 higher-education count from the 2022 slice, equal to the 2022 one; where the corrected precondition holds, only the 2011 counts differ from the corrected record |
| Education.HigherEducation2011Counterexample | data_processing/educational_attainment.py:84 | a district with 7 people of higher education in 2011 and 3 in 2022 gets a 2011 count of 3 as written and 7 corrected |
| Combine.Join | utils/combine.py:21 | the join keeps the left table's row count, and its columns are the left columns followed by the right ones, renamed with `_RIGHT` where the left already has the name; it is well formed when those names are distinct |
| Combine.DeleteColumn | utils/combine.py:23 | `del`: fails exactly when the column is missing; otherwise the column is gone, every other column stays and no row is lost |
| Combine.DeleteColumnKeepsOthers | utils/combine.py:23 | deleting a column leaves every other cell unchanged |
| Combine.CombineFrames | utils/combine.py:17-25 | the flag is always true; the call fails exactly when the right-hand key copy is missing, and it cannot fail when both tables have the key; the result keeps the left rows and drops the copy but keeps the key |
| Combine.KeyCopyPresence | utils/combine.py:21-23 | the right-hand key copy exists when both tables have the key, and, barring a pre-existing column of that name, only then |
| Combine.LeftCellsKept | utils/combine.py:21 | every left-hand cell outside a column named `<on>_RIGHT` is unchanged in the result, the key included |
| Combine.RightCellsAligned | utils/combine.py:21 | right-hand row *i* lands beside left row *i*, by position and not by key, under its possibly suffixed name; past the right table's end the cells are missing |
| Counties.Lookup | data_processing/counties.py:43 | dictionary lookup: no result exactly when no entry has the key; otherwise the result is paired with the key in the table |
| Counties.CountyName | data_processing/counties.py:43 | `COUNTY_NAMES[stem]`: no name exactly when the stem is not in the table; a name found ends in " megye" |
| Counties.NamesEndInMegye | data_processing/counties.py:6-27 | every county name in the table ends in " megye" |
| Counties.TableIsOneToOne | data_processing/counties.py:6-27 | twenty counties with distinct stems and distinct names |
| Counties.NamesDistinct | data_processing/counties.py:6-27 | different stems give different county names |
| Counties.StripCsv | data_processing/counties.py:39 | `replace('.csv', '')` never lengthens a name and leaves a name without a dot unchanged |
| Counties.StripCsvOfFilename | data_processing/counties.py:39 | a stem without a dot is recovered from `<stem>.csv` |
| Counties.TableFilesResolve | data_processing/counties.py:39-43 | the file of every county in the table resolves to that county's name |
| Counties.CollectCounties | data_processing/counties.py:38-58 | succeeds exactly when every file's stem is known; otherwise the error names the first unknown stem; entry *k* has id *k*+1, its county's name and the distinct district ids of its file |
| Counties.CatalogueIsOneToOne | data_processing/counties.py:41-56 | entry ids increase from 1, no entry lists a district twice, and different stems give different names |

## Left out

- Religion.Transform: requires every district to have all nine categories in both years, non-zero totals and a non-zero 2011 religious count. Without them the source fails in one of three ways:
  - a district with no rows in a year has sums that are the Python integer 0, so the division at religion.py:92 or :103 raises `ZeroDivisionError`;
  - a missing category makes `values[0]` raise `IndexError`;
  - a zero total of numpy floats makes the division yield infinity or NaN.
  The model has neither exceptions nor such values.
- Education.Transform: requires every category code to end in a digit, levels 1 to 4 in each district's 2011 rows, levels 1 to 5 in its 2022 rows, and non-zero totals. A district with no rows in a year makes `calculate_normalized_value` divide the integer 0 by 0 (educational_attainment.py:19), which raises `ZeroDivisionError`. The other cases fail as for `Religion.Transform`.
- Education.IntendedTransform: needs level 5 in the 2011 rows as well, because the corrected line 84 reads it there.
- Religion.Percentage: with numpy floats, a zero total gives NaN or infinity; the model requires a non-zero total.
- Religion.Change: a zero 2011 religious count gives infinity or NaN; the model requires a non-zero count.
- Education.NormalizedScore: a zero total gives infinity or NaN; the model requires a non-zero total.
- Education.LevelOf: `int()` accepts any Unicode decimal digit; the model accepts only `0` to `9`. Levels 0 and 6 to 9 pass the source unchecked and weigh into the score; the score bounds assume levels 1 to 5.
- Combine.CombineFrames: pandas allows duplicate column names after a join; the model requires the joined columns to be distinct. The caller's two tables share only the key `id`. The row index is assumed to be the positional one that both aggregations build.
- Combine.Join: dtype changes (an integer column becoming float when missing values are filled in) are not modelled; cells are generic values.
- Counties.CollectCounties: takes the directory listing and each file's `TERUL_GEO5` column as parameters. The listing order is whatever the operating system returns. Missing values in the id column are not modelled.
- `round(·, 4)` on percentages, the religion change and the attainment scores: arithmetic is exact, so rounding is not modelled.
- Floating-point effects of `sum` and division are not modelled: sums and quotients are exact reals.
- CSV reading and column renaming, `na_values='null'` in the religion reader, and pandas' default missing-value markers in the attainment reader are not modelled. Attainment values are always present numbers.
- Output writing is not modelled: `counties.json`, `get_counties`, and the commented-out per-county JSON in `main.py`.
- The `main.py` driver is not part of this model: it loops over counties, concatenates the frames and draws the plots.
- `utils/paths.py` is not part of this model: it builds paths and checks that files exist. Its `get_list_of_counties` lists only the religion folder (paths.py:33).
- `get_number_of_people_by_religion` (religion.py:142-149) is an unfinished stub that calls `pd.read_csv()` with no file; it is not modelled.

## Findings

| source | as written | input that shows it | evidently intended | confidence | as-written member | corrected member |
|---|---|---|---|---|---|---|
| data_processing/educational_attainment.py:84 | `higher_education_2011` is read from `records_2022` | district `d`, one person at each of levels 1 to 4 in both years, 7 at level 5 in 2011 and 3 in 2022: the 2011 column reports 3 | read from `records_2011`, like the four 2011 columns above it | high; not executed | Education.HigherEducation2011Counterexample | Education.RecordMeaning |

The as-written half:
- `Education.SummarizeAsWritten` is the loop body as written, and `Education.Transform` applies it to every district.
- `Education.HigherEducation2011IsRead2022` states what its records hold.

The corrected half:
- `Education.Summarize` reads every 2011 count from the 2011 slice, and `Education.IntendedTransform` applies it to every district.
- `Education.RecordMeaning` states what its records hold.
- For that reason `Education.Summarizable` also asks for level 5 in 2011.
