# Entity resolution of movie_prediction, modelled in Dafny

movie_prediction links the lines of a movie-dialogue corpus to the performers
who spoke them. Its core has two parts.

- **Name preparation** (`movie_prediction/utils.py`):
  - `sanitize_string_column` normalises every string column.
  - `extract_names` derives four name variants from a cast record's character name: first, last, first+last and full.
- **Line resolution** (`load_actor_movie_lines` in `movie_prediction/data_loaders/processed.py`):
  - refuses a cache path equal to the export path;
  - numbers the dialogue lines;
  - joins the lines not yet claimed with the cast records in five passes. Each pass uses one key column (raw name, first, last, first+last, full) together with title and year;
  - counts the ambiguous rows;
  - attaches to every candidate row the number of candidate rows of its principal;
  - sorts by (count, principal) descending, and keeps the first row of every line id.

The project models each of these steps. For each one it proves the properties listed under "## Model": what the step computes, which pass claims a line, and what the resolved table holds.

| file | module | models |
|---|---|---|
| `wrappers.dfy` | `Wrappers` | `Option` and `Result` |
| `normalize.dfy` | `Normalize` | `sanitize_string_column` on one ASCII string |
| `names.dfy` | `Names` | `extract_names`, with `str.lstrip`, `str.count`, `str.split` and `' '.join` |
| `tables.dfy` | `Tables` | the dialogue, cast and candidate rows; the key columns; the join condition; `pd.concat` |
| `merge.dfy` | `Merge` | line numbering, the inner join, and the merge loop as a method with loop invariants |
| `resolve.dfy` | `Resolution` | the ambiguity count, value counts, left merge, sort and `drop_duplicates` |
| `pipeline.dfy` | `Pipeline` | `load_actor_movie_lines`: path check, cache short-cut, build, export decision |

The model follows the code as written at these points:

- The alphanumeric filter deletes every character outside `[0-9A-Za-z]` and whitespace. It does not replace them with a space.
- Honorifics are removed with `str.lstrip(prefix)`. That call removes the whole leading run of the prefix's characters, so "MR MARK" becomes "ARK".
- With more than one space, the full name is rebuilt from the first three tokens only, so "A B C D" has full name "A B C".
- With no duplicated line id, `value_counts()[True]` raises `KeyError`. The model returns an error for that case; every other outcome is a table.
- The default call, with both paths `None`, fails the path check.

More modelling decisions:

- **Missing values.** Dialogue character names and the `last` / `first+last` variants are `Option<string>`. A pandas merge matches missing keys with each other, and `Option` equality does the same.
- **Undefined helper.** `app.py:48` calls `sanitize_string`, which utils.py does not define; it is read as `Normalize.Sanitize` with every flag on. `main.py:29` calls it with no flags, and by `Normalize.Sanitize`'s contract that returns the text unchanged.
- **Cache and export.** The cache file's contents, when the file exists, are a parameter of `Pipeline.LoadActorMovieLines`. The method returns the path an export would be written to, not the write.

## Model

| member | source | states |
|---|---|---|
| Normalize.Sanitize | movie_prediction/utils.py:8-38 | with every flag off the string is returned unchanged; each flag that is on guarantees its step's shape in the result (only filter-surviving characters, collapsed whitespace, no whitespace at the ends, no lower-case letter) whatever the later steps do |
| Normalize.SanitizeIdempotent | movie_prediction/utils.py:30-38 | for every flag setting, sanitizing an already sanitized string changes nothing |
| Normalize.SanitizeSpacing | movie_prediction/utils.py:32-35 | with the collapse and the strip on, the result neither starts nor ends with a space, every whitespace character is a plain space and no two spaces are adjacent |
| Normalize.FilterAlnum | movie_prediction/utils.py:30-31 | every character in `[0-9A-Za-z]` or whitespace keeps its number of occurrences, every other character is gone, and the result is no longer than the input |
| Normalize.FilterAlnumAppend | movie_prediction/utils.py:30-31 | the filter of a concatenation is the concatenation of the filters, so the kept characters stay in their order |
| Normalize.FilterAlnumFixes | movie_prediction/utils.py:30-31 | a string of surviving characters is left unchanged |
| Normalize.DropSpaces | movie_prediction/utils.py:32-35 | drops a leading run of whitespace and stops at the first other character: the result is a suffix and everything removed is whitespace |
| Normalize.CollapseSpaces | movie_prediction/utils.py:32-33 | the result's only whitespace is single spaces; it is empty exactly when the input is, starts with whitespace exactly when the input does, and keeps the filter's guarantee; Normalize.CollapseKeepsWords and Normalize.CollapseSpacesLast add that the words and the trailing whitespace are kept |
| Normalize.CollapseKeepsWords | movie_prediction/utils.py:32-33 | the collapse keeps the input's words (maximal runs of non-whitespace) exactly and in order, so no two words are glued together and none is split |
| Normalize.CollapseSpacesLast | movie_prediction/utils.py:32-33 | the result ends with whitespace exactly when the input does |
| Normalize.CollapseKeepsNonSpaces | movie_prediction/utils.py:32-33 | the non-whitespace characters are kept, in order |
| Normalize.CollapseSpacesFixes | movie_prediction/utils.py:32-33 | an already collapsed string is left unchanged |
| Normalize.StripRight | movie_prediction/utils.py:34-35 | the right half of `strip()`: the result is a prefix, everything removed is whitespace, and the result does not end with whitespace |
| Normalize.Strip | movie_prediction/utils.py:34-35 | no whitespace at either end of the result; the filter's and the collapse's guarantees survive |
| Normalize.StripSlice | movie_prediction/utils.py:34-35 | the result is a slice of the input and everything removed on either side is whitespace |
| Normalize.StripFixes | movie_prediction/utils.py:34-35 | a string without whitespace at its ends is left unchanged |
| Normalize.Upper | movie_prediction/utils.py:36-37 | same length, each character upper-cased in place, no lower-case letter left, earlier guarantees kept |
| Normalize.UpperFixes | movie_prediction/utils.py:36-37 | a string without lower-case letters is left unchanged |
| Names.LStrip | movie_prediction/utils.py:54 | `lstrip(chars)` removes a leading run of characters from the set and stops at the first character outside it |
| Names.StripHonorific | movie_prediction/utils.py:53-62 | text without the prefix is unchanged; with it, at least the prefix's length is removed, every removed character belongs to the prefix and the result does not start with one of them |
| Names.StripHonorifics | movie_prediction/utils.py:53-62 | the five checks leave a suffix of the text |
| Names.StripHonorificsInOrder | movie_prediction/utils.py:53-62 | the five checks are those of the honorific list ("LT ", "MR ", "MS ", "MRS ", "MISS "), applied in that order, each to the text the previous one left |
| Names.NoHonorificUnchanged | movie_prediction/utils.py:53-62 | text that starts with none of the five honorifics passes unchanged |
| Names.NoHonorificByFirstLetters | movie_prediction/utils.py:53-62 | text starting with a letter other than L and M, or with "MA", starts with no honorific |
| Names.MrStripsRun | movie_prediction/utils.py:55-62 | after "MR " the run of M, R and space that follows is removed too, up to the first other character, and the later checks leave the rest alone |
| Names.MrEatsLeadingLetters | movie_prediction/utils.py:55-67 | a one-word name after "MR " loses its leading M's and R's: "MR MARK" gives the single name "ARK" |
| Names.CountSpaces | movie_prediction/utils.py:65 | `count(' ')` is at most the text's length |
| Names.CountSpacesZero | movie_prediction/utils.py:65-67 | the count is zero exactly when the text holds no space |
| Names.CountSpacesAppend | movie_prediction/utils.py:65 | the count of a concatenation is the sum of the counts |
| Names.JoinSpaces | movie_prediction/utils.py:73 | `' '.join` of n space-free tokens holds exactly n - 1 spaces |
| Names.SplitSpaces | movie_prediction/utils.py:65-72 | `split(' ')` gives one token more than there are spaces, no token holds a space, and joining the tokens with spaces gives back the text |
| Names.SplitJoin | movie_prediction/utils.py:69-73 | splitting the space-join of space-free tokens gives the tokens back |
| Names.ExtractNames | movie_prediction/utils.py:41-75 | first and last hold no space; last is present exactly when first+last is, and exactly when the stripped text holds a space |
| Names.ExtractNamesOneToken | movie_prediction/utils.py:64-67 | no space: first and full are the stripped text, last and first+last are absent |
| Names.ExtractNamesTwoTokens | movie_prediction/utils.py:68-70 | one space: first, a space and last rebuild the text, which is also first+last and full |
| Names.ExtractNamesManyTokens | movie_prediction/utils.py:71-73 | more than one space: first+last is first, space, last; full is first, a space-free middle token and last; full is a prefix of the text, all of it with two spaces and ending before the third space otherwise |
| Names.ExtractNamesFromTokens | movie_prediction/utils.py:64-73 | the four variants as a function of the stripped text's tokens, for one, two and more tokens |
| Names.FullKeepsThreeTokens | movie_prediction/utils.py:53-73 | for four space-free tokens that start with no honorific, the full name keeps only the first three and the last name is the third token ("A B C D" gives full "A B C") |
| Tables.MatchesMissing | movie_prediction/data_loaders/processed.py:50-53 | the join condition on a line without a character name: it matches a cast record only on the last-name or first+last column, only where the record lacks that variant too, and only with equal title and year |
| Tables.ConcatMembers | movie_prediction/data_loaders/processed.py:56-57 | `pd.concat`: a row is in the concatenation exactly when it is in one of the parts |
| Tables.ConcatHas | movie_prediction/data_loaders/processed.py:56-57 | every row of every part is in the concatenation |
| Merge.NumberLines | movie_prediction/data_loaders/processed.py:35 | each line's `Line ID` is its position and its other columns are those of the dialogue row |
| Merge.NumberLinesUnique | movie_prediction/data_loaders/processed.py:35 | line ids are unique |
| Merge.Unclaimed | movie_prediction/data_loaders/processed.py:49-50 | the filter is no longer than the numbered lines; Merge.UnclaimedMembers and Merge.UnclaimedCount give its members and their multiplicities |
| Merge.UnclaimedCount | movie_prediction/data_loaders/processed.py:49-50 | the filter holds each unclaimed line exactly as often as the input does, and no claimed line |
| Merge.UniqueCount | movie_prediction/data_loaders/processed.py:35 | with unique line ids, each line occurs exactly once |
| Merge.UnclaimedMembers | movie_prediction/data_loaders/processed.py:49-50 | the lines passed to a join are exactly the lines whose id is not yet claimed |
| Merge.JoinLine | movie_prediction/data_loaders/processed.py:50-54 | the rows of one line pair it with cast records that match it on the key column, title and year |
| Merge.Join | movie_prediction/data_loaders/processed.py:50-54 | the inner join has at most (lines × cast records) rows; Merge.JoinSound, Merge.JoinMultiplicity and Merge.JoinCovers state which rows it holds |
| Merge.JoinSound | movie_prediction/data_loaders/processed.py:50-54 | every row of a pass pairs one of its input lines with a cast record equal to it on `(Character = key, Title, Year)` |
| Merge.JoinMultiplicity | movie_prediction/data_loaders/processed.py:50-54 | a (line, cast record) pair occurs as often as the line times the record when they match, and never otherwise: a line matching k records yields k rows |
| Merge.PassMultiplicity | movie_prediction/data_loaders/processed.py:48-56 | within one pass, an unclaimed line that matches a cast record on the pass's column is paired with it once per copy of the record, so a line matching k cast records yields k rows |
| Merge.JoinCovers | movie_prediction/data_loaders/processed.py:50-54 | a matching pair of an input line and a cast record is in the join |
| Merge.PassesFrom | movie_prediction/data_loaders/processed.py:46-56 | one table per key column still to try; Merge.PassRowsMatch, Merge.PassesDisjoint and Merge.FirstMatchWins state what each holds |
| Merge.Passes | movie_prediction/data_loaders/processed.py:41-56 | five tables, one per column of `MERG_COLS`; each row of pass i pairs a line with a cast record matching it on column i; no pass shares a line id with another |
| Merge.MergeLines | movie_prediction/data_loaders/processed.py:41-57 | the loop produces the concatenation of the five passes, each pass joining the lines unclaimed so far; the claimed set ends equal to the set of line ids in the candidate table |
| Merge.PassRowsMatch | movie_prediction/data_loaders/processed.py:46-56 | each row of pass i joins a line not claimed before to a cast record on key column i |
| Merge.PassesDisjoint | movie_prediction/data_loaders/processed.py:46-56 | no pass holds a previously claimed line id and no two passes share a line id |
| Merge.SinglePassPerLine | movie_prediction/data_loaders/processed.py:46-57 | all candidate rows of a line id come from one pass, hence one key column |
| Merge.PassClaims | movie_prediction/data_loaders/processed.py:49-55 | a pass claims an unclaimed line exactly when some cast record matches it on the pass's column |
| Merge.FirstMatchWins | movie_prediction/data_loaders/processed.py:41-57 | a line is claimed by pass i exactly when column i matches it and no earlier column does |
| Merge.MatchClaimed | movie_prediction/data_loaders/processed.py:46-57 | an unclaimed line that matches on one of the columns is claimed by some pass |
| Merge.RawMatchIsFinal | movie_prediction/data_loaders/processed.py:41-57 | a line matching a raw character name is claimed by the first pass and by no later one |
| Merge.MergedRowsMatch | movie_prediction/data_loaders/processed.py:48-57 | every candidate row pairs a dialogue line with a cast record that matches it on some key column |
| Merge.MergedLineIds | movie_prediction/data_loaders/processed.py:46-57 | the candidate table's line ids are exactly those of the lines some cast record matches on some key column |
| Resolution.Duplicated | movie_prediction/data_loaders/processed.py:62 | one mark per candidate row |
| Resolution.DuplicatedMarksRepeats | movie_prediction/data_loaders/processed.py:62 | a row is marked exactly when another row carries the same line id, as `duplicated(keep=False)` does |
| Resolution.AmbiguousRowCount | movie_prediction/data_loaders/processed.py:62 | the `KeyError` comes exactly when no row is marked; a count never exceeds the number of rows |
| Resolution.AmbiguousRowCountFails | movie_prediction/data_loaders/processed.py:62 | the count fails (`KeyError`) exactly when no line id occurs twice among the candidates; otherwise it is between 2 and the number of rows |
| Resolution.ValueCounts | movie_prediction/data_loaders/processed.py:65 | the keys are the principals of the table and each value is that principal's number of rows, duplicates included |
| Resolution.WithPrincipalLines | movie_prediction/data_loaders/processed.py:64-67 | the left merge keeps the rows in order and gives each the number of candidate rows naming its principal |
| Resolution.StrLeTotal | movie_prediction/data_loaders/processed.py:68-70 | any two strings are ordered one way or the other by code-point lexicographic order |
| Resolution.StrLeTrans | movie_prediction/data_loaders/processed.py:68-70 | that order is transitive |
| Resolution.StrLeAntisym | movie_prediction/data_loaders/processed.py:68-70 | two strings each at most the other are equal |
| Resolution.RanksAboveTotal | movie_prediction/data_loaders/processed.py:68-70 | of two rows, one sorts no later than the other by (count, principal) descending |
| Resolution.RanksAboveTrans | movie_prediction/data_loaders/processed.py:68-70 | the sort order is transitive |
| Resolution.RanksAboveAntisym | movie_prediction/data_loaders/processed.py:68-70 | rows that each sort no later than the other agree on count and principal |
| Resolution.Insert | movie_prediction/data_loaders/processed.py:68-70 | inserting into a sorted table gives a sorted table with one more copy of the row |
| Resolution.SortDesc | movie_prediction/data_loaders/processed.py:68-70 | the sorted table is in descending (count, principal) order and is a permutation of its input |
| Resolution.KeepFirst | movie_prediction/data_loaders/processed.py:71 | each kept row is an input row with a line id not seen before, and the kept line ids are the input's minus those seen |
| Resolution.KeepFirstIsFirst | movie_prediction/data_loaders/processed.py:71 | `keep='first'`: each kept row is the first row of the input that carries its line id |
| Resolution.DropDuplicateLines | movie_prediction/data_loaders/processed.py:71 | `drop_duplicates(subset=[LINE_ID])` keeps only input rows, keeps every line id of the input and keeps no line id twice |
| Resolution.DropDuplicateLinesKeepsFirst | movie_prediction/data_loaders/processed.py:71 | with `keep='first'`, each row left is the first row of the input with its line id |
| Resolution.KeepFirstDistinct | movie_prediction/data_loaders/processed.py:71 | no two kept rows share a line id |
| Resolution.KeepFirstBest | movie_prediction/data_loaders/processed.py:68-71 | on a sorted table, the row kept for a line id sorts no later than any row of that line id |
| Resolution.KeepFirstSorted | movie_prediction/data_loaders/processed.py:71 | dropping duplicates from a sorted table leaves it sorted |
| Resolution.Resolve | movie_prediction/data_loaders/processed.py:64-71 | the resolved table has exactly the candidates' line ids, one row each |
| Resolution.ResolveRowsAreCandidates | movie_prediction/data_loaders/processed.py:64-71 | each resolved row is a candidate row carrying its principal's row count |
| Resolution.ResolveKeepsBest | movie_prediction/data_loaders/processed.py:64-71 | the row kept for a line id has the greatest (count, principal) among that line's candidate rows, and any candidate row tied with it names the same principal with the same count |
| Resolution.ResolveSorted | movie_prediction/data_loaders/processed.py:68-71 | the resolved table is in descending (count, principal) order |
| Pipeline.CandidateTable | movie_prediction/data_loaders/processed.py:34-57 | every candidate row pairs a numbered dialogue line with a cast record that matches it on some key column; the table's line ids are exactly those of the lines some cast record matches |
| Pipeline.BuildFromScratch | movie_prediction/data_loaders/processed.py:34-71 | the build returns the `KeyError` exactly when no line id is repeated among the candidates, and no other error |
| Pipeline.LoadActorMovieLines | movie_prediction/data_loaders/processed.py:18-79 | equal cache and export paths (two `None`s included) fail before any work; a non-empty cache path naming a file returns its table; otherwise the table is built from scratch or the `KeyError` is returned; the export path is used only when it is non-empty and a table was produced |
| Pipeline.BuildFromScratchResolves | movie_prediction/data_loaders/processed.py:34-71 | the build fails exactly when no line id is repeated among the candidates; otherwise it has one row per dialogue line that some cast record matches on a key column, each row pairs that line with a matching cast record, and its principal ranks highest among the line's candidates |

## Left out

- processed.py:4 imports `load_actor_character_data`, and processed.py:28 calls it. raw.py does not define that name: it defines `load_principal_character_data` (raw.py:6 and raw.py:9). So processed.py as written raises `ImportError` when it is imported. The model reads the call as `load_principal_character_data`, and the `cast` parameter stands for the table that function returns.
- File reading in `movie_prediction/data_loaders/raw.py` is not modelled; the dialogue and cast tables are parameters. That covers the CSV reading, list parsing, `explode`, the joins with external metadata and the year regex.
- The cache read and the TSV export (processed.py:21-23 and 77-79) are file I/O. The cache contents are a parameter, and the export is reported as the path written to.
- The `print` statistics and the floating-point percentage (processed.py:75) are output only.
- `movie_prediction/wrappers.py` (model inference in torch), `app.py` and `main.py` (user interfaces), `movie_prediction/constants.py` (names only) and `setup.py` (packaging) are not part of this model.
- Characters are ASCII. Python's Unicode whitespace and Unicode upper-casing are not modelled.
- Principals are always present strings. A missing principal, which `value_counts` would skip, is not modelled.
- The model assumes pandas before 2.0, as the `error_bad_lines` argument in raw.py implies: `str.replace` takes a regular expression, and `value_counts().reset_index()` names its columns as the code expects.
- Resolution.SortDesc: stability is not stated. Within one line id, rows tied on (count, principal) may still come from different cast records. Resolution.KeepFirstIsFirst says the first of them in sorted order survives, but the model does not say which one the sort puts first; that depends on pandas' row order in the join and the sort. Resolution.ResolveKeepsBest shows that the kept principal and count do not depend on it. Resolution.KeepFirst and Resolution.DropDuplicateLines do not state that the kept rows stay in input order, which `drop_duplicates` guarantees; on the resolved table, Resolution.ResolveSorted fixes that order up to the same ties.
- Merge.Join: the row order within a pass is lines first, then cast records. pandas may group rows by key instead. Only the order of the rows and the tie choice above depend on it.
