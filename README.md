# Agent 3: use-case parser and dataset aggregator

This project models the third agent of a pipeline. The pipeline turns a
company's website into AI/ML use cases and dataset links for them. Agent 3
does three things:

- `extract_use_case_details` cuts the generated use-case text into blocks at
  every `\n\n`. It strips each block and cuts it into lines at every `\n`.
  It reads the lines of the stripped block that start with
  `**Use Case Title:**`, `**Description:**` or `**Keywords:**` into one record
  per block. It keeps at most four keywords.
- `fetch_datasets_from_kaggle` turns the catalog's answer for one keyword into
  resources of the form `{name, url, source}`. A failing catalog call gives no
  resources.
- `process_and_aggregate` takes the first catalog hit of every keyword of
  every record as one tuple `(title, description, keyword, name, link,
  source)`. It then groups the tuples by `(title, description)`. Each
  remaining column of a group is reduced to `", ".join(sorted(unique values))`.

The Python string operations the code relies on are modelled over code
points in module `Strings`: `isspace`, `strip`, `startswith`, `split` with a
separator, and `join`. Python's string order, `unique()` and `sorted` are
modelled in module `Ordering`. The catalog is a parameter
`search: string -> SearchOutcome`, which for each query either lists datasets
or raises. Both loops of the source are modelled as methods:
`UseCaseParser.ExtractUseCaseDetails` and `Aggregation.ProcessAndAggregate`.
Each is proved equal to a function, and the properties are proved as lemmas
about those functions.

Behaviours of the code worth knowing:

- A record that lacks a marker line lacks that field; no empty default is
  filled in. `process_and_aggregate` then raises `KeyError` for the first
  missing key (title, then description, then keywords) of the first such
  record. The model returns `Err(KeyError(key))`.
- `groupby` sorts its keys, so rows come out in ascending (title,
  description) order, whatever the order of the records.
- The keyword cell lists only the keywords that had a catalog hit. A record
  whose keywords are `retail sales, inventory, forecasting, demand`, with
  only `inventory` listed by the catalog, gets the keyword cell `inventory`
  (`Aggregation.DemandForecastingExample`,
  `Aggregation.KeywordCellIsSortedHitKeywords`).
- The limits of four keywords and one hit per keyword are fixed constants
  (`UseCaseParser.MaxKeywords`, `Aggregation.MaxHitsPerKeyword`).
- An empty accumulation gives an empty frame, not an error.

## Model

| member | source | states |
|---|---|---|
| UseCaseParser.ParseText | agents/agent3_resources.py:30-46 | Definition of the parse: `ParseBlocks` over the pieces of `text.split("\n\n")`; properties in `ParseBlocksConcat`, `BlockYieldsRecordIffMarkerLine` and `BlankBlockYieldsNothing`. |
| UseCaseParser.ParseBlock | agents/agent3_resources.py:34-45 | Definition of one block's record: the lines of the stripped block, scanned from an empty record, kept iff some field was set; properties in `BlockYieldsRecordIffMarkerLine` and `ParseOneBlock`. |
| UseCaseParser.ApplyLine | agents/agent3_resources.py:37-43 | Definition of one inner-loop step: a title, description or keywords marker line sets that field, any other line changes nothing; properties in `FieldComesFromLastMarkerLine` and `MarkersExclusive`. |
| UseCaseParser.ExtractUseCaseDetails | agents/agent3_resources.py:30-46 | The nested loops over blocks and lines return exactly `ParseText(text)`: the record of each block that has a marker line, in block order. |
| UseCaseParser.ValueAfter | agents/agent3_resources.py:38 | `line.split(marker)[1]` on a line starting with the marker is the text right after the marker. That text contains no marker, and it runs to the next occurrence of the marker or to the end of the line. |
| UseCaseParser.KeywordList | agents/agent3_resources.py:42-43 | A keywords value always yields between one and four keywords. |
| UseCaseParser.KeywordsAreLeadingFields | agents/agent3_resources.py:42-43 | For any comma-free fields that join with `,` to the stripped value, the keywords are the first `min(4, fields)` fields, stripped and in their original order. |
| UseCaseParser.BlankKeywordsValue | agents/agent3_resources.py:42-43 | A blank keywords value gives the list `[""]`, not an empty list. |
| UseCaseParser.FieldComesFromLastMarkerLine | agents/agent3_resources.py:35-43 | A field is absent iff no line of the block starts with its marker. When present, it holds the value of the last line that starts with its marker. |
| UseCaseParser.MarkersExclusive | agents/agent3_resources.py:37-41 | A line starts with at most one of the three markers, so the `if`/`elif` order never hides a field. |
| UseCaseParser.BlockYieldsRecordIffMarkerLine | agents/agent3_resources.py:44-45 | A block yields a record iff one of the lines of the stripped block starts with one of the three markers. |
| UseCaseParser.BlankBlockYieldsNothing | agents/agent3_resources.py:32-45 | A blank block, such as the text between two consecutive separators, yields no record. |
| UseCaseParser.ParseBlocksConcat | agents/agent3_resources.py:31-46 | Parsing a sequence of blocks is parsing its parts and concatenating the results, so records keep block order. |
| UseCaseParser.ParseOneBlock | agents/agent3_resources.py:33-45 | One block yields its record, or nothing. |
| Strings.Strip | agents/agent3_resources.py:34 | Definition of `str.strip()` as `lstrip` then `rstrip` over Python's whitespace; properties in `StripShape` and `StripBlank`. |
| Strings.Find | agents/agent3_resources.py:38 | The first index at which the separator occurs, or `None` when it occurs nowhere, which is where `split` cuts. |
| Strings.Split | agents/agent3_resources.py:32 | Definition of `str.split(sep)`: cut at the first occurrence, then split the rest; it always yields at least one piece; properties in `SplitJoin`, `SplitFirstPiece` and `SplitCharIsUnique`. |
| Strings.Join | agents/agent3_resources.py:79-82 | Definition of `sep.join(xs)`; its use on cells is stated by `Aggregation.RowCellIsSortedDistinctValues`. |
| Strings.SplitJoin | agents/agent3_resources.py:32-34 | Joining the pieces of `s.split(sep)` with `sep` gives back `s`, and no piece contains `sep`. |
| Strings.SplitCharIsUnique | agents/agent3_resources.py:42 | `s.split(c)` is the only decomposition of `s` into `c`-free pieces that joins back to `s` with `c`. |
| Strings.SplitFirstPiece | agents/agent3_resources.py:38 | The first piece of a split is a prefix that ends at the first occurrence of the separator or at the end of the string. |
| Strings.StripShape | agents/agent3_resources.py:34 | `strip()` removes a whitespace prefix and a whitespace suffix. What is left is empty or starts and ends with a non-space. |
| Strings.StripBlank | agents/agent3_resources.py:34 | A blank string strips to the empty string. |
| KaggleSearch.FetchDatasetsFromKaggle | agents/agent3_resources.py:15-27 | A raising call gives `[]`. Otherwise there is one resource per listed dataset, in catalog order, named by its title, with source `Kaggle` and URL equal to the Kaggle prefix followed by exactly the dataset reference. |
| Aggregation.FirstHits | agents/agent3_resources.py:62 | Definition of `fetch_datasets_from_kaggle(keyword)[:1]`; its contribution is stated by `EntriesFor`. |
| Aggregation.CollectEntries | agents/agent3_resources.py:53-71 | Definition of `all_resources` after the outer loop, or the `KeyError` that stops it; properties in `CollectEntriesFails` and `CollectedEntriesAreFirstHits`. |
| Aggregation.RequiredFields | agents/agent3_resources.py:54-56 | Reading the three keys succeeds iff the record is complete. Otherwise it fails with the `KeyError` of the first missing key, in the order title, description, keywords. |
| Aggregation.EntriesFor | agents/agent3_resources.py:62-71 | A keyword contributes exactly one tuple, built from the first listed dataset, when the catalog lists any. It contributes none when the catalog lists nothing or raises. |
| Aggregation.KeywordEntriesAreFirstHits | agents/agent3_resources.py:60-71 | A record's keywords contribute at most one tuple each. The tuples are exactly the first hits of those keywords that have one. |
| Aggregation.CollectEntriesFails | agents/agent3_resources.py:53-56 | Accumulation fails iff some record is incomplete. It then fails with the `KeyError` of the first incomplete record. |
| Aggregation.CollectEntriesFailsAt | agents/agent3_resources.py:53-56 | After complete records up to index `u`, an incomplete record at `u` ends accumulation with its own `KeyError`. |
| Aggregation.CollectedEntriesAreFirstHits | agents/agent3_resources.py:53-71 | On success, a tuple is accumulated iff some record and some keyword of it with a hit yield it. |
| Aggregation.EntryProvenance | agents/agent3_resources.py:62-71 | Every accumulated tuple takes its name and link from the first dataset listed for its keyword, and its source is `Kaggle`. |
| Aggregation.ProcessAndAggregate | agents/agent3_resources.py:49-88 | The three nested loops followed by the grouping return exactly `Aggregated(useCases, search)`. This includes the `KeyError` of the first incomplete record and the empty frame when nothing was found. |
| Aggregation.Aggregate | agents/agent3_resources.py:78-83 | Definition of the grouped frame: one `RowFor` per group key; properties in `RowsAreSortedGroups`, `RowCellIsSortedDistinctValues` and `AggregateDependsOnlyOnElements`. |
| Aggregation.Reduce | agents/agent3_resources.py:79-82 | Definition of `', '.join(sorted(x.unique()))` on one column of a group; properties in `RowCellIsSortedDistinctValues` and `ReduceDependsOnlyOnElements`. |
| Aggregation.GroupKeys | agents/agent3_resources.py:78 | The group keys are the distinct `(title, description)` pairs of the tuples, strictly ascending. |
| Aggregation.RowsAreSortedGroups | agents/agent3_resources.py:78-83 | There is one row per distinct key of the tuples, and the rows are in strictly ascending key order. |
| Aggregation.GroupMembers | agents/agent3_resources.py:78 | A group holds exactly the tuples with its key. |
| Aggregation.GroupColumnValues | agents/agent3_resources.py:79-82 | The values of a column within a group are the column values of the tuples with that key. |
| Aggregation.RowCellIsSortedDistinctValues | agents/agent3_resources.py:79-82 | Each cell of a row is the `", "`-join of that group's distinct column values in ascending order, so a value repeated across keywords appears once. |
| Aggregation.AggregateDependsOnlyOnElements | agents/agent3_resources.py:74-83 | Aggregating two tuple sequences with the same elements, in any order and with any repetition, gives identical rows. |
| Aggregation.AggregateEmptyIff | agents/agent3_resources.py:76-88 | The frame is empty iff there are no tuples. |
| Aggregation.KeywordValuesAreHitKeywords | agents/agent3_resources.py:53-79 | The keyword values of a group are the keywords with a hit of all records with that key. Records sharing a title and description merge. |
| Aggregation.KeywordCellIsSortedHitKeywords | agents/agent3_resources.py:53-79 | A row's keyword cell is the ascending `", "`-join of the hit keywords of all records with the row's key. |
| Aggregation.RowsAreKeysWithHits | agents/agent3_resources.py:53-83 | A key has a row iff some record with that key has a keyword with a hit. |
| Aggregation.SourceCellIsKaggle | agents/agent3_resources.py:21-82 | Every row's source cell is exactly `Kaggle`. |
| Aggregation.NoHitsNoRows | agents/agent3_resources.py:74-88 | When accumulation succeeds, the frame is empty iff no keyword of any record has a hit. |
| Aggregation.AggregateOne | agents/agent3_resources.py:76-83 | A single tuple gives one row that carries exactly that tuple's six values. |
| Aggregation.SingleHitKeyword | agents/agent3_resources.py:53-83 | A complete record of which exactly one keyword has a hit gives one row. Its keyword cell is that keyword alone, and its name, link and source cells come from that keyword's first listed dataset. |
| Aggregation.DemandForecastingExample | agents/agent3_resources.py:53-83 | The record "Demand Forecasting" with keywords `retail sales, inventory, forecasting, demand` and one catalog hit, for `inventory`, gives one row whose keyword cell is `inventory`. |
| Ordering.Below | agents/agent3_resources.py:78-82 | Definition of `<` on `str`: code point by code point, a proper prefix first; properties in `BelowIsStrictTotalOrder`. |
| Ordering.Unique | agents/agent3_resources.py:79-82 | `x.unique()` holds exactly the values of `x`, each once. |
| Ordering.Sort | agents/agent3_resources.py:79-82 | `sorted(xs)` is a permutation of `xs` with the same values; `SortSorted` proves it strictly ascending on distinct values. |
| Ordering.SortedUnique | agents/agent3_resources.py:79-82 | `sorted(x.unique())` is strictly ascending and holds exactly the values of `x`. |
| Ordering.SortedUniqueDependsOnlyOnElements | agents/agent3_resources.py:79-82 | `sorted(x.unique())` depends only on which values occur in `x`. |
| Ordering.BelowIsStrictTotalOrder | agents/agent3_resources.py:79-82 | Python's string `<` is a strict total order. |

## Left out

- The catalog client: constructing `KaggleApi`, authenticating, and the
  network call are an oracle `search`. It is a fixed function of the query,
  so repeated queries for the same keyword get the same answer. The error
  message printed on failure is not modelled.
- `save_aggregated_to_csv` and the `__main__` block are not part of this
  model. They cover reading `keywords.txt`, the existence check, writing
  `resource_links.csv` and swallowing write errors.
- `load_dotenv`, the hard-coded folder paths and every `print`: these are
  I/O with no effect on the returned values.
- The pandas frame is a sequence of `AggregatedRow`. The empty frame
  `pd.DataFrame()` and an empty aggregated frame are both the empty sequence.
  The column-less shape of `pd.DataFrame()` is not modelled.
- `Ordering.Sort`: Python's `sorted` is a merge sort. The model uses an
  insertion sort. Both order distinct values by a strict total order, and
  `Ordering.StrictlySortedUnique` shows the result is then unique.
- Strings are sequences of code points. Python's `split()` with an empty
  separator raises. The separators here are never empty, so that case is
  not modelled.
- The other agents and `main_agent.py`, which produce the use-case text, are
  not part of this model.
