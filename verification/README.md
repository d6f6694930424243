# Behavioral-health provider directory: normalisation and dashboard logic

This Dafny project models the two computational parts of a small provider
dashboard.

**Normalisation.** It turns raw provider records into the dashboard's table:
- Each record has a provider name, an address that is parsed for its zipcode, one boolean column per service and per audience flag, and free-text notes.
- The wide flag columns are pivoted into long form, one row per flag that is `True`.
- The long rows are deduplicated.
- They are grouped back into one row per `(provider, zipcode)`. Each row holds the distinct non-null audiences, services and notes of that key.

**Dashboard callbacks.** These are the pure computations behind the dashboard:
- the dependent dropdown's option list and its default value;
- the filtered, rendered data table;
- the histogram's rows, exploded x values and title.

Modules:

- `Wrappers`: `Option` (Python `None` / pandas NaN) and `Result` (a call that may raise).
- `Seqs`: duplicate-free lists (`Distinct`, `Elems`, `AddDistinct`, `Dedup`).
- `Order`: Python's `str` ordering. Group-by sorts its keys with it.
- `Flags`: the 10 service flags and 4 audience flags.
- `Ingest`: the pipeline. It covers zipcode extraction, melt plus the `== True` filter, deduplication, group-by with set aggregation, sorted key order, and the missing-column failure.
- `IngestSpec`: what the table must be, stated directly over the raw records, and the theorems that the pipeline meets it.
- `Text`: `", ".join` and its inverse split.
- `App`: `decide_filter`, `set_filter_value`, `update_table` and `display_graph`.
- `AppSpec`: the callbacks' properties, their link to the normalised table, and a worked example of one clinic.

Choices made in the model:

- The remote fetch is replaced by an input sequence of `RawRecord`s.
- `ast.literal_eval` is replaced by its outcome, stored in the record's `address` field:
  - `None` when the parse raised or gave something that cannot be indexed by `'zip'`;
  - otherwise a map whose values may be `None`.
- A flag absent from a record's `flags` map is NaN.
- `list(set(...))` has no defined order in the source. The model lists values in order of first appearance, and every theorem compares these lists as sets.
- Group-by output is sorted by `(provider, zipcode)` using code-point lexicographic order, as pandas does for string keys.
- The model follows the code rather than its comments:
  - The comment at app.py:160 speaks of empty notes. The code tests the joined string, so a displayed row's `notes` is `None` when the row has no notes and also when its only note is the empty string. See `App.Display`.
  - The records `update_table` returns also carry `zipcode`, because `to_dict("records")` emits every column. See `App.DisplayRow`.

## Model

| member | source | states |
|---|---|---|
| `Ingest.ExtractZip` | ingest_manipulate_data.py:33-46 | When the parsed address is a mapping with a `'zip'` key, the result is that key's value (which may be `None`). It is `None` when the parse failed or the key is missing. It is total, so the function never raises. |
| `Ingest.MeltRecord` | ingest_manipulate_data.py:59-61 | One record's melted rows are exactly the pivots of its listed flags that are present and `True`. When the listed flag names are distinct, no row repeats, so there is exactly one row per such flag. |
| `Ingest.MeltMember` | ingest_manipulate_data.py:59-74 | A row is in a family's melted, filtered frame iff some record has a `True` flag of that family that pivots to it. |
| `Seqs.Dedup` | ingest_manipulate_data.py:76-77 | `drop_duplicates` yields a duplicate-free list no longer than its input. |
| `Seqs.DedupElems` | ingest_manipulate_data.py:76-77 | `drop_duplicates` loses no element and adds none. |
| `Ingest.CollectSpec` | ingest_manipulate_data.py:85 | After group-by, a key exists iff some row has that non-null key. Each aggregated column lists every non-null value of its group exactly once. |
| `Ingest.InsertKeySpec` | ingest_manipulate_data.py:85 | Sorted insertion keeps the key list strictly sorted and adds exactly the new key. |
| `Ingest.KeyOrderSpec` | ingest_manipulate_data.py:85 | The group keys come out strictly sorted, and they are exactly the keys of the aggregation. |
| `IngestSpec.LongFormMember` | ingest_manipulate_data.py:59-82 | A row of the concatenated long form is exactly a pivot of a `True` audience or service flag of some record. |
| `IngestSpec.LongFormKeys` | ingest_manipulate_data.py:49-85 | A key reaches the long form iff some record with that key has a flag that is `True`. |
| `IngestSpec.TableRowMeetsSpec` | ingest_manipulate_data.py:69-85 | Each grouped row's lists equal the record-level specification for its key. |
| `IngestSpec.NormalizeFailsIff` | ingest_manipulate_data.py:59-60 | Normalisation fails iff some service or audience column is missing from every record, as `melt` raises for a missing column. The empty input fails. |
| `IngestSpec.NormalizeKeysUnique` | ingest_manipulate_data.py:85 | Output rows are strictly increasing by `(provider, zipcode)`, so no key appears twice. |
| `IngestSpec.NormalizeKeys` | ingest_manipulate_data.py:49-85 | A key is among the output's row keys iff some record has that provider, that extracted zipcode, and at least one flag equal to `True`. A record without a zipcode yields no key. |
| `IngestSpec.NormalizeKeyList` | ingest_manipulate_data.py:85 | The output's keys enumerate the specified keys once each, so there are exactly as many rows as specified keys. |
| `IngestSpec.NormalizeRowContents` | ingest_manipulate_data.py:53-85 | Each row's audiences (services) are exactly the audience (service) flags that are `True` in some record with its key. Its notes are exactly the non-null notes of such records that offer something. All three lists are duplicate-free. |
| `IngestSpec.NormalizeValuesAreFlags` | ingest_manipulate_data.py:53-74 | When every flag column exists, every audience value of every row is one of the 4 audience flags, and every service value is one of the 10 service flags. |
| `IngestSpec.NormalizeDeterminedBySpec` | ingest_manipulate_data.py:76-85 | When every flag column exists, inputs with the same specified keys and per-key sets give the same table: same keys in the same order, and the same collections as sets. |
| `IngestSpec.NormalizeSucceedsAlike` | ingest_manipulate_data.py:59-60 | Inputs containing the same records, regardless of order or repetition, both succeed or both fail. |
| `IngestSpec.NormalizeDependsOnRecordSet` | ingest_manipulate_data.py:63-85 | Inputs containing the same records, regardless of order or repetition, give the same table. |
| `IngestSpec.NormalizeOrderIndependent` | ingest_manipulate_data.py:59-85 | Permuting the input records does not change the table. |
| `IngestSpec.NormalizeIgnoresKeylessRecord` | ingest_manipulate_data.py:49-85 | Appending a record whose zipcode or provider is null keeps normalisation successful and leaves the table unchanged, because group-by drops null keys. |
| `App.DecideFilter` | app.py:73-81 | A selected mode of `'audience'` or `'service'` gives one option per entry of that mode's list, in list order, with label equal to value. Any other selection, including a cleared one, raises `KeyError`. |
| `App.SetFilterValue` | app.py:88-96 | The default is the first option's value. An empty option list raises `IndexError`. |
| `App.Matching` | app.py:148-151 | The kept rows are exactly the rows whose zipcode equals the selection and whose mode column contains the selected value. A `None` value matches nothing. |
| `App.Display` | app.py:155-161 | Provider and zipcode pass through unchanged. `notes` is `None` exactly when the row has no notes or only an empty one. |
| `Text.Join` | app.py:156-158 | The `", "`-joined string is empty exactly for an empty list or a list holding one empty string. |
| `Text.SplitJoin` | app.py:156-158 | Splitting a joined list at `", "` gives the list back when no element contains a comma. |
| `App.FilterTable` | app.py:148-165 | Once a mode is chosen, the result is exactly the rendered rows that pass both filters. It is empty iff no row passes, and every result row has the selected zipcode. |
| `App.UpdateTable` | app.py:138-165 | A cleared mode (`None`) raises `KeyError` when the frame is indexed by it. With a mode chosen, the callback succeeds: its records are exactly the rendered rows that pass both filters, and it is empty iff none does. |
| `AppSpec.FilterTableConcat` | app.py:148-165 | Rows are returned in table order: the result for a concatenation is the concatenation of the results. |
| `AppSpec.FilterTableSingle` | app.py:148-165 | A one-row table shows its row, rendered, iff the row passes both filters. |
| `AppSpec.DisplayRoundTrip` | app.py:156-158 | The audience and service cells split back into the row's lists when no element contains a comma. |
| `AppSpec.DisplayNotesRoundTrip` | app.py:158-161 | When the row's notes are neither empty nor one empty note, the notes cell is present and splits back into the row's notes when no note contains a comma. |
| `AppSpec.NormalizedDisplayRoundTrip` | app.py:156-158 | For each row of a normalised table, non-empty audience and service cells split back into the row's lists. |
| `AppSpec.FilterTableNeedsFlagValue` | app.py:151 | On a normalised table, a value that is not a flag name of the mode's family, or is `None`, selects nothing. |
| `AppSpec.FilterOptionsMatchFlags` | app.py:20-24 | The `'audience'` and `'service'` option lists hold, each once, exactly the audience and service flags that normalisation emits. |
| `AppSpec.DefaultValueIsFlag` | app.py:81-96 | Selecting a mode offers exactly that family's flags, and the default value is the first of them. |
| `App.ZipRows` | app.py:114 | The histogram's rows are exactly the table rows of the selected zipcode. |
| `App.Explode` | app.py:117 | The exploded column's non-null values are exactly the elements of the rows' mode lists. Every row contributes at least one entry, and a row with an empty list puts a NaN entry in the column. |
| `AppSpec.ExplodeCounts` | app.py:117-126 | With duplicate-free lists, the number of exploded entries equal to `v` is the number of rows listing `v`. |
| `AppSpec.GraphCountsRows` | app.py:114-126 | On a normalised table, each histogram value `v` occurs once per row of the zipcode that offers `v`. |
| `App.DisplayGraph` | app.py:104-128 | The graph is produced iff the mode is `'audience'` or `'service'` and a zipcode is selected. Otherwise: a cleared mode, or one that is not a column, raises `KeyError` because `explode` looks it up as a column label; another column name raises `UnboundLocalError` because the title is never assigned; with a valid mode, a cleared zipcode raises `TypeError` because `None` cannot be concatenated to the title. On success, the rows are that zipcode's, the x values are their mode elements, and the title ends with the zipcode. |
| `AppSpec.TitleIdentifiesSelection` | app.py:120-123 | Different (mode, zipcode) selections give different titles. |
| `AppSpec.GraphTitle` | app.py:120-123 | For mode `'audience'` the title is `'Distribution of providers per audience type in '` followed by the zipcode; for `'service'` it is `'Distribution of providers per service type in '` followed by the zipcode. |
| `AppSpec.SingleRecordNormalizes` | ingest_manipulate_data.py:85 | One record that offers something normalises to one row under its key, as specified. |
| `AppSpec.AcmeNormalizes` | ingest_manipulate_data.py:53-85 | Acme Clinic in 98144 has `mental_health` and `adults` set, and notes "Walk-ins welcome". It normalises to exactly one row with those single values. |
| `AppSpec.AcmeTable` | app.py:138-165 | Filtering that row by 98144/service/mental_health shows one rendered row. Filtering by a zipcode with no providers shows nothing. A cleared mode raises `KeyError`. |

## Left out

- The remote fetch, the application token, `.env` loading and the listening port (ingest_manipulate_data.py:17-22; app.py:12-13). These are network and configuration I/O; the model takes the records as input.
- The grammar of `ast.literal_eval` (ingest_manipulate_data.py:42). The record carries the parse outcome instead. A `'zip'` value of a non-string type, such as an integer literal, is not modelled.
- `json_normalize` and the column drops (ingest_manipulate_data.py:27, 30-31, 50). These are schema plumbing. A `KeyError` from a missing non-flag column (provider, notes, address, or the dropped columns) is not modelled. Only the missing flag columns that `melt` rejects are modelled.
- The `drop_duplicates` on the wide frame (ingest_manipulate_data.py:63). It is subsumed by the deduplication of the two narrow frames, which the model performs.
- The row order produced by the two `melt` calls. It cannot be observed after the set aggregation.
- The iteration order of `list(set(...))` (ingest_manipulate_data.py:85). It is unspecified; the model uses first-appearance order and compares the lists as sets.
- App.UpdateTable: the mode is `None` or one of the two modes. Those are the only values the mode dropdown can hold, since its options are the keys of `filter_options` (app.py:41-42). A mode naming another column is not modelled.
- The Dash layout, callback wiring, DataTable styling and `app.run` (app.py:26-67, 69-72, 84-87, 99-103, 132-137, 168-169). This is UI framework code. It includes the zipcode dropdown's option list and its default `'98144'` (app.py:17, 33).
- Plotly's histogram rendering (app.py:126). The model stops at the graph's rows, exploded x values and title; the counts are stated as occurrences in the x values.
- The global mutable `df` and the warnings filter (app.py:9, 16, 113, 146). The table is an immutable parameter.
