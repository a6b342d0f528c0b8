# pimdb common: cache gating, dataset download and the deduplicating TSV reader

This project models the core of `pimdb/common.py` in pimdb, a tool that
downloads the IMDb datasets and loads them into an SQL database. Dafny proves
properties of the model. The model covers four parts.

- **The datasets and their names** (`datasets.dfy`).
  - `ImdbDataset` lists the six datasets.
  - Each dataset has a compressed file name (`name.basics.tsv.gz`), an SQL table name (`name_basics`) and a download URL under `https://datasets.imdbws.com/`.
  - Different datasets never share any of these names.
- **The "last modified" cache** (`last_modified.dfy`). `LastModifiedMap` is a class whose map field sends each URL to the last `Last-Modified` header seen for it.
  - Loading takes the outcome of reading the cache file as a value (`CacheFile`). A missing or unparsable file gives an empty map.
  - A file holding valid JSON that is not an object (a list, a string, a number or `null`) is loaded as it is. The cache then holds no mapping, and the first lookup raises `AttributeError`, which ends the download after the status check.
  - `IsModified` is plain inequality against the stored value. An absent entry reads as `None`, as `dict.get` does.
  - `Update` changes the map in memory.
  - `Write` appends the whole map to a ghost log of what was persisted.
- **The decision logic of `download_imdb_dataset`** (`download.dfy`).
  - The HTTP response is an input value: status, optional `Last-Modified` header and body chunks.
  - The method returns one of four outcomes: the error status raised, the cache lookup raising because the cache holds no mapping, "up to date" (nothing written), or the bytes written to the target file.
  - It also returns the cache object, when one was loaded.
  - The chunk loop is a method proved equal to the concatenation of all chunks, because empty keep-alive chunks add nothing.
  - The cache file sits next to the target: `dirname(target)` joined with `.pimdb_last_modified.json`. `posix_path.dfy` models `basename`, `dirname` and `join` as POSIX `os.path` defines them.
- **`GzippedTsvReader.column_names_to_value_maps`** (`tsv_reader.dfy`, `tsv_errors.dfy`). One pass over a dataset file.
  - Decompression and CSV splitting are abstracted. The pass reads a `TsvStream`, which holds the header, the data rows as `csv.DictReader` delivers them (blank lines already skipped), the point where reading fails, if it does, and whether that failure is a `csv.Error` or a decompression or decoding error.
  - `ToRecord` builds a record as `DictReader` does. A short row gives `None` for its missing columns, and a later column of the same name wins.
  - The reader is a class with the fields `rowNumber`, `duplicateCount` and a log of progress calls.
  - Its `for` loop is the heap-free method `ReadRows`. Its invariants tie it to two reference functions:
    - `Dedup` gives the rows that are the first with their key, in file order.
    - `Duplicates` counts the rest.
  - Lemmas about these functions state the promises:
    - a row is yielded exactly when its key was unseen;
    - the yielded keys are distinct and cover all keys read;
    - yielded plus duplicates equals rows read;
    - rows with unique keys are all read back, field for field;
    - the progress calls report rising row numbers and counts that never fall.
  - A `csv.Error` becomes `PimdbTsvError`. Its message is `basename (n: message`, with the parenthesis left open as the source writes it, and `n` is the number of rows read before the failure.
  - A decompression or decoding error (a truncated gzip stream, bytes that are not UTF-8) is not a `csv.Error`: it ends the pass unconverted (`DecodingFailed`).
  - `Location` is the base name followed by ` (n)`, and the row number can be parsed back from it.

Points where the code behaves in ways a reader might not expect, and the model follows the code:

- **Missing header.** A response without a `Last-Modified` header, for a URL the cache has never stored, counts as *not* modified. `dict.get` returns `None`, and `None != None` is false. So the file is not downloaded; a missing header does not force a download (`MissingHeaderOnUnknownUrl`).
- **Final progress call.** After the loop, the guard compares `_duplicate_count` with `last_progress_row_number`. That variable is never assigned after it is set to `None`, so the final progress call happens on every pass that ends normally. It does not happen after a `csv.Error`.
- **Missing key column.** A key column that the file lacks is not checked up front. The lookup raises `KeyError` at the first data row, after the row counter has become 1, and nothing catches it. The model ends the pass with `MissingKeyColumn` in that case. With no data rows, nothing is raised.
- **Throttled progress calls.** The in-loop progress calls depend on wall-clock time. They are modelled by the parameter `due`, the set of row numbers after which the minimum interval had passed.

## Model

| member | source | states |
|---|---|---|
| Datasets.Filename | pimdb/common.py:41-49 | The file name is the dataset value followed by `.tsv.gz`; removing that suffix gives the value back |
| Datasets.TableName | pimdb/common.py:51-59 | The table name has the value's length, holds no `.`, and at each position has `_` where the value has `.` and the value's character elsewhere |
| Datasets.SourceUrl | pimdb/common.py:139 | The URL is `https://datasets.imdbws.com/` followed by the dataset's file name |
| Datasets.FilenameExample | pimdb/common.py:46-47 | `name.basics` has the file name `name.basics.tsv.gz` |
| Datasets.TableNameExample | pimdb/common.py:56-57 | `name.basics` has the table name `name_basics` |
| Datasets.NamesDistinct | pimdb/common.py:31-59 | Two different datasets have different file names, different table names and different URLs |
| Datasets.ValuesDistinct | pimdb/common.py:34-39 | The six dataset values are pairwise different and contain no `_` |
| Strings.NatToString | pimdb/common.py:28 | `str(row_number)` is a non-empty run of digits with no leading zero, and is `"0"` exactly for 0 |
| Strings.ParseNatToString | pimdb/common.py:28 | The decimal text of a row number parses back to that number |
| Strings.ReplaceChar | pimdb/common.py:59 | `replace` of one character keeps the length and replaces exactly the occurrences of that character |
| Strings.ReplaceCharInjective | pimdb/common.py:59 | Replacing a character by one that neither string contains maps different strings to different results |
| PosixPath.BaseName | pimdb/common.py:28 | `basename` is a suffix of the path with no `/`, preceded in the path by a `/` when it is shorter than the path, and the whole path when the path has no `/` |
| PosixPath.DirName | pimdb/common.py:140 | The path is `dirname`, a run of slashes and `basename`, in that order. `dirname` is empty exactly when the path has no `/`; otherwise it ends in a character other than `/`, or it is all slashes and then takes the whole part before the base name |
| PosixPath.Join | pimdb/common.py:140 | `join` returns an absolute second part unchanged. Otherwise it is the first part, then one `/` exactly when the first part is non-empty and does not end in `/`, then the second part |
| PosixPath.JoinDirNameFileName | pimdb/common.py:140 | Joining `dirname(p)` with a plain file name gives a path whose base name is that file name and whose directory is `dirname(p)` |
| TsvErrors.NewTsvError | pimdb/common.py:24-28 | The error keeps the path and the row number, and its message is `TsvErrorMessage` of the path's base name |
| TsvErrors.TsvErrorMessage | pimdb/common.py:28 | The message is, in order: the base name, ` (`, the decimal row number, `: ` and the underlying message, with nothing else |
| TsvErrors.TsvErrorMessageUnbalanced | pimdb/common.py:28 | When neither the base name nor the underlying message contains parentheses, the message holds one more `(` than `)` |
| TsvErrors.LocationText | pimdb/common.py:190-193 | The location text is, in order: the base name, ` (`, the decimal row number and `)`, with nothing else |
| TsvErrors.LocationRowNumber | pimdb/common.py:190-193 | The text between ` (` and the closing `)` of the location is all digits and parses to the row number |
| LastModified.LoadedEntries | pimdb/common.py:104-118 | A readable cache file gives its mapping; a missing or unusable file gives the empty mapping |
| LastModified.IsModifiedIn | pimdb/common.py:120-128 | For a stored URL: modified exactly when the header differs from the stored value. For an unknown URL: modified exactly when a header is present |
| LastModified.FallbackReportsModified | pimdb/common.py:104-128 | After a missing or unparsable cache file, every present header counts as modified |
| LastModified.MissingHeaderOnUnknownUrl | pimdb/common.py:120-128 | A missing header for a URL that was never stored counts as not modified |
| LastModified.UpdateIsLocal | pimdb/common.py:120-131 | After storing a header for a URL, that header is not modified for it, and every other URL gets the same answer as before |
| LastModified.LastModifiedMap.constructor | pimdb/common.py:104-118 | The new cache keeps its path, holds the loaded mapping or the empty one, holds no mapping exactly when the file is JSON but not an object, and has persisted nothing |
| LastModified.LastModifiedMap.IsModified | pimdb/common.py:120-128 | The answer is inequality between the header and the stored value, an absent entry reading as `None`; it can be asked only of a cache that holds a mapping |
| LastModified.LastModifiedMap.Update | pimdb/common.py:130-131 | Only the URL's entry changes, to the new header, which then is not modified; all other answers stay the same; nothing is persisted |
| LastModified.LastModifiedMap.Write | pimdb/common.py:133-135 | The whole in-memory mapping is persisted once and the mapping is unchanged |
| Download.CachePath | pimdb/common.py:140 | The cache file is named `.pimdb_last_modified.json` and lies in the target file's directory |
| Download.HasToBeDownloaded | pimdb/common.py:145-149 | Without `only_if_newer` the file is always downloaded; with it, exactly when the header differs from the cached one (or a header is present for an unknown URL) |
| Download.KeepAliveChunksIgnored | pimdb/common.py:155-158 | Skipping empty keep-alive chunks does not change the bytes written |
| Download.WriteChunks | pimdb/common.py:155-158 | Writing only the non-empty chunks leaves the target file holding all chunks concatenated in order |
| Download.DownloadImdbDataset | pimdb/common.py:138-163 | The cache is loaded exactly with `only_if_newer`, from the file next to the target. An error status is raised. Otherwise, with `only_if_newer` and a cache file that is JSON but not an object, the lookup raises. Otherwise the body is written exactly when a download is needed. After such a download with `only_if_newer`, the cache maps the URL to the observed header and is persisted once; in every other case it is left as loaded and never written |
| TsvReader.ReadableRows | pimdb/common.py:207-226 | The rows read are all rows, or those before the failure when reading fails |
| TsvReader.ToRecordColumns | pimdb/common.py:207-209 | A record has exactly the header's columns |
| TsvReader.ToRecordValue | pimdb/common.py:207-209 | A column not repeated later in the header holds the field at its own position, or `None` for a short row |
| TsvReader.FirstMissingSpec | pimdb/common.py:211 | No key column is missing exactly when the header has all of them. A reported one is a key column the header lacks, and every key column before it in key order is in the header, so its lookup is the first to raise `KeyError` |
| TsvReader.RecordsHaveColumns | pimdb/common.py:207-211 | When the header has every key column, every record has every key column |
| TsvReader.Dedup | pimdb/common.py:204-217 | After `n` rows, at most `n` rows are yielded |
| TsvReader.IsFirstIffUnseen | pimdb/common.py:204-214 | A row is the first with its key exactly when its key is not among the keys of the earlier rows |
| TsvReader.YieldedPlusDuplicates | pimdb/common.py:205-217 | After `n` rows, the yielded rows plus the duplicates number exactly `n` |
| TsvReader.DedupKeySet | pimdb/common.py:204-214 | The yielded rows carry exactly the keys of all rows read |
| TsvReader.DedupKeysDistinct | pimdb/common.py:204-214 | No key is yielded twice |
| TsvReader.DedupLength | pimdb/common.py:204-214 | As many rows are yielded as there are distinct keys among the rows read |
| TsvReader.DedupUniqueKeys | pimdb/common.py:209-214 | Rows whose keys are all distinct are yielded all, in file order |
| TsvReader.DuplicatesMonotone | pimdb/common.py:205-217 | The duplicate count never falls as more rows are read |
| TsvReader.LoopProgressOrdered | pimdb/common.py:218-222 | The in-loop progress calls report strictly rising row numbers from 1, and duplicate counts that never fall, all bounded by the final counts |
| TsvReader.UniqueRowsReadBack | pimdb/common.py:204-214 | Rows with unique keys under a header without repeated names are all yielded, in order, each record holding the row's fields under the header's names |
| TsvReader.GzippedTsvReader.constructor | pimdb/common.py:167-179 | A new reader keeps path, key columns and whether it reports progress; both counters are unset and no progress call has been made |
| TsvReader.GzippedTsvReader.ColumnNamesToValueMaps | pimdb/common.py:199-226 | If the header lacks a key column and the file has a data row, the pass ends with that column's `KeyError` after row 1. Otherwise it yields the first row of each key in file order and sets the row number to the rows read and the duplicate count to rows read minus rows yielded. A `csv.Error` ends it with `PimdbTsvError` carrying that row count; a decompression or decoding error ends it unconverted. Progress calls are the in-loop ones plus one final call with the final counts, made only when the input is used up |
| TsvReader.ReadRows | pimdb/common.py:203-222 | The loop yields exactly `Dedup` of the rows, counts every row, and counts as duplicates exactly the rows that repeat a key, which is rows minus yielded. It makes the in-loop progress calls; a missing key column stops it at the first row |
| TsvReader.GzippedTsvReader.RowNumber | pimdb/common.py:185-188 | The row number can be read only once a pass has set the counter, and is that counter's value |
| TsvReader.GzippedTsvReader.Location | pimdb/common.py:190-193 | The location is, in order: the path's base name, ` (`, the decimal row number and `)`; `LocationRowNumber` reads the row number back from it |
| TsvReader.Step | pimdb/common.py:209-222 | Reading one more row extends the yielded rows by that row exactly when its key is unseen. Otherwise it adds one duplicate. It adds the key to the seen keys and adds a progress call when the row is due |

The `gzipped_tsv_path` and `duplicate_count` properties are the fields
`path` and `duplicateCount`.

## Left out

- HTTP transport (`requests.get`, streaming, `iter_content` chunk sizes) is not modelled; the response is an input value, and `raise_for_status` is the test for a 4xx or 5xx status.
- File I/O and JSON: reading and parsing the cache file is the input `CacheFile`, and writing it is the ghost log `persisted`. A JSON object whose values are not all strings or `null` is not modelled: stored values are optional strings.
- gzip decompression, UTF-8 decoding and the `csv` module's tokenizer are library code. The stream gives the rows `DictReader` would deliver, the row at which reading would fail, whether that failure is a `csv.Error` or a decompression or decoding error, and the error's text. Which inputs make these libraries fail is not modelled.
- `Record` is an unordered map: the column order of the dictionaries `DictReader` yields (the header's order) is not modelled.
- `DictReader`'s `restkey` list of extra fields is not modelled: a record maps column names only, so the fields beyond the header of a long row are dropped.
- `ToRecord` and `KeyOf`: a missing key column reads as `None` in `KeyOf` only to keep it total; the pass never keys such a record because it stops at the first row.
- The wall-clock throttle of the in-loop progress calls (`time.time()`, `seconds_between_progress_update`) is abstracted as the set `due` of row numbers.
- The pass is modelled as run to its end; a caller that stops consuming the generator early, and the interleaving of yields with the caller's work, are not modelled.
- Logging, and the megabyte size shown for a download (float division of `content-length`), are not modelled.
- `location` under `python -O` (where the `assert` in `row_number` is dropped) is not modelled; `Location` requires a pass to have started.
- `Settings.pimdb_path`, `ReportTable`, `IMDB_DATASET_NAMES` and `IMDB_DATASET_TO_KEY_COLUMNS_MAP` are configuration outside the modelled logic.
- The round trip through `TsvDictWriter` in the project's tests: `TsvDictWriter` is not part of this model. `UniqueRowsReadBack` states the reader's half of that round trip.
- Path strings are sequences of characters; `os.path` on platforms other than POSIX is not modelled.
