/** `GzippedTsvReader`: one pass over a dataset file that turns each data row
    into a column-to-value record and keeps only the first row for each key.
    Decompression and the splitting of lines into fields are abstracted: the
    pass reads a `TsvStream`, the header and data rows as the tabular reader
    would deliver them, together with the point where reading fails, if it
    does, and how: the `csv` tokenizer's error or a decompression or decoding
    error. */
module TsvReader {
  import opened Wrappers
  import opened Strings
  import opened PosixPath
  import opened TsvErrors

  /** One data row as the tabular reader delivers it: column name to value,
      `None` for a column the row is too short to have. */
  type Record = map<string, Option<string>>

  /** The values of the key columns of one row, in key-column order. */
  type Key = seq<Option<string>>

  /** The count of rows after which the progress callback is called, and the
      number of duplicates seen by then. */
  datatype Progress = Progress(rowNumber: nat, duplicateCount: nat)

  /** The error that stops reading: `csv.Error` from the tokenizer, or an
      error from decompression or text decoding (a truncated gzip stream, a
      byte sequence that is not UTF-8), which is not a `csv.Error`. */
  datatype FailureKind = CsvError | DecodingError

  /** Reading fails when asked for data row `index` (0-based), that is,
      after `index` rows were read. */
  datatype ParseFailure = ParseFailure(index: nat, kind: FailureKind, message: string)

  /** A dataset file as the reader sees it: the header row, the data rows,
      and a failure, if one is met. */
  datatype TsvStream = TsvStream(header: seq<string>, rows: seq<seq<string>>, failure: Option<ParseFailure>)

  /** How a pass ends: the input was used up, the tokenizer failed (raised
      as `PimdbTsvError`), decompression or decoding failed (that error
      propagates unconverted), or a key column is not a column of the file
      (the lookup raises `KeyError`). */
  datatype PassEnd = Exhausted | Failed(error: TsvError) | DecodingFailed(message: string) | MissingKeyColumn(column: string)

  predicate FailureReached(s: TsvStream) {
    s.failure.Some? && s.failure.value.index <= |s.rows|
  }

  /** The data rows read before reading fails. */
  function ReadableRows(s: TsvStream): (rows: seq<seq<string>>)
    ensures FailureReached(s) ==> rows == s.rows[..s.failure.value.index]
    ensures !FailureReached(s) ==> rows == s.rows
  {
    if FailureReached(s) then s.rows[..s.failure.value.index] else s.rows
  }

  /** The field at position `i`, `None` past the end of the row. */
  function Field(row: seq<string>, i: nat): Option<string> {
    if i < |row| then Some(row[i]) else None
  }

  /** The record for `row` under `header`: each header column maps to the
      field at its position, a later column of the same name winning. */
  function ToRecord(header: seq<string>, row: seq<string>): Record
    decreases |header|
  {
    if header == [] then map[]
    else
      var n := |header| - 1;
      ToRecord(header[..n], row)[header[n] := Field(row, n)]
  }

  /** A record has exactly the header's columns. */
  lemma {:induction false} ToRecordColumns(header: seq<string>, row: seq<string>)
    ensures forall c :: c in ToRecord(header, row) <==> c in header
    decreases |header|
  {
    if header != [] {
      var n := |header| - 1;
      ToRecordColumns(header[..n], row);
      assert header == header[..n] + [header[n]];
    }
  }

  /** A column that does not occur again later in the header holds the field
      at its own position. */
  lemma {:induction false} ToRecordValue(header: seq<string>, row: seq<string>, i: nat)
    requires i < |header| && header[i] !in header[i + 1..]
    ensures header[i] in ToRecord(header, row) && ToRecord(header, row)[header[i]] == Field(row, i)
    decreases |header|
  {
    var n := |header| - 1;
    if i < n {
      assert header[n] in header[i + 1..];
      assert header[..n][i + 1..] <= header[i + 1..];
      ToRecordValue(header[..n], row, i);
    }
  }

  /** The records for the data rows, in file order. */
  function Records(header: seq<string>, rows: seq<seq<string>>): seq<Record> {
    seq(|rows|, i requires 0 <= i < |rows| => ToRecord(header, rows[i]))
  }

  /** The first key column, in key order, that is not a column of the header:
      the column whose lookup raises `KeyError`. */
  function FirstMissing(header: seq<string>, keyColumns: seq<string>): Option<string> {
    if keyColumns == [] then None
    else if keyColumns[0] !in header then Some(keyColumns[0])
    else FirstMissing(header, keyColumns[1..])
  }

  predicate HasColumns(rec: Record, keyColumns: seq<string>) {
    forall c :: c in keyColumns ==> c in rec
  }

  predicate AllHaveColumns(recs: seq<Record>, keyColumns: seq<string>) {
    forall i :: 0 <= i < |recs| ==> HasColumns(recs[i], keyColumns)
  }

  /** No key column is missing exactly when the header has them all; a
      reported one is a key column the header lacks, and every key column
      before it is in the header, so it is the first lookup that fails. */
  lemma {:induction false} FirstMissingSpec(header: seq<string>, keyColumns: seq<string>)
    ensures FirstMissing(header, keyColumns) == None <==> forall c :: c in keyColumns ==> c in header
    ensures var r := FirstMissing(header, keyColumns);
      r.Some? ==> exists k ::
        && 0 <= k < |keyColumns| && keyColumns[k] == r.value && r.value !in header
        && forall j :: 0 <= j < k ==> keyColumns[j] in header
    decreases |keyColumns|
  {
    if keyColumns != [] {
      FirstMissingSpec(header, keyColumns[1..]);
      assert forall c :: c in keyColumns[1..] ==> c in keyColumns;
      assert forall c :: c in keyColumns ==> c == keyColumns[0] || c in keyColumns[1..];
      var r := FirstMissing(header, keyColumns);
      if keyColumns[0] in header && r.Some? {
        var k :|
          && 0 <= k < |keyColumns[1..]| && keyColumns[1..][k] == r.value && r.value !in header
          && forall j :: 0 <= j < k ==> keyColumns[1..][j] in header;
        assert keyColumns[k + 1] == r.value;
        assert forall j :: 1 <= j < k + 1 ==> keyColumns[j] == keyColumns[1..][j - 1];
      } else if r.Some? {
        assert keyColumns[0] == r.value;
      }
    }
  }

  /** When the header has every key column, every record has them. */
  lemma RecordsHaveColumns(header: seq<string>, rows: seq<seq<string>>, keyColumns: seq<string>)
    requires FirstMissing(header, keyColumns) == None
    ensures AllHaveColumns(Records(header, rows), keyColumns)
  {
    FirstMissingSpec(header, keyColumns);
    forall i | 0 <= i < |rows|
      ensures HasColumns(Records(header, rows)[i], keyColumns)
    {
      ToRecordColumns(header, rows[i]);
    }
  }

  /** The key tuple of a record: its values of the key columns, in order.
      The pass only keys records that have every key column (it stops at the
      first row otherwise); a missing column reads as `None` here only so
      that the function is total. */
  function KeyOf(rec: Record, keyColumns: seq<string>): Key {
    seq(|keyColumns|, i requires 0 <= i < |keyColumns| =>
      if keyColumns[i] in rec then rec[keyColumns[i]] else None)
  }

  /** Row `i` is the first with its key: no earlier row has the same key. */
  predicate IsFirst(recs: seq<Record>, keyColumns: seq<string>, i: nat)
    requires i < |recs|
  {
    forall j :: 0 <= j < i ==> KeyOf(recs[j], keyColumns) != KeyOf(recs[i], keyColumns)
  }

  /** Among the first `n` rows, those that are the first with their key, in
      file order: the records a pass yields once it has read `n` rows. */
  function Dedup(recs: seq<Record>, keyColumns: seq<string>, n: nat): (r: seq<Record>)
    requires n <= |recs|
    ensures |r| <= n
  {
    if n == 0 then []
    else Dedup(recs, keyColumns, n - 1) + (if IsFirst(recs, keyColumns, n - 1) then [recs[n - 1]] else [])
  }

  /** Among the first `n` rows, the number of those that repeat an earlier
      row's key: the duplicates a pass skips once it has read `n` rows. */
  function Duplicates(recs: seq<Record>, keyColumns: seq<string>, n: nat): nat
    requires n <= |recs|
  {
    if n == 0 then 0
    else Duplicates(recs, keyColumns, n - 1) + (if IsFirst(recs, keyColumns, n - 1) then 0 else 1)
  }

  /** Every row read is either yielded or counted as a duplicate. */
  lemma {:induction false} YieldedPlusDuplicates(recs: seq<Record>, keyColumns: seq<string>, n: nat)
    requires n <= |recs|
    ensures |Dedup(recs, keyColumns, n)| + Duplicates(recs, keyColumns, n) == n
  {
    if n > 0 {
      YieldedPlusDuplicates(recs, keyColumns, n - 1);
    }
  }

  /** The keys of the first `n` rows. */
  function Keys(recs: seq<Record>, keyColumns: seq<string>, n: nat): set<Key>
    requires n <= |recs|
  {
    set j | 0 <= j < n :: KeyOf(recs[j], keyColumns)
  }

  predicate DistinctKeys(recs: seq<Record>, keyColumns: seq<string>) {
    forall i, j :: 0 <= i < j < |recs| ==> KeyOf(recs[i], keyColumns) != KeyOf(recs[j], keyColumns)
  }

  lemma KeysSnoc(recs: seq<Record>, keyColumns: seq<string>, n: nat)
    requires n < |recs|
    ensures Keys(recs, keyColumns, n + 1) == Keys(recs, keyColumns, n) + {KeyOf(recs[n], keyColumns)}
  {
    assert KeyOf(recs[n], keyColumns) in Keys(recs, keyColumns, n + 1);
  }

  /** The keys of a prefix do not depend on what follows it. */
  lemma KeysOfPrefix(d: seq<Record>, x: Record, keyColumns: seq<string>)
    ensures Keys(d + [x], keyColumns, |d|) == Keys(d, keyColumns, |d|)
  {
    forall j | 0 <= j < |d|
      ensures (d + [x])[j] == d[j]
    {
    }
  }

  /** A row is the first with its key exactly when its key is not among the
      keys of the rows before it: the membership test the pass performs. */
  lemma IsFirstIffUnseen(recs: seq<Record>, keyColumns: seq<string>, i: nat)
    requires i < |recs|
    ensures IsFirst(recs, keyColumns, i) <==> KeyOf(recs[i], keyColumns) !in Keys(recs, keyColumns, i)
  {
  }

  /** The yielded rows cover every key of the rows read. */
  lemma {:induction false} DedupKeySet(recs: seq<Record>, keyColumns: seq<string>, n: nat)
    requires n <= |recs|
    ensures var d := Dedup(recs, keyColumns, n);
      Keys(d, keyColumns, |d|) == Keys(recs, keyColumns, n)
  {
    if n > 0 {
      var m := n - 1;
      DedupKeySet(recs, keyColumns, m);
      KeysSnoc(recs, keyColumns, m);
      IsFirstIffUnseen(recs, keyColumns, m);
      var d := Dedup(recs, keyColumns, m);
      if IsFirst(recs, keyColumns, m) {
        assert Dedup(recs, keyColumns, n) == d + [recs[m]];
        KeysSnoc(d + [recs[m]], keyColumns, |d|);
        KeysOfPrefix(d, recs[m], keyColumns);
      } else {
        assert Dedup(recs, keyColumns, n) == d;
      }
    }
  }

  /** Each key is yielded at most once. */
  lemma {:induction false} DedupKeysDistinct(recs: seq<Record>, keyColumns: seq<string>, n: nat)
    requires n <= |recs|
    ensures DistinctKeys(Dedup(recs, keyColumns, n), keyColumns)
  {
    if n > 0 {
      var m := n - 1;
      DedupKeysDistinct(recs, keyColumns, m);
      if IsFirst(recs, keyColumns, m) {
        DedupKeySet(recs, keyColumns, m);
        IsFirstIffUnseen(recs, keyColumns, m);
        var d := Dedup(recs, keyColumns, m);
        var x := recs[m];
        forall i, j | 0 <= i < j < |d| + 1
          ensures KeyOf((d + [x])[i], keyColumns) != KeyOf((d + [x])[j], keyColumns)
        {
          if j == |d| {
            assert KeyOf(d[i], keyColumns) in Keys(d, keyColumns, |d|);
          }
        }
      }
    }
  }

  /** As many rows are yielded as there are distinct keys among the rows read. */
  lemma {:induction false} DedupLength(recs: seq<Record>, keyColumns: seq<string>, n: nat)
    requires n <= |recs|
    ensures |Dedup(recs, keyColumns, n)| == |Keys(recs, keyColumns, n)|
  {
    if n > 0 {
      var m := n - 1;
      DedupLength(recs, keyColumns, m);
      KeysSnoc(recs, keyColumns, m);
      IsFirstIffUnseen(recs, keyColumns, m);
      var k := KeyOf(recs[m], keyColumns);
      if IsFirst(recs, keyColumns, m) {
        assert |Keys(recs, keyColumns, m) + {k}| == |Keys(recs, keyColumns, m)| + 1;
      } else {
        assert Keys(recs, keyColumns, m) + {k} == Keys(recs, keyColumns, m);
      }
    }
  }

  /** Rows whose keys are already unique are all yielded, in order. */
  lemma {:induction false} DedupUniqueKeys(recs: seq<Record>, keyColumns: seq<string>, n: nat)
    requires n <= |recs| && DistinctKeys(recs, keyColumns)
    ensures Dedup(recs, keyColumns, n) == recs[..n]
  {
    if n > 0 {
      DedupUniqueKeys(recs, keyColumns, n - 1);
      assert recs[..n - 1] + [recs[n - 1]] == recs[..n];
    }
  }

  /** The number of duplicates seen never falls as more rows are read. */
  lemma {:induction false} DuplicatesMonotone(recs: seq<Record>, keyColumns: seq<string>, m: nat, n: nat)
    requires m <= n <= |recs|
    ensures Duplicates(recs, keyColumns, m) <= Duplicates(recs, keyColumns, n)
    decreases n
  {
    if m < n {
      DuplicatesMonotone(recs, keyColumns, m, n - 1);
    }
  }

  /** The progress calls made inside the loop while the first `n` rows are
      processed: one after each row whose number is in `due` (the rows after
      which the minimum interval since the previous call had passed), with
      the counts at that row. */
  function LoopProgress(recs: seq<Record>, keyColumns: seq<string>, due: set<nat>, n: nat): seq<Progress>
    requires n <= |recs|
  {
    if n == 0 then []
    else
      LoopProgress(recs, keyColumns, due, n - 1)
        + (if n in due then [Progress(n, Duplicates(recs, keyColumns, n))] else [])
  }

  /** A log of progress calls with rising row numbers and never falling
      duplicate counts, bounded by `rows` and `duplicates`. */
  predicate OrderedLog(log: seq<Progress>, rows: nat, duplicates: nat) {
    && (forall i :: 0 <= i < |log| ==> 1 <= log[i].rowNumber <= rows && log[i].duplicateCount <= duplicates)
    && (forall i, j :: 0 <= i < j < |log| ==>
          log[i].rowNumber < log[j].rowNumber && log[i].duplicateCount <= log[j].duplicateCount)
  }

  /** The in-loop progress calls report rising row numbers and never falling
      duplicate counts, all bounded by the tally after `n` rows. */
  lemma {:induction false} LoopProgressOrdered(recs: seq<Record>, keyColumns: seq<string>, due: set<nat>, n: nat)
    requires n <= |recs|
    ensures OrderedLog(LoopProgress(recs, keyColumns, due, n), n, Duplicates(recs, keyColumns, n))
  {
    if n > 0 {
      var m := n - 1;
      LoopProgressOrdered(recs, keyColumns, due, m);
      DuplicatesMonotone(recs, keyColumns, m, n);
      var total := Duplicates(recs, keyColumns, n);
      var added := if n in due then [Progress(n, total)] else [];
      ExtendOrderedLog(LoopProgress(recs, keyColumns, due, m), added, m, Duplicates(recs, keyColumns, m), total);
    }
  }

  lemma ExtendOrderedLog(log: seq<Progress>, added: seq<Progress>, rows: nat, duplicates: nat, total: nat)
    requires OrderedLog(log, rows, duplicates) && duplicates <= total
    requires added == [] || added == [Progress(rows + 1, total)]
    ensures OrderedLog(log + added, rows + 1, total)
  {
    var all := log + added;
    forall i | 0 <= i < |all|
      ensures 1 <= all[i].rowNumber <= rows + 1 && all[i].duplicateCount <= total
    {
      if i < |log| {
        assert all[i] == log[i];
      }
    }
    forall i, j | 0 <= i < j < |all|
      ensures all[i].rowNumber < all[j].rowNumber && all[i].duplicateCount <= all[j].duplicateCount
    {
      assert all[i] == log[i];
      if j < |log| {
        assert all[j] == log[j];
      }
    }
  }

  /** Reading back rows with unique keys, each with one field per column of
      a header without repeated names, yields every row, in order, each
      record holding the row's fields under the header's names. */
  lemma UniqueRowsReadBack(header: seq<string>, rows: seq<seq<string>>, keyColumns: seq<string>)
    requires forall i, j :: 0 <= i < j < |header| ==> header[i] != header[j]
    requires forall r :: r in rows ==> |r| == |header|
    requires DistinctKeys(Records(header, rows), keyColumns)
    ensures Dedup(Records(header, rows), keyColumns, |rows|) == Records(header, rows)
    ensures forall i, j :: 0 <= i < |rows| && 0 <= j < |header| ==>
      header[j] in Records(header, rows)[i] && Records(header, rows)[i][header[j]] == Some(rows[i][j])
  {
    var recs := Records(header, rows);
    DedupUniqueKeys(recs, keyColumns, |rows|);
    assert recs[..|rows|] == recs;
    forall i, j | 0 <= i < |rows| && 0 <= j < |header|
      ensures header[j] in recs[i] && recs[i][header[j]] == Some(rows[i][j])
    {
      assert rows[i] in rows;
      ToRecordValue(header, rows[i], j);
    }
  }

  class GzippedTsvReader {
    const path: string
    const keyColumns: seq<string>
    /** Whether a progress callback was given. */
    const reportsProgress: bool
    /** Data rows read in the current or last pass; `None` before any pass. */
    var rowNumber: Option<nat>
    /** Duplicates skipped in the current or last pass; `None` before any pass. */
    var duplicateCount: Option<nat>
    /** Every call of the progress callback, oldest first. */
    var progressCalls: seq<Progress>

    constructor (path: string, keyColumns: seq<string>, reportsProgress: bool)
      ensures this.path == path && this.keyColumns == keyColumns && this.reportsProgress == reportsProgress
      ensures rowNumber == None && duplicateCount == None && progressCalls == []
    {
      this.path := path;
      this.keyColumns := keyColumns;
      this.reportsProgress := reportsProgress;
      rowNumber := None;
      duplicateCount := None;
      progressCalls := [];
    }

    /** The row number, which may be asked for only once a pass has started. */
    function RowNumber(): (n: nat)
      reads this
      requires rowNumber.Some?
      ensures rowNumber == Some(n)
    {
      rowNumber.value
    }

    /** The location for messages: the file's base name, then ` (`, the row
        number and `)`; the row number can be read back from it. */
    function Location(): (r: string)
      reads this
      requires rowNumber.Some?
      ensures var name := BaseName(path);
        && |name| + 2 < |r| && r[..|name|] == name && r[|name|..|name| + 2] == " (" && r[|r| - 1] == ')'
        && r[|name| + 2..|r| - 1] == NatToString(rowNumber.value)
    {
      LocationText(BaseName(path), RowNumber())
    }

    /** One pass over `s`. Both counters restart at 0. Each data row read
        increments the row number; a row whose key was not seen earlier in
        the pass is yielded, any other row counts as a duplicate. After each
        row whose number is in `due` the callback (if any) gets the current
        counts. When the input is used up, the callback (if any) gets the final
        counts once more. A `csv.Error` ends the pass with a `PimdbTsvError`
        carrying the number of rows read, and without that final call; a
        decompression or decoding error ends it the same way but is not
        converted. A key
        column that the file lacks raises at the first data row. */
    method ColumnNamesToValueMaps(s: TsvStream, due: set<nat>) returns (yielded: seq<Record>, end: PassEnd)
      modifies this
      ensures var rows := ReadableRows(s);
        var recs := Records(s.header, rows);
        var missing := FirstMissing(s.header, keyColumns);
        if missing.Some? && rows != [] then
          && end == MissingKeyColumn(missing.value)
          && yielded == []
          && rowNumber == Some(1) && duplicateCount == Some(0)
          && progressCalls == old(progressCalls)
        else
          && AllHaveColumns(recs, keyColumns)
          && yielded == Dedup(recs, keyColumns, |rows|)
          && rowNumber == Some(|rows|)
          && duplicateCount == Some(|rows| - |yielded|)
          && end == (if !FailureReached(s) then Exhausted
                     else if s.failure.value.kind.CsvError? then Failed(NewTsvError(path, |rows|, s.failure.value.message))
                     else DecodingFailed(s.failure.value.message))
          && progressCalls == old(progressCalls)
               + (if reportsProgress then LoopProgress(recs, keyColumns, due, |rows|) else [])
               + (if reportsProgress && !FailureReached(s) then [Progress(|rows|, |rows| - |yielded|)] else [])
    {
      var rows := ReadableRows(s);
      var missing, rowCount, duplicates, calls;
      yielded, missing, rowCount, duplicates, calls := ReadRows(s.header, rows, keyColumns, reportsProgress, due);
      rowNumber, duplicateCount, progressCalls := Some(rowCount), Some(duplicates), progressCalls + calls;
      if missing.Some? {
        end := MissingKeyColumn(missing.value);
      } else if FailureReached(s) {
        if s.failure.value.kind.CsvError? {
          end := Failed(NewTsvError(path, rowNumber.value, s.failure.value.message));
        } else {
          end := DecodingFailed(s.failure.value.message);
        }
      } else {
        if reportsProgress {
          progressCalls := progressCalls + [Progress(rowNumber.value, duplicateCount.value)];
        }
        end := Exhausted;
      }
    }

  }

  /** The `for` loop of a pass over the data rows `rows`: the rows it yields,
      the key column whose lookup fails (at the first row, when the header
      lacks one), the rows read, the duplicates skipped, and the progress calls
      it makes. */
  method ReadRows(header: seq<string>, rows: seq<seq<string>>, keyColumns: seq<string>,
                  reportsProgress: bool, due: set<nat>)
      returns (yielded: seq<Record>, missing: Option<string>, rowCount: nat, duplicates: nat, calls: seq<Progress>)
    ensures var recs := Records(header, rows);
      if FirstMissing(header, keyColumns).Some? && rows != [] then
        && missing == FirstMissing(header, keyColumns)
        && yielded == [] && rowCount == 1 && duplicates == 0 && calls == []
      else
        && missing == None
        && AllHaveColumns(recs, keyColumns)
        && yielded == Dedup(recs, keyColumns, |rows|)
        && rowCount == |rows|
        && duplicates == Duplicates(recs, keyColumns, |rows|) == |rows| - |yielded|
        && calls == (if reportsProgress then LoopProgress(recs, keyColumns, due, |rows|) else [])
  {
    ghost var recs := Records(header, rows);
    var existingKeys: set<Key> := {};
    yielded, missing, rowCount, duplicates, calls := [], None, 0, 0, [];
    while rowCount < |rows|
      invariant rowCount <= |rows|
      invariant rowCount > 0 ==> FirstMissing(header, keyColumns) == None
      invariant missing == None
      invariant yielded == Dedup(recs, keyColumns, rowCount)
      invariant existingKeys == Keys(recs, keyColumns, rowCount)
      invariant duplicates == Duplicates(recs, keyColumns, rowCount)
      invariant calls == if reportsProgress then LoopProgress(recs, keyColumns, due, rowCount) else []
    {
      var result := ToRecord(header, rows[rowCount]);
      var i := rowCount;
      rowCount := rowCount + 1;
      // The record's columns are the header's (`ToRecordColumns`), so
      // looking up the key columns fails exactly when the header lacks one.
      missing := FirstMissing(header, keyColumns);
      if missing.Some? {
        return;
      }
      var key := KeyOf(result, keyColumns);
      assert recs[i] == result;
      Step(recs, keyColumns, due, i);
      if key !in existingKeys {
        existingKeys := existingKeys + {key};
        yielded := yielded + [result];
      } else {
        duplicates := duplicates + 1;
      }
      if reportsProgress && rowCount in due {
        calls := calls + [Progress(rowCount, duplicates)];
      }
    }
    if rowCount > 0 {
      RecordsHaveColumns(header, rows, keyColumns);
    }
    YieldedPlusDuplicates(recs, keyColumns, |rows|);
  }

  /** What reading row `i` adds to the yielded rows, the seen keys and the
      log of progress calls. */
  lemma Step(recs: seq<Record>, keyColumns: seq<string>, due: set<nat>, i: nat)
    requires i < |recs|
    ensures Dedup(recs, keyColumns, i + 1) == Dedup(recs, keyColumns, i)
      + (if KeyOf(recs[i], keyColumns) !in Keys(recs, keyColumns, i) then [recs[i]] else [])
    ensures Keys(recs, keyColumns, i + 1) == Keys(recs, keyColumns, i) + {KeyOf(recs[i], keyColumns)}
    ensures LoopProgress(recs, keyColumns, due, i + 1) == LoopProgress(recs, keyColumns, due, i)
      + (if i + 1 in due then [Progress(i + 1, Duplicates(recs, keyColumns, i + 1))] else [])
    ensures Duplicates(recs, keyColumns, i + 1) == Duplicates(recs, keyColumns, i)
      + (if KeyOf(recs[i], keyColumns) !in Keys(recs, keyColumns, i) then 0 else 1)
  {
    IsFirstIffUnseen(recs, keyColumns, i);
    KeysSnoc(recs, keyColumns, i);
  }
}
