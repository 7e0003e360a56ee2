/** `load_and_combine_csvs_to_staging` end to end (etl.py:128-231): select
    the files, read and reconcile each, concatenate, clean the designated
    columns, then insert with the batch-then-fallback protocol. */
module Pipeline {
  import opened Wrappers
  import opened Schema
  import opened CsvLoad
  import opened Cleaning
  import opened Chunking
  import opened Staging

  /** The rows handed to the insert phase: the combined rows, cleaned. */
  ghost function StagedRows(folder: Folder, parseDate: string -> Option<CalDate>): (r: Result<seq<seq<Value>>, ReadError>)
    requires WellFormed(folder)
    ensures r.Success? ==> Shaped(r.value)
  {
    match SelectFiles(folder)
    case Failure(e) => Failure(e)
    case Success(files) =>
      match Combine(files, folder)
      case Failure(e) => Failure(e)
      case Success(rows) =>
        CombinedRowsShaped(files, folder);
        Success(CleanRows(rows, parseDate))
  }

  /** The whole load: a read error stops it before anything is inserted,
      otherwise the insert phase reports how it ended. */
  ghost function LoadToStaging(folder: Folder, parseDate: string -> Option<CalDate>, batchSize: int,
                               chunkFails: ChunkOracle, rowFails: RowOracle): Result<LoadReport, ReadError>
    requires WellFormed(folder)
  {
    match StagedRows(folder, parseDate)
    case Failure(e) => Failure(e)
    case Success(rows) => Success(LoadRows(rows, batchSize, chunkFails, rowFails))
  }

  /** The load fails while reading exactly when no file matches either
      pattern or some selected file lacks a required column; the error is
      `NoInputFiles` in the first case and names the first refused file in
      the second. */
  lemma ReadFailure(folder: Folder, parseDate: string -> Option<CalDate>, batchSize: int,
                    chunkFails: ChunkOracle, rowFails: RowOracle)
    requires WellFormed(folder)
    ensures var r := LoadToStaging(folder, parseDate, batchSize, chunkFails, rowFails);
      r.Failure? <==> (SelectFiles(folder).Failure?
        || exists i :: 0 <= i < |SelectFiles(folder).value| && Reconciled(SelectFiles(folder).value, folder)[i].Failure?)
    ensures var r := LoadToStaging(folder, parseDate, batchSize, chunkFails, rowFails);
      SelectFiles(folder).Failure? ==> r == Failure(NoInputFiles)
    ensures var r := LoadToStaging(folder, parseDate, batchSize, chunkFails, rowFails);
      SelectFiles(folder).Success? && r.Failure? ==>
        var files := SelectFiles(folder).value;
        exists i :: (0 <= i < |files| && r.error.MissingColumns? && r.error.file == files[i]
          && Reconciled(files, folder)[i] == Failure(r.error)
          && (forall j :: 0 <= j < i ==> Reconciled(files, folder)[j].Success?))
  {
    if SelectFiles(folder).Success? {
      StagedFailure(folder, parseDate);
    }
  }

  /** Past file selection, reading fails exactly at the first refused file. */
  lemma StagedFailure(folder: Folder, parseDate: string -> Option<CalDate>)
    requires WellFormed(folder) && SelectFiles(folder).Success?
    ensures var files := SelectFiles(folder).value;
      var r := StagedRows(folder, parseDate);
      && (r.Failure? <==> exists i :: 0 <= i < |files| && Reconciled(files, folder)[i].Failure?)
      && (r.Failure? ==> exists i :: (0 <= i < |files| && r.error.MissingColumns? && r.error.file == files[i]
          && Reconciled(files, folder)[i] == Failure(r.error)
          && (forall j :: 0 <= j < i ==> Reconciled(files, folder)[j].Success?)))
  {
    var files := SelectFiles(folder).value;
    CombineFailsAtFirstRefusal(files, folder);
    if Combine(files, folder).Failure? {
      var i :| 0 <= i < |files| && Combine(files, folder) == Reconciled(files, folder)[i]
        && (forall j :: 0 <= j < i ==> Reconciled(files, folder)[j].Success?);
      assert Reconciled(files, folder)[i] == Reconcile(files[i], folder[files[i]]);
      assert StagedRows(folder, parseDate) == Failure(Combine(files, folder).error);
    }
  }

  /** Once reading succeeds, the insert phase sees one row per row of the
      selected files, and with a positive step and every chunk accepted it
      commits all of them, once each, in order. */
  lemma InsertsEveryRow(folder: Folder, parseDate: string -> Option<CalDate>, batchSize: int,
                        chunkFails: ChunkOracle, rowFails: RowOracle)
    requires WellFormed(folder)
    requires LoadToStaging(folder, parseDate, batchSize, chunkFails, rowFails).Success?
    ensures SelectFiles(folder).Success?
    ensures var files := SelectFiles(folder).value;
      var n := RowsBefore(files, folder, |files|);
      |StagedRows(folder, parseDate).value| == n
      && (batchSize > 0 && (forall m :: 0 <= m < |Chunks(Range(0, n), batchSize)| ==> chunkFails(m).None?) ==>
            LoadToStaging(folder, parseDate, batchSize, chunkFails, rowFails).value
              == LoadReport(Db(Range(0, n), []), Pass, [], 0))
  {
    var files := SelectFiles(folder).value;
    CombinedRowCount(files, folder);
    var rows := StagedRows(folder, parseDate).value;
    if batchSize > 0 && forall m :: 0 <= m < |Chunks(Range(0, |rows|), batchSize)| ==> chunkFails(m).None? {
      LoadAllChunks(rows, batchSize, chunkFails, rowFails);
    }
  }

  /** A bad row is reported with the name of the file it was read from: the
      `SourceFile` cell of that combined row. */
  lemma BadRowNamesItsFile(folder: Folder, parseDate: string -> Option<CalDate>, batchSize: int,
                           chunkFails: ChunkOracle, rowFails: RowOracle)
    requires WellFormed(folder)
    requires LoadToStaging(folder, parseDate, batchSize, chunkFails, rowFails).Success?
    requires LoadToStaging(folder, parseDate, batchSize, chunkFails, rowFails).value.outcome.Fail?
    ensures SelectFiles(folder).Success? && Combine(SelectFiles(folder).value, folder).Success?
    ensures var r := LoadToStaging(folder, parseDate, batchSize, chunkFails, rowFails).value;
      var combined := Combine(SelectFiles(folder).value, folder).value;
      forall t :: 0 <= t < |r.bad| ==>
        r.bad[t].index < |combined| && |combined[r.bad[t].index]| == |ExpectedColumns|
        && r.bad[t].source == Str(combined[r.bad[t].index][|ExpectedColumns| - 1])
  {
    var files := SelectFiles(folder).value;
    var combined := Combine(files, folder).value;
    CombinedRowsShaped(files, folder);
    var rows := StagedRows(folder, parseDate).value;
    var r := LoadRows(rows, batchSize, chunkFails, rowFails);
    LoadRecords(rows, batchSize, chunkFails, rowFails);
    forall t | 0 <= t < |r.bad|
      ensures r.bad[t].index < |combined| && |combined[r.bad[t].index]| == |ExpectedColumns|
      ensures r.bad[t].source == Str(combined[r.bad[t].index][|ExpectedColumns| - 1])
    {
      assert Describes(rows, rowFails, r.bad[t]);
      CleanKeepsSource(combined, parseDate, r.bad[t].index);
    }
  }
}
