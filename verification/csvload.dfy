/** Reading the input folder (etl.py:130-162): file selection by pattern,
    header normalisation, reconciliation of each file's columns with the
    staging schema, and concatenation of the files' rows. */
module CsvLoad {
  import opened Wrappers
  import opened Seqs
  import opened Text
  import opened Schema
  import opened Sorting

  /** A CSV file as read with every cell kept as text: the header names as
      the reader reports them, and one string per cell. */
  datatype Table = Table(header: seq<string>, rows: seq<seq<string>>)

  /** Every row has one cell per header name. */
  predicate Rectangular(t: Table) {
    forall r :: 0 <= r < |t.rows| ==> |t.rows[r]| == |t.header|
  }

  /** The input folder: the name of every entry and its contents. */
  type Folder = map<string, Table>

  predicate WellFormed(folder: Folder) {
    forall f :: f in folder ==> Rectangular(folder[f])
  }

  /** Why reading the input stops the load. */
  datatype ReadError =
    | NoInputFiles
    | MissingColumns(file: string, missing: seq<string>, found: seq<string>)

  // ---------------------------------------------------------------------
  // Header normalisation

  /** The byte-order mark, which `str.strip()` does not treat as whitespace. */
  const Bom: char := '\U{FEFF}'

  /** One header name normalised (etl.py:145): trimmed first, then every BOM
      removed. */
  function NormalizeName(h: string): (r: string)
    ensures Bom !in r
    ensures |r| <= |h|
  {
    WithoutMembers(Strip(h), {Bom});
    Without(Strip(h), {Bom})
  }

  function NormalizeHeader(header: seq<string>): seq<string> {
    seq(|header|, i requires 0 <= i < |header| => NormalizeName(header[i]))
  }

  /** Whitespace around a header name never matters. */
  lemma NormalizeMargins(w1: string, h: string, w2: string)
    requires AllSpace(w1) && AllSpace(w2)
    ensures NormalizeName(w1 + h + w2) == NormalizeName(h)
  {
    StripAbsorbs(w1, h, w2);
  }

  /** A BOM glued to the front of a name, with or without trailing
      whitespace, is removed. */
  lemma NormalizeLeadingBom(h: string, w: string)
    requires Trimmed(h) && h != [] && Bom !in h && AllSpace(w)
    ensures NormalizeName([Bom] + h + w) == h
  {
    var s := [Bom] + h;
    assert Trimmed(s);
    assert [Bom] + h + w == [] + s + w;
    StripAbsorbs([], s, w);
    StripTrimmed(s);
    assert forall i :: 0 <= i < |h| ==> h[i] != Bom;
    WithoutAbsent(h, {Bom});
    WithoutAppend([Bom], h, {Bom});
    assert Without([Bom], {Bom}) == [];
  }

  /** Because stripping comes before the BOM removal, whitespace between a
      leading BOM and the name survives: such a header never matches its
      schema column. */
  lemma NormalizeBomBeforeSpace(w: string, h: string)
    requires AllSpace(w) && w != [] && Trimmed(h) && h != [] && Bom !in h
    ensures NormalizeName([Bom] + w + h) == w + h
    ensures NormalizeName([Bom] + w + h) != h
  {
    var s := [Bom] + w + h;
    assert s[0] == Bom && s[|s| - 1] == h[|h| - 1];
    StripTrimmed(s);
    assert forall i :: 0 <= i < |w| ==> w[i] != Bom by {
      forall i | 0 <= i < |w| ensures w[i] != Bom {
        assert IsSpace(w[i]);
      }
    }
    assert forall i :: 0 <= i < |h| ==> h[i] != Bom;
    WithoutAbsent(w, {Bom});
    WithoutAbsent(h, {Bom});
    WithoutAppend([Bom], w, {Bom});
    WithoutAppend([Bom] + w, h, {Bom});
    assert Without([Bom], {Bom}) == [];
  }

  // ---------------------------------------------------------------------
  // Reconciliation with the schema

  /** `[c for c in expected if c not in cols and c != "SourceFile"]`. */
  function Missing(expected: seq<string>, cols: seq<string>): (r: seq<string>)
    ensures forall c :: c in r <==> c in expected && c !in cols && c != SourceFile
  {
    if expected == [] then []
    else
      var rest := Missing(expected[1..], cols);
      assert forall c :: c in expected <==> c == expected[0] || c in expected[1..];
      if expected[0] !in cols && expected[0] != SourceFile then [expected[0]] + rest else rest
  }

  lemma DistinctTail<T>(s: seq<T>)
    requires Distinct(s) && s != []
    ensures Distinct(s[1..]) && s[0] !in s[1..]
  {
    var e := s[1..];
    forall i, j | 0 <= i < j < |e| ensures e[i] != e[j] {
      assert e[i] == s[i + 1] && e[j] == s[j + 1];
    }
    assert forall k :: 0 <= k < |e| ==> e[k] == s[k + 1];
  }

  /** The missing columns are listed in the order of the schema. */
  lemma {:induction false} MissingInSchemaOrder(expected: seq<string>, cols: seq<string>)
    requires Distinct(expected)
    ensures forall i, j :: 0 <= i < j < |Missing(expected, cols)| ==>
      IndexOf(expected, Missing(expected, cols)[i]) < IndexOf(expected, Missing(expected, cols)[j])
  {
    if expected != [] {
      var e := expected[1..];
      DistinctTail(expected);
      MissingInSchemaOrder(e, cols);
      var m := Missing(expected, cols);
      var rest := Missing(e, cols);
      forall i | 0 <= i < |rest| ensures IndexOf(expected, rest[i]) == 1 + IndexOf(e, rest[i]) {
        assert rest[i] in rest;
        IndexOfTail(expected, rest[i]);
      }
      if m != rest {
        assert m == [expected[0]] + rest;
        assert IndexOf(expected, m[0]) == 0;
        assert forall i :: 0 < i < |m| ==> m[i] == rest[i - 1];
      }
    }
  }

  /** The value a staged row takes in schema column `c`: the file name for
      `SourceFile`, otherwise the cell under the first header with that
      name. */
  function Pick(file: string, cols: seq<string>, row: seq<string>, c: string): string
    requires |row| == |cols|
    requires c == SourceFile || c in cols
  {
    if c == SourceFile then file else row[IndexOf(cols, c)]
  }

  /** `df[EXPECTED_COLUMNS]` for one row after `SourceFile` is set. */
  function ProjectRow(file: string, cols: seq<string>, row: seq<string>): (r: seq<string>)
    requires |row| == |cols|
    requires Missing(ExpectedColumns, cols) == []
    ensures |r| == |ExpectedColumns|
    ensures forall k :: 0 <= k < |r| && ExpectedColumns[k] == SourceFile ==> r[k] == file
  {
    seq(|ExpectedColumns|, k requires 0 <= k < |ExpectedColumns| =>
      Pick(file, cols, row, ExpectedColumns[k]))
  }

  /** Once no required column is missing, every schema column is present
      after `SourceFile` is added, so the loop that would add empty columns
      never adds one. */
  lemma FillLoopNeverFires(cols: seq<string>)
    requires Missing(ExpectedColumns, cols) == []
    ensures forall c :: c in ExpectedColumns ==> c in cols + [SourceFile]
  {
    forall c | c in ExpectedColumns ensures c in cols + [SourceFile] {
      if c != SourceFile {
        assert c !in Missing(ExpectedColumns, cols);
      }
    }
  }

  /** One file through normalisation and reconciliation (etl.py:145-159). */
  function Reconcile(file: string, t: Table): (r: Result<seq<seq<string>>, ReadError>)
    requires Rectangular(t)
    ensures r.Failure? ==> r.error.MissingColumns? && r.error.file == file
    ensures r.Success? ==> |r.value| == |t.rows|
  {
    var cols := NormalizeHeader(t.header);
    var missing := Missing(ExpectedColumns, cols);
    if missing != [] then
      Failure(MissingColumns(file, missing, cols[..Min(50, |cols|)]))
    else
      Success(seq(|t.rows|, i requires 0 <= i < |t.rows| => ProjectRow(file, cols, t.rows[i])))
  }

  /** A file lacking any required column other than `SourceFile` is refused,
      and only such a file. The refusal names every missing column and
      nothing else, and at most the first 50 normalised headers. */
  lemma ReconcileRefusal(file: string, t: Table)
    requires Rectangular(t)
    ensures var cols := NormalizeHeader(t.header);
      Reconcile(file, t).Failure? <==> exists c :: c in ExpectedColumns && c != SourceFile && c !in cols
    ensures Reconcile(file, t).Failure? ==>
      var cols := NormalizeHeader(t.header);
      var e := Reconcile(file, t).error;
      && (forall c :: c in e.missing <==> c in ExpectedColumns && c != SourceFile && c !in cols)
      && |e.found| == Min(50, |cols|) && e.found == cols[..|e.found|]
  {
    var cols := NormalizeHeader(t.header);
    var missing := Missing(ExpectedColumns, cols);
    if missing != [] {
      assert missing[0] in missing;
    }
  }

  /** An accepted file keeps its row count, and each row becomes exactly the
      schema's columns in schema order: `SourceFile` holds the file name
      (replacing any such column in the file), every other column the cell
      under the first header with that name; other columns are dropped. */
  lemma ReconcileRows(file: string, t: Table)
    requires Rectangular(t) && Reconcile(file, t).Success?
    ensures var rows := Reconcile(file, t).value;
      && |rows| == |t.rows|
      && forall i :: 0 <= i < |rows| ==> |rows[i]| == |ExpectedColumns|
    ensures var rows := Reconcile(file, t).value;
      var cols := NormalizeHeader(t.header);
      forall i, k :: 0 <= i < |rows| && 0 <= k < |ExpectedColumns| ==>
        && (ExpectedColumns[k] == SourceFile ==> rows[i][k] == file)
        && (ExpectedColumns[k] != SourceFile ==>
              ExpectedColumns[k] in cols && rows[i][k] == t.rows[i][IndexOf(cols, ExpectedColumns[k])])
  {
    var cols := NormalizeHeader(t.header);
    FillLoopNeverFires(cols);
  }

  // ---------------------------------------------------------------------
  // File selection

  const PrimaryPrefix: string := "raw_offline_retail_sales_"
  const FallbackPrefix: string := "sales_"
  const CsvSuffix: string := ".csv"

  /** `prefix*.csv` matched against a file name. */
  predicate GlobMatch(name: string, prefix: string) {
    && |name| >= |prefix| + |CsvSuffix|
    && name[..|prefix|] == prefix
    && name[|name| - |CsvSuffix|..] == CsvSuffix
  }

  ghost function Glob(folder: Folder, prefix: string): set<string> {
    set f | f in folder && GlobMatch(f, prefix)
  }

  /** The files to load: the primary pattern's matches in sorted order, or,
      only when there are none, the fallback pattern's; no match at all stops
      the load. */
  ghost function SelectFiles(folder: Folder): (r: Result<seq<string>, ReadError>)
    ensures r.Failure? <==> Glob(folder, PrimaryPrefix) == {} && Glob(folder, FallbackPrefix) == {}
    ensures r.Failure? ==> r.error == NoInputFiles
    ensures r.Success? ==> r.value != [] && StrictlySorted(r.value)
    ensures r.Success? ==> forall f :: f in r.value ==> f in folder
    ensures r.Success? && Glob(folder, PrimaryPrefix) != {} ==>
      forall f :: f in r.value <==> f in folder && GlobMatch(f, PrimaryPrefix)
    ensures r.Success? && Glob(folder, PrimaryPrefix) == {} ==>
      forall f :: f in r.value <==> f in folder && GlobMatch(f, FallbackPrefix)
  {
    var primary := Glob(folder, PrimaryPrefix);
    var files := if primary != {} then SortSet(primary) else SortSet(Glob(folder, FallbackPrefix));
    if files == [] then
      NoElements(files);
      Failure(NoInputFiles)
    else
      Success(files)
  }

  /** The selected order is the one strictly increasing listing of the
      matching names: any listing of them in increasing order is it. */
  lemma SelectionIsSortedMatches(folder: Folder, listing: seq<string>)
    requires SelectFiles(folder).Success?
    requires StrictlySorted(listing)
    requires forall f :: f in listing <==> f in SelectFiles(folder).value
    ensures SelectFiles(folder).value == listing
  {
    SortedUnique(SelectFiles(folder).value, listing);
  }

  // ---------------------------------------------------------------------
  // Concatenation

  /** The number of rows a step produced (none when it failed). */
  function Size<R, E>(p: Result<seq<R>, E>): nat {
    if p.Success? then |p.value| else 0
  }

  /** The rows produced by the first `i` steps. */
  function SizeBefore<R, E>(parts: seq<Result<seq<R>, E>>, i: nat): nat
    requires i <= |parts|
  {
    if i == 0 then 0 else Size(parts[0]) + SizeBefore(parts[1..], i - 1)
  }

  /** Reading file after file and `pd.concat`-ing the frames: the first
      failing step stops everything, otherwise the rows of all steps in
      order. */
  function Concat<R, E>(parts: seq<Result<seq<R>, E>>): (r: Result<seq<R>, E>)
    ensures r.Success? ==> |r.value| == SizeBefore(parts, |parts|)
  {
    if parts == [] then Success([])
    else
      match parts[0]
      case Failure(e) => Failure(e)
      case Success(rows) =>
        match Concat(parts[1..])
        case Failure(e) => Failure(e)
        case Success(more) => Success(rows + more)
  }

  /** The concatenation fails exactly when some step failed, and then with
      the error of the first one. */
  lemma {:induction false} ConcatFailsAtFirst<R, E>(parts: seq<Result<seq<R>, E>>)
    ensures Concat(parts).Failure? <==> exists i :: 0 <= i < |parts| && parts[i].Failure?
    ensures Concat(parts).Failure? ==> exists i :: (0 <= i < |parts|
      && parts[i].Failure? && Concat(parts) == parts[i]
      && (forall j :: 0 <= j < i ==> parts[j].Success?))
  {
    if parts != [] {
      var tail := parts[1..];
      ConcatFailsAtFirst(tail);
      assert forall i :: 0 <= i < |tail| ==> tail[i] == parts[i + 1];
      if parts[0].Success? && Concat(tail).Failure? {
        var i :| 0 <= i < |tail| && tail[i].Failure? && Concat(tail) == tail[i]
          && (forall j :: 0 <= j < i ==> tail[j].Success?);
        assert parts[i + 1] == tail[i];
        assert forall j :: 1 <= j < i + 1 ==> parts[j] == tail[j - 1];
      }
      if parts[0].Success? && Concat(tail).Success? {
        forall i | 0 <= i < |parts| ensures parts[i].Success? {
          if i > 0 { assert parts[i] == tail[i - 1]; }
        }
      }
    }
  }

  /** Row `j` of step `i` sits after every row of the earlier steps: step
      order and the order within each step are kept. */
  lemma {:induction false} ConcatIndex<R, E>(parts: seq<Result<seq<R>, E>>, i: nat, j: nat)
    requires Concat(parts).Success?
    requires i < |parts|
    ensures parts[i].Success?
    ensures j < |parts[i].value| ==>
      SizeBefore(parts, i) + j < |Concat(parts).value|
      && Concat(parts).value[SizeBefore(parts, i) + j] == parts[i].value[j]
  {
    var tail := parts[1..];
    if i > 0 {
      ConcatIndex(tail, i - 1, j);
      assert tail[i - 1] == parts[i];
    }
  }

  /** Every row of a successful concatenation comes from some step. */
  lemma {:induction false} ConcatMembers<R, E>(parts: seq<Result<seq<R>, E>>)
    requires Concat(parts).Success?
    ensures forall x :: x in Concat(parts).value ==>
      exists i :: 0 <= i < |parts| && parts[i].Success? && x in parts[i].value
  {
    if parts != [] {
      var tail := parts[1..];
      ConcatMembers(tail);
      forall x | x in Concat(parts).value
        ensures exists i :: 0 <= i < |parts| && parts[i].Success? && x in parts[i].value
      {
        if x !in parts[0].value {
          var i :| 0 <= i < |tail| && tail[i].Success? && x in tail[i].value;
          assert parts[i + 1] == tail[i];
        }
      }
    }
  }

  /** The per-file steps of the load: each file name read and reconciled. */
  function Reconciled(files: seq<string>, folder: Folder): seq<Result<seq<seq<string>>, ReadError>>
    requires WellFormed(folder)
    requires forall f :: f in files ==> f in folder
  {
    seq(|files|, i requires 0 <= i < |files| => Reconcile(files[i], folder[files[i]]))
  }

  /** Every file reconciled, then the frames concatenated. */
  function Combine(files: seq<string>, folder: Folder): Result<seq<seq<string>>, ReadError>
    requires WellFormed(folder)
    requires forall f :: f in files ==> f in folder
  {
    Concat(Reconciled(files, folder))
  }

  /** The sum of the first `i` numbers. */
  function SumBefore(lens: seq<nat>, i: nat): nat
    requires i <= |lens|
  {
    if i == 0 then 0 else lens[0] + SumBefore(lens[1..], i - 1)
  }

  /** While the first `i` steps succeed with the given row counts, they
      produce the sum of those counts. */
  lemma {:induction false} SizeBeforeLengths<R, E>(parts: seq<Result<seq<R>, E>>, lens: seq<nat>, i: nat)
    requires i <= |parts| == |lens|
    requires forall k :: 0 <= k < i ==> parts[k].Success? && |parts[k].value| == lens[k]
    ensures SizeBefore(parts, i) == SumBefore(lens, i)
  {
    if i > 0 {
      SizeBeforeLengths(parts[1..], lens[1..], i - 1);
    }
  }

  /** The row count of every file. */
  function RowCounts(files: seq<string>, folder: Folder): (r: seq<nat>)
    requires forall f :: f in files ==> f in folder
    ensures |r| == |files|
  {
    seq(|files|, k requires 0 <= k < |files| => |folder[files[k]].rows|)
  }

  /** The number of rows in the first `i` files. */
  function RowsBefore(files: seq<string>, folder: Folder, i: nat): nat
    requires i <= |files|
    requires forall f :: f in files ==> f in folder
  {
    SumBefore(RowCounts(files, folder), i)
  }

  /** While every file so far is accepted, the rows produced so far are the
      rows of those files. */
  lemma SizeBeforeIsRowsBefore(files: seq<string>, folder: Folder, i: nat)
    requires WellFormed(folder)
    requires forall f :: f in files ==> f in folder
    requires i <= |files|
    requires forall k :: 0 <= k < i ==> Reconciled(files, folder)[k].Success?
    ensures SizeBefore(Reconciled(files, folder), i) == RowsBefore(files, folder, i)
  {
    var parts := Reconciled(files, folder);
    var lens := RowCounts(files, folder);
    forall k | 0 <= k < i ensures parts[k].Success? && |parts[k].value| == lens[k] {
      assert parts[k] == Reconcile(files[k], folder[files[k]]);
    }
    SizeBeforeLengths(parts, lens, i);
  }

  /** The load stops exactly when some file is refused, and then with the
      error of the first refused file: later files are never looked at. */
  lemma CombineFailsAtFirstRefusal(files: seq<string>, folder: Folder)
    requires WellFormed(folder)
    requires forall f :: f in files ==> f in folder
    ensures var steps := Reconciled(files, folder);
      Combine(files, folder).Failure? <==> exists i :: 0 <= i < |files| && steps[i].Failure?
    ensures var steps := Reconciled(files, folder);
      Combine(files, folder).Failure? ==> exists i :: (0 <= i < |files|
        && Combine(files, folder) == steps[i]
        && (forall j :: 0 <= j < i ==> steps[j].Success?))
  {
    ConcatFailsAtFirst(Reconciled(files, folder));
  }

  /** All accepted: the combined row count is the sum of the files' row
      counts. */
  lemma CombinedRowCount(files: seq<string>, folder: Folder)
    requires WellFormed(folder)
    requires forall f :: f in files ==> f in folder
    requires Combine(files, folder).Success?
    ensures |Combine(files, folder).value| == RowsBefore(files, folder, |files|)
  {
    var parts := Reconciled(files, folder);
    ConcatFailsAtFirst(parts);
    SizeBeforeIsRowsBefore(files, folder, |files|);
  }

  /** Every reconciled row of an accepted file has one cell per schema
      column and carries the file's name in the last one, `SourceFile`. */
  lemma ReconciledSource(file: string, t: Table, j: nat)
    requires Rectangular(t) && Reconcile(file, t).Success? && j < |t.rows|
    ensures |Reconcile(file, t).value| == |t.rows|
    ensures |Reconcile(file, t).value[j]| == |ExpectedColumns|
    ensures Reconcile(file, t).value[j][|ExpectedColumns| - 1] == file
  {
    SourceFileAtEnd();
    var cols := NormalizeHeader(t.header);
    assert Reconcile(file, t).value[j] == ProjectRow(file, cols, t.rows[j]);
  }

  /** Row `j` of file `i` sits right after the rows of the files before it. */
  lemma CombinedRowAt(files: seq<string>, folder: Folder, i: nat, j: nat)
    requires WellFormed(folder)
    requires forall f :: f in files ==> f in folder
    requires Combine(files, folder).Success?
    requires i < |files| && j < |folder[files[i]].rows|
    ensures Reconcile(files[i], folder[files[i]]).Success?
    ensures |Reconcile(files[i], folder[files[i]]).value| == |folder[files[i]].rows|
    ensures RowsBefore(files, folder, i) + j < |Combine(files, folder).value|
    ensures Combine(files, folder).value[RowsBefore(files, folder, i) + j]
         == Reconcile(files[i], folder[files[i]]).value[j]
  {
    var parts := Reconciled(files, folder);
    assert parts[i] == Reconcile(files[i], folder[files[i]]);
    forall k | 0 <= k < i ensures parts[k].Success? {
      ConcatIndex(parts, k, 0);
    }
    SizeBeforeIsRowsBefore(files, folder, i);
    ConcatIndex(parts, i, j);
  }

  /** Row `j` of file `i` comes right after the rows of the files before it,
      carrying that file's name as `SourceFile`. */
  lemma CombinedRowOrigin(files: seq<string>, folder: Folder, i: nat, j: nat)
    requires WellFormed(folder)
    requires forall f :: f in files ==> f in folder
    requires Combine(files, folder).Success?
    requires i < |files| && j < |folder[files[i]].rows|
    ensures Reconcile(files[i], folder[files[i]]).Success?
    ensures |Reconcile(files[i], folder[files[i]]).value| == |folder[files[i]].rows|
    ensures RowsBefore(files, folder, i) + j < |Combine(files, folder).value|
    ensures Combine(files, folder).value[RowsBefore(files, folder, i) + j]
         == Reconcile(files[i], folder[files[i]]).value[j]
    ensures |Combine(files, folder).value[RowsBefore(files, folder, i) + j]| == |ExpectedColumns|
    ensures Combine(files, folder).value[RowsBefore(files, folder, i) + j][|ExpectedColumns| - 1]
         == files[i]
  {
    CombinedRowAt(files, folder, i, j);
    ReconciledSource(files[i], folder[files[i]], j);
  }

  /** Every combined row has one cell per schema column. */
  lemma CombinedRowsShaped(files: seq<string>, folder: Folder)
    requires WellFormed(folder)
    requires forall f :: f in files ==> f in folder
    requires Combine(files, folder).Success?
    ensures forall k :: 0 <= k < |Combine(files, folder).value| ==>
      |Combine(files, folder).value[k]| == |ExpectedColumns|
  {
    var parts := Reconciled(files, folder);
    var all := Combine(files, folder).value;
    ConcatMembers(parts);
    forall k | 0 <= k < |all| ensures |all[k]| == |ExpectedColumns| {
      assert all[k] in all;
      var i :| 0 <= i < |parts| && parts[i].Success? && all[k] in parts[i].value;
      ReconcileRows(files[i], folder[files[i]]);
    }
  }
}
