/** The batch-then-fallback insert into the staging table (etl.py:186-231),
    stated against an abstract database: a log of committed row numbers, a
    log of pending (uncommitted) row numbers, and two outcome oracles that
    say which chunk and which single-row INSERT the server refuses. */
module Staging {
  import opened Wrappers
  import opened Seqs
  import opened Schema
  import opened Chunking
  import opened Cleaning

  /** The fallback commits after every successful row whose number is a
      multiple of this. */
  const CommitEvery: nat := 1000
  /** The fallback stops after collecting this many bad rows. */
  const MaxBadRows: nat := 10

  datatype DbError = DbError(message: string)

  /** Rows are identified by their position in the row list. */
  datatype Db = Db(committed: seq<nat>, pending: seq<nat>)

  function Insert(db: Db, ids: seq<nat>): Db {
    db.(pending := db.pending + ids)
  }

  function Commit(db: Db): Db {
    Db(db.committed + db.pending, [])
  }

  function Rollback(db: Db): Db {
    db.(pending := [])
  }

  /** The row numbers `lo`, ..., `hi - 1`. */
  function Range(lo: nat, hi: nat): (r: seq<nat>)
    ensures |r| == if lo <= hi then hi - lo else 0
    ensures forall k :: 0 <= k < |r| ==> r[k] == lo + k
  {
    if lo <= hi then seq(hi - lo, k requires 0 <= k < hi - lo => lo + k) else []
  }

  lemma RangeSnoc(lo: nat, hi: nat)
    requires lo <= hi
    ensures Range(lo, hi) + [hi] == Range(lo, hi + 1)
  {
  }

  /** A per-row oracle: `Some(e)` when the single-row INSERT of that row is
      refused with `e`. */
  type RowOracle = nat -> Option<DbError>

  /** The same for the chunk INSERTs of the fast path, by chunk number. */
  type ChunkOracle = nat -> Option<DbError>

  /** What the fallback records about a refused row: its number, the
      `SourceFile` cell, the error, and the numeric columns by name. */
  datatype BadRow = BadRow(index: nat, source: Value, error: DbError, numbers: seq<(string, Value)>)

  /** The cells of `row` under each of `names`, paired with the name, where
      `cols` names the cells of `row`. */
  function Pick<T>(names: seq<string>, cols: seq<string>, row: seq<T>): (r: seq<(string, T)>)
    requires |row| == |cols| && Distinct(cols)
    requires forall c :: c in names ==> c in cols
    ensures |r| == |names|
    ensures forall k :: 0 <= k < |r| ==> r[k].0 == names[k]
    ensures forall k, j :: 0 <= k < |r| && 0 <= j < |cols| && cols[j] == names[k] ==> r[k].1 == row[j]
  {
    forall j | 0 <= j < |cols| {
      IndexOfDistinct(cols, j);
    }
    seq(|names|, k requires 0 <= k < |names| => (names[k], row[IndexOf(cols, names[k])]))
  }

  /** The numeric columns of a row, by name, in the order they are cleaned. */
  function Snapshot(row: seq<Value>): (r: seq<(string, Value)>)
    requires |row| == |ExpectedColumns|
    ensures |r| == |NumericColumns|
    ensures forall k :: 0 <= k < |r| ==> r[k].0 == NumericColumns[k]
    ensures forall k, j :: 0 <= k < |r| && 0 <= j < |ExpectedColumns| && ExpectedColumns[j] == NumericColumns[k] ==> r[k].1 == row[j]
  {
    DesignatedColumnsInSchema();
    ExpectedColumnsDistinct();
    Pick(NumericColumns, ExpectedColumns, row)
  }

  predicate Shaped(rows: seq<seq<Value>>) {
    forall i :: 0 <= i < |rows| ==> |rows[i]| == |ExpectedColumns|
  }

  /** `b` is the record the fallback makes of a refused row. The file name is
      the last cell, which is where `SourceFile` sits in the schema. */
  predicate Describes(rows: seq<seq<Value>>, rowFails: RowOracle, b: BadRow)
    requires Shaped(rows)
  {
    b.index < |rows| && rowFails(b.index) == Some(b.error)
    && b.source == rows[b.index][|ExpectedColumns| - 1]
    && b.numbers == Snapshot(rows[b.index])
  }

  /** Makes the record of a refused row from its number and the server's
      error. The fallback is stated for any recorder that keeps the number,
      so that its proofs never look inside a row. */
  type Recorder = (nat, DbError) -> BadRow

  ghost predicate Numbered(record: Recorder) {
    forall j, e :: record(j, e).index == j
  }

  /** The state the row-by-row fallback ends in. */
  datatype Scan = Scan(db: Db, bad: seq<BadRow>, scanned: nat)

  /** The row-by-row loop over rows `i`, ..., `n - 1`, with `bad` collected
      so far. A refused row rolls back everything pending and is recorded;
      the loop stops right after the tenth record. */
  function Fallback(n: nat, rowFails: RowOracle, record: Recorder, i: nat, db: Db, bad: seq<BadRow>): (r: Scan)
    requires Numbered(record)
    requires i <= n && |bad| < MaxBadRows
    ensures i <= r.scanned <= n
    ensures |bad| <= |r.bad| <= MaxBadRows && r.bad[..|bad|] == bad
    ensures |r.bad| < MaxBadRows ==> r.scanned == n
    ensures |r.bad| == MaxBadRows ==> r.bad[MaxBadRows - 1].index + 1 == r.scanned
    decreases n - i
  {
    if i == n then Scan(db, bad, i)
    else match rowFails(i)
      case None => Fallback(n, rowFails, record, i + 1, AfterRow(db, i), bad)
      case Some(e) =>
        var bad' := bad + [record(i, e)];
        if |bad'| >= MaxBadRows then Scan(Rollback(db), bad', i + 1)
        else Fallback(n, rowFails, record, i + 1, Rollback(db), bad')
  }

  /** The database after row `i` went in: committed when `i` is a multiple
      of `CommitEvery`, pending otherwise. */
  function AfterRow(db: Db, i: nat): Db {
    var db' := Insert(db, [i]);
    if i % CommitEvery == 0 then Commit(db') else db'
  }

  /** The record made of row `i`, refused with `e`. */
  function Record(rows: seq<seq<Value>>, i: nat, e: DbError): BadRow
    requires Shaped(rows) && i < |rows|
  {
    BadRow(i, rows[i][|ExpectedColumns| - 1], e, Snapshot(rows[i]))
  }

  /** The recorder of the load. The fallback only ever records rows of the
      list, so the record of a number past its end is never made. */
  function RecordOf(rows: seq<seq<Value>>): (r: Recorder)
    requires Shaped(rows)
    ensures Numbered(r)
    ensures forall j: nat, e :: j < |rows| ==> r(j, e) == Record(rows, j, e)
  {
    (j: nat, e: DbError) => if j < |rows| then Record(rows, j, e) else BadRow(j, Str(""), e, [])
  }

  // ---------------------------------------------------------------------
  // Rows selected by a test.

  /** The rows among `lo`, ..., `hi - 1` that pass `keep`, in order. */
  function RowsWhere(keep: nat -> bool, lo: nat, hi: nat): seq<nat>
    decreases hi - lo
  {
    if lo >= hi then []
    else (if keep(lo) then [lo] else []) + RowsWhere(keep, lo + 1, hi)
  }

  /** Exactly the rows of the range that pass. */
  lemma {:induction false} RowsWhereMembers(keep: nat -> bool, lo: nat, hi: nat)
    ensures forall x :: x in RowsWhere(keep, lo, hi) <==> lo <= x < hi && keep(x)
    decreases hi - lo
  {
    if lo < hi {
      RowsWhereMembers(keep, lo + 1, hi);
    }
  }

  predicate Increasing(s: seq<nat>) {
    forall a, b :: 0 <= a < b < |s| ==> s[a] < s[b]
  }

  /** In scan order. */
  lemma {:induction false} RowsWhereIncreasing(keep: nat -> bool, lo: nat, hi: nat)
    ensures Increasing(RowsWhere(keep, lo, hi))
    decreases hi - lo
  {
    if lo < hi {
      RowsWhereIncreasing(keep, lo + 1, hi);
      RowsWhereMembers(keep, lo + 1, hi);
      var tail := RowsWhere(keep, lo + 1, hi);
      assert forall b :: 0 <= b < |tail| ==> tail[b] in tail;
    }
  }

  /** The first row that passes, with none before it. */
  lemma {:induction false} RowsWhereFirst(keep: nat -> bool, lo: nat, hi: nat)
    requires RowsWhere(keep, lo, hi) != []
    ensures var j := RowsWhere(keep, lo, hi)[0];
      lo <= j < hi && keep(j) && forall m :: lo <= m < j ==> !keep(m)
    decreases hi - lo
  {
    if !keep(lo) {
      RowsWhereFirst(keep, lo + 1, hi);
    }
  }

  /** A run of rows that all pass is taken whole. */
  lemma {:induction false} RowsWhereAll(keep: nat -> bool, p: nat, q: nat, hi: nat)
    requires p <= q <= hi
    requires forall j :: p <= j < q ==> keep(j)
    ensures RowsWhere(keep, p, hi) == Range(p, q) + RowsWhere(keep, q, hi)
    decreases q - p
  {
    if p < q {
      RowsWhereAll(keep, p + 1, q, hi);
      var rest := RowsWhere(keep, q, hi);
      assert keep(p);
      assert RowsWhere(keep, p, hi) == [p] + (Range(p + 1, q) + rest);
      assert Range(p, q) == [p] + Range(p + 1, q);
      assert Range(p, q) + rest == [p] + (Range(p + 1, q) + rest);
    } else {
      assert Range(p, q) == [];
    }
  }

  /** A run of rows that all fail is skipped. */
  lemma {:induction false} RowsWhereNone(keep: nat -> bool, p: nat, q: nat, hi: nat)
    requires p <= q
    requires forall j :: p <= j < q ==> !keep(j)
    ensures RowsWhere(keep, p, hi) == RowsWhere(keep, q, hi)
    decreases q - p
  {
    if p < q {
      RowsWhereNone(keep, p + 1, q, hi);
    }
  }

  // ---------------------------------------------------------------------
  // Which rows the fallback records.

  function RefusedBy(rowFails: RowOracle): nat -> bool {
    (j: nat) => rowFails(j).Some?
  }

  /** The refused rows among `i`, ..., `n - 1`, in scan order: the reference
      list the fallback's records are compared with. */
  function FailingFrom(rowFails: RowOracle, i: nat, n: nat): seq<nat> {
    RowsWhere(RefusedBy(rowFails), i, n)
  }

  /** The first `k` elements (all of them when there are fewer). */
  function Take(s: seq<nat>, k: nat): (r: seq<nat>)
    ensures |r| == Min(k, |s|) && r == s[..|r|]
  {
    if |s| <= k then s else s[..k]
  }

  function Indices(bad: seq<BadRow>): (r: seq<nat>)
    ensures |r| == |bad|
    ensures forall t :: 0 <= t < |bad| ==> r[t] == bad[t].index
  {
    seq(|bad|, t requires 0 <= t < |bad| => bad[t].index)
  }

  /** The fallback records the refused rows in scan order, as many as there
      is room for: its records are the first ones of the reference list. */
  lemma {:induction false} FallbackRecordsFailing(n: nat, rowFails: RowOracle, record: Recorder, i: nat, db: Db, bad: seq<BadRow>)
    requires Numbered(record)
    requires i <= n && |bad| < MaxBadRows
    ensures Indices(Fallback(n, rowFails, record, i, db, bad).bad)
      == Indices(bad) + Take(FailingFrom(rowFails, i, n), MaxBadRows - |bad|)
    decreases n - i, 2
  {
    if i == n {
      assert FailingFrom(rowFails, i, n) == [];
      assert Indices(bad) + [] == Indices(bad);
    } else if rowFails(i).None? {
      FallbackRecordsFailing(n, rowFails, record, i + 1, AfterRow(db, i), bad);
      assert FailingFrom(rowFails, i, n) == FailingFrom(rowFails, i + 1, n);
    } else {
      FallbackRefusedStep(n, rowFails, record, i, db, bad);
    }
  }

  /** The induction step of `FallbackRecordsFailing` at a refused row. */
  lemma {:induction false} FallbackRefusedStep(n: nat, rowFails: RowOracle, record: Recorder, i: nat, db: Db, bad: seq<BadRow>)
    requires Numbered(record)
    requires i < n && |bad| < MaxBadRows && rowFails(i).Some?
    ensures Indices(Fallback(n, rowFails, record, i, db, bad).bad)
      == Indices(bad) + Take(FailingFrom(rowFails, i, n), MaxBadRows - |bad|)
    decreases n - i, 1
  {
    assert FailingFrom(rowFails, i, n) == [i] + FailingFrom(rowFails, i + 1, n);
    if |bad| + 1 == MaxBadRows {
      RefusedLast(n, rowFails, record, i, db, bad);
    } else {
      RefusedGoOn(n, rowFails, record, i, db, bad);
    }
  }

  /** A refusal that fills the last free place ends the scan. */
  lemma RefusedLast(n: nat, rowFails: RowOracle, record: Recorder, i: nat, db: Db, bad: seq<BadRow>)
    requires Numbered(record)
    requires i < n && |bad| + 1 == MaxBadRows && rowFails(i).Some?
    ensures Indices(Fallback(n, rowFails, record, i, db, bad).bad)
      == Indices(bad) + Take([i] + FailingFrom(rowFails, i + 1, n), 1)
  {
    var b := record(i, rowFails(i).value);
    assert Fallback(n, rowFails, record, i, db, bad).bad == bad + [b];
    IndicesAppend(bad, b);
    TakeCons(i, FailingFrom(rowFails, i + 1, n), 0);
  }

  /** A refusal with room left goes on from the next row. */
  lemma {:induction false} RefusedGoOn(n: nat, rowFails: RowOracle, record: Recorder, i: nat, db: Db, bad: seq<BadRow>)
    requires Numbered(record)
    requires i < n && |bad| + 1 < MaxBadRows && rowFails(i).Some?
    ensures Indices(Fallback(n, rowFails, record, i, db, bad).bad)
      == Indices(bad) + Take([i] + FailingFrom(rowFails, i + 1, n), MaxBadRows - |bad|)
    decreases n - i, 0
  {
    var tail := FailingFrom(rowFails, i + 1, n);
    var b := record(i, rowFails(i).value);
    var bad' := bad + [b];
    var k := MaxBadRows - |bad'|;
    var r := Fallback(n, rowFails, record, i + 1, Rollback(db), bad');
    assert Fallback(n, rowFails, record, i, db, bad) == r;
    assert Indices(r.bad) == Indices(bad') + Take(tail, k) by {
      FallbackRecordsFailing(n, rowFails, record, i + 1, Rollback(db), bad');
    }
    assert Indices(bad') == Indices(bad) + [i] by {
      IndicesAppend(bad, b);
    }
    assert Take([i] + tail, k + 1) == [i] + Take(tail, k) by {
      TakeCons(i, tail, k);
    }
    MoveAcross(Indices(bad), i, Take(tail, k));
  }

  lemma MoveAcross(a: seq<nat>, x: nat, t: seq<nat>)
    ensures (a + [x]) + t == a + ([x] + t)
  {
  }

  lemma IndicesAppend(bad: seq<BadRow>, b: BadRow)
    ensures Indices(bad + [b]) == Indices(bad) + [b.index]
  {
  }

  lemma TakeCons(x: nat, s: seq<nat>, k: nat)
    ensures Take([x] + s, k + 1) == [x] + Take(s, k)
  {
  }

  /** `b` is the recorder's record of a refused row below `n`. */
  predicate Made(n: nat, rowFails: RowOracle, record: Recorder, b: BadRow) {
    b.index < n && rowFails(b.index).Some? && b == record(b.index, rowFails(b.index).value)
  }

  /** Every new record is the recorder's record of a refused row. */
  lemma {:induction false} FallbackRecordsMade(n: nat, rowFails: RowOracle, record: Recorder, i: nat, db: Db, bad: seq<BadRow>)
    requires Numbered(record)
    requires i <= n && |bad| < MaxBadRows
    ensures forall t :: |bad| <= t < |Fallback(n, rowFails, record, i, db, bad).bad| ==>
      Made(n, rowFails, record, Fallback(n, rowFails, record, i, db, bad).bad[t])
    decreases n - i
  {
    if i < n {
      if rowFails(i).None? {
        var r := Fallback(n, rowFails, record, i + 1, AfterRow(db, i), bad);
        assert Fallback(n, rowFails, record, i, db, bad) == r;
        FallbackRecordsMade(n, rowFails, record, i + 1, AfterRow(db, i), bad);
      } else {
        var r := Fallback(n, rowFails, record, i, db, bad);
        var bad' := bad + [record(i, rowFails(i).value)];
        assert Made(n, rowFails, record, bad'[|bad|]);
        if |bad'| < MaxBadRows {
          assert r == Fallback(n, rowFails, record, i + 1, Rollback(db), bad');
          FallbackRecordsMade(n, rowFails, record, i + 1, Rollback(db), bad');
          forall t | |bad| <= t < |r.bad| ensures Made(n, rowFails, record, r.bad[t]) {
            if t == |bad| {
              assert r.bad[..|bad'|][t] == r.bad[t];
            }
          }
        } else {
          assert r.bad == bad';
        }
      }
    }
  }

  /** Every record of the load's fallback describes the refused row it
      names. */
  lemma FallbackRecordsDescribe(rows: seq<seq<Value>>, rowFails: RowOracle, db: Db)
    requires Shaped(rows)
    ensures var r := Fallback(|rows|, rowFails, RecordOf(rows), 0, db, []);
      forall t :: 0 <= t < |r.bad| ==> Describes(rows, rowFails, r.bad[t])
  {
    var record := RecordOf(rows);
    var none: seq<BadRow> := [];
    var r := Fallback(|rows|, rowFails, record, 0, db, none);
    FallbackRecordsMade(|rows|, rowFails, record, 0, db, none);
    forall t | 0 <= t < |r.bad| ensures Describes(rows, rowFails, r.bad[t]) {
      var j := r.bad[t].index;
      assert Made(|rows|, rowFails, record, r.bad[t]);
      assert r.bad[t] == Record(rows, j, rowFails(j).value);
    }
  }

  // ---------------------------------------------------------------------
  // What the fallback leaves committed.

  predicate IsCommitRow(m: nat) {
    m % CommitEvery == 0
  }

  /** The first row at or after `j` whose success triggers a commit. */
  function CommitPoint(j: nat): (c: nat)
    ensures IsCommitRow(c) && j <= c
    ensures forall m :: j <= m < c ==> !IsCommitRow(m)
  {
    if j % CommitEvery == 0 then j
    else
      var c := j + (CommitEvery - j % CommitEvery);
      assert forall m :: j <= m < c ==> m / CommitEvery == j / CommitEvery;
      c
  }

  /** A successful row `j` of a scan that stopped after `t` rows is still
      committed at the end: the scan reached the next commit before any
      refusal rolled `j` back. */
  predicate Survives(rowFails: RowOracle, j: nat, t: nat) {
    CommitPoint(j) < t && forall m :: j <= m <= CommitPoint(j) ==> rowFails(m).None?
  }

  function SurvivesIn(rowFails: RowOracle, t: nat): nat -> bool {
    (j: nat) => Survives(rowFails, j, t)
  }

  /** The surviving rows among `lo`, ..., `t - 1`, in order. */
  function Kept(rowFails: RowOracle, lo: nat, t: nat): seq<nat> {
    RowsWhere(SurvivesIn(rowFails, t), lo, t)
  }

  lemma KeptAll(rowFails: RowOracle, p: nat, q: nat, t: nat)
    requires p <= q <= t
    requires forall j :: p <= j < q ==> Survives(rowFails, j, t)
    ensures Kept(rowFails, p, t) == Range(p, q) + Kept(rowFails, q, t)
  {
    RowsWhereAll(SurvivesIn(rowFails, t), p, q, t);
  }

  lemma KeptNone(rowFails: RowOracle, p: nat, q: nat, t: nat)
    requires p <= q
    requires forall j :: p <= j < q ==> !Survives(rowFails, j, t)
    ensures Kept(rowFails, p, t) == Kept(rowFails, q, t)
  {
    RowsWhereNone(SurvivesIn(rowFails, t), p, q, t);
  }

  /** The pending rows are the successful rows `p`, ..., `i - 1`, none of
      which triggered a commit. */
  predicate PendingRun(rowFails: RowOracle, db: Db, p: nat, i: nat) {
    p <= i && db.pending == Range(p, i)
    && forall m :: p <= m < i ==> rowFails(m).None? && !IsCommitRow(m)
  }

  /** Everything pending since `p` reaches its commit point at `i`. */
  lemma CommitReached(rowFails: RowOracle, db: Db, p: nat, i: nat, t: nat)
    requires PendingRun(rowFails, db, p, i) && i < t
    requires rowFails(i).None? && IsCommitRow(i)
    ensures forall j :: p <= j < i + 1 ==> Survives(rowFails, j, t)
  {
    forall j | p <= j < i + 1 ensures Survives(rowFails, j, t) {
      assert CommitPoint(j) == i;
    }
  }

  /** A refusal at `i` rolls back everything pending since `p`. */
  lemma RolledBack(rowFails: RowOracle, db: Db, p: nat, i: nat, t: nat)
    requires PendingRun(rowFails, db, p, i)
    requires rowFails(i).Some?
    ensures forall j :: p <= j < i + 1 ==> !Survives(rowFails, j, t)
  {
    forall j | p <= j < i + 1 ensures !Survives(rowFails, j, t) {
      assert i <= CommitPoint(j);
    }
  }

  /** A scan that ran to the end leaves what is pending uncommitted. */
  lemma NeverCommitted(rowFails: RowOracle, db: Db, p: nat, i: nat)
    requires PendingRun(rowFails, db, p, i)
    ensures forall j :: p <= j < i ==> !Survives(rowFails, j, i)
  {
    forall j | p <= j < i ensures !Survives(rowFails, j, i) {
      assert i <= CommitPoint(j);
    }
  }

  /** The fallback's committed log grows by exactly the surviving rows, in
      order. */
  lemma {:induction false} FallbackCommits(n: nat, rowFails: RowOracle, record: Recorder, i: nat, db: Db, bad: seq<BadRow>, p: nat)
    requires Numbered(record)
    requires i <= n && |bad| < MaxBadRows
    requires PendingRun(rowFails, db, p, i)
    ensures Fallback(n, rowFails, record, i, db, bad).db.committed
      == db.committed + Kept(rowFails, p, Fallback(n, rowFails, record, i, db, bad).scanned)
    decreases n - i, 2
  {
    if i == n {
      NeverCommitted(rowFails, db, p, i);
      KeptNone(rowFails, p, i, i);
      assert Kept(rowFails, i, i) == [];
    } else if rowFails(i).None? {
      FallbackCommitsAccepted(n, rowFails, record, i, db, bad, p);
    } else {
      FallbackCommitsRefused(n, rowFails, record, i, db, bad, p);
    }
  }

  /** The step of `FallbackCommits` at a row that goes in. */
  lemma {:induction false} FallbackCommitsAccepted(n: nat, rowFails: RowOracle, record: Recorder, i: nat, db: Db, bad: seq<BadRow>, p: nat)
    requires Numbered(record)
    requires i < n && |bad| < MaxBadRows
    requires PendingRun(rowFails, db, p, i) && rowFails(i).None?
    ensures Fallback(n, rowFails, record, i, db, bad).db.committed
      == db.committed + Kept(rowFails, p, Fallback(n, rowFails, record, i, db, bad).scanned)
    decreases n - i, 1
  {
    assert Fallback(n, rowFails, record, i, db, bad) == Fallback(n, rowFails, record, i + 1, AfterRow(db, i), bad);
    RangeSnoc(p, i);
    if !IsCommitRow(i) {
      FallbackCommitsPending(n, rowFails, record, i, db, bad, p);
    } else {
      FallbackCommitsAtCommit(n, rowFails, record, i, db, bad, p);
    }
  }

  /** A row that goes in without a commit joins the pending run. */
  lemma {:induction false} FallbackCommitsPending(n: nat, rowFails: RowOracle, record: Recorder, i: nat, db: Db, bad: seq<BadRow>, p: nat)
    requires Numbered(record)
    requires i < n && |bad| < MaxBadRows
    requires PendingRun(rowFails, db, p, i) && rowFails(i).None? && !IsCommitRow(i)
    requires Range(p, i) + [i] == Range(p, i + 1)
    ensures Fallback(n, rowFails, record, i + 1, AfterRow(db, i), bad).db.committed
      == db.committed + Kept(rowFails, p, Fallback(n, rowFails, record, i + 1, AfterRow(db, i), bad).scanned)
    decreases n - i, 0
  {
    var next := AfterRow(db, i);
    assert next == Db(db.committed, Range(p, i + 1));
    FallbackCommits(n, rowFails, record, i + 1, next, bad, p);
  }

  /** A row that goes in with a commit commits the whole pending run. */
  lemma {:induction false} FallbackCommitsAtCommit(n: nat, rowFails: RowOracle, record: Recorder, i: nat, db: Db, bad: seq<BadRow>, p: nat)
    requires Numbered(record)
    requires i < n && |bad| < MaxBadRows
    requires PendingRun(rowFails, db, p, i) && rowFails(i).None? && IsCommitRow(i)
    requires Range(p, i) + [i] == Range(p, i + 1)
    ensures Fallback(n, rowFails, record, i + 1, AfterRow(db, i), bad).db.committed
      == db.committed + Kept(rowFails, p, Fallback(n, rowFails, record, i + 1, AfterRow(db, i), bad).scanned)
    decreases n - i, 0
  {
    var next := AfterRow(db, i);
    var r := Fallback(n, rowFails, record, i + 1, next, bad);
    assert next == Db(db.committed + Range(p, i + 1), []);
    assert Range(i + 1, i + 1) == [];
    FallbackCommits(n, rowFails, record, i + 1, next, bad, i + 1);
    CommitReached(rowFails, db, p, i, r.scanned);
    KeptAll(rowFails, p, i + 1, r.scanned);
    assert r.db.committed == (db.committed + Range(p, i + 1)) + Kept(rowFails, i + 1, r.scanned);
  }

  /** The step of `FallbackCommits` at a refused row. */
  lemma {:induction false} FallbackCommitsRefused(n: nat, rowFails: RowOracle, record: Recorder, i: nat, db: Db, bad: seq<BadRow>, p: nat)
    requires Numbered(record)
    requires i < n && |bad| < MaxBadRows
    requires PendingRun(rowFails, db, p, i) && rowFails(i).Some?
    ensures Fallback(n, rowFails, record, i, db, bad).db.committed
      == db.committed + Kept(rowFails, p, Fallback(n, rowFails, record, i, db, bad).scanned)
    decreases n - i, 1
  {
    var r := Fallback(n, rowFails, record, i, db, bad);
    RolledBack(rowFails, db, p, i, r.scanned);
    KeptNone(rowFails, p, i + 1, r.scanned);
    var bad' := bad + [record(i, rowFails(i).value)];
    if |bad'| < MaxBadRows {
      assert r == Fallback(n, rowFails, record, i + 1, Rollback(db), bad');
      FallbackCommitsRestart(n, rowFails, record, i, db, bad');
    } else {
      assert r == Scan(Rollback(db), bad', i + 1);
      assert Kept(rowFails, i + 1, i + 1) == [];
    }
  }

  /** After a refusal the scan goes on with nothing pending. */
  lemma {:induction false} FallbackCommitsRestart(n: nat, rowFails: RowOracle, record: Recorder, i: nat, db: Db, bad: seq<BadRow>)
    requires Numbered(record)
    requires i < n && |bad| < MaxBadRows
    ensures Fallback(n, rowFails, record, i + 1, Rollback(db), bad).db.committed
      == db.committed + Kept(rowFails, i + 1, Fallback(n, rowFails, record, i + 1, Rollback(db), bad).scanned)
    decreases n - i, 0
  {
    assert Rollback(db).pending == Range(i + 1, i + 1);
    FallbackCommits(n, rowFails, record, i + 1, Rollback(db), bad, i + 1);
  }

  // ---------------------------------------------------------------------
  // The fast path and the whole load.

  /** Where the fast path stopped: `failed` names the first refused chunk. */
  datatype FastResult = FastResult(db: Db, failed: Option<(nat, DbError)>)

  /** Chunks `k`, `k + 1`, ... each inserted and committed, until the first
      one the server refuses. */
  function FastPath(chunks: seq<seq<nat>>, k: nat, chunkFails: ChunkOracle, db: Db): (r: FastResult)
    requires k <= |chunks|
    ensures r.failed.None? <==> forall m :: k <= m < |chunks| ==> chunkFails(m).None?
    ensures r.failed.Some? ==> var (s, e) := r.failed.value;
      k <= s < |chunks| && chunkFails(s) == Some(e)
      && forall m :: k <= m < s ==> chunkFails(m).None?
    ensures db.pending == [] ==> r.db.pending == []
    decreases |chunks| - k
  {
    if k == |chunks| then FastResult(db, None)
    else match chunkFails(k)
      case Some(e) => FastResult(db, Some((k, e)))
      case None => FastPath(chunks, k + 1, chunkFails, Commit(Insert(db, chunks[k])))
  }

  /** The chunk before which the fast path stopped. */
  function Stop(chunks: seq<seq<nat>>, f: FastResult): nat {
    if f.failed.Some? then f.failed.value.0 else |chunks|
  }

  /** Every chunk before the stop is committed, in order, and nothing is
      left pending. */
  lemma {:induction false} FastPathCommits(chunks: seq<seq<nat>>, k: nat, chunkFails: ChunkOracle, db: Db)
    requires k <= |chunks| && db.pending == []
    ensures k <= Stop(chunks, FastPath(chunks, k, chunkFails, db)) <= |chunks|
    ensures FastPath(chunks, k, chunkFails, db).db
      == Db(db.committed + Flatten(chunks[k..Stop(chunks, FastPath(chunks, k, chunkFails, db))]), [])
    decreases |chunks| - k
  {
    var r := FastPath(chunks, k, chunkFails, db);
    var stop := Stop(chunks, r);
    if k == |chunks| || chunkFails(k).Some? {
      assert chunks[k..stop] == [];
      assert db == Db(db.committed + [], []);
    } else {
      var next := Commit(Insert(db, chunks[k]));
      assert next == Db(db.committed + chunks[k], []);
      FastPathCommits(chunks, k + 1, chunkFails, next);
      assert chunks[k..stop] == [chunks[k]] + chunks[k + 1..stop];
    }
  }

  datatype BatchCause =
    | StepZero                              // `range` refused a zero step
    | ChunkFailed(chunk: nat, error: DbError) // the first refused chunk

  datatype InsertError =
    | BatchFailed(cause: BatchCause)   // the fallback found no bad row
    | InsertFailed(first: BadRow)      // the first bad row the fallback found

  /** The end state of a load: the database, how the load ended, and, when
      it fell back, the bad rows and how many rows the fallback tried. */
  datatype LoadReport = LoadReport(db: Db, outcome: Outcome<InsertError>, bad: seq<BadRow>, scanned: nat)

  /** The fallback from row 0 after a batch failure, and the error it raises. */
  function Recover(rows: seq<seq<Value>>, rowFails: RowOracle, db: Db, cause: BatchCause): (r: LoadReport)
    requires Shaped(rows)
    ensures r.outcome.Fail?
    ensures r.bad == [] ==> r.outcome.error == BatchFailed(cause)
    ensures r.bad != [] ==> r.outcome.error == InsertFailed(r.bad[0])
    ensures |r.bad| <= MaxBadRows
    ensures |r.bad| < MaxBadRows ==> r.scanned == |rows|
    ensures |r.bad| == MaxBadRows ==> r.scanned == r.bad[MaxBadRows - 1].index + 1
  {
    var s := Fallback(|rows|, rowFails, RecordOf(rows), 0, db, []);
    var err := if s.bad == [] then BatchFailed(cause) else InsertFailed(s.bad[0]);
    LoadReport(s.db, Fail(err), s.bad, s.scanned)
  }

  /** The whole insert phase against a staging table with nothing pending. */
  function LoadRows(rows: seq<seq<Value>>, batchSize: int, chunkFails: ChunkOracle, rowFails: RowOracle): (r: LoadReport)
    requires Shaped(rows)
    ensures r.outcome.Pass? ==> r.bad == [] && r.db.pending == []
    ensures r.outcome.Fail? ==> (
      && |r.bad| <= MaxBadRows
      && (|r.bad| < MaxBadRows ==> r.scanned == |rows|)
      && (|r.bad| == MaxBadRows ==> r.scanned == r.bad[MaxBadRows - 1].index + 1))
  {
    var empty := Db([], []);
    match ChunkedIterable(Range(0, |rows|), batchSize)
    case Failure(_) => Recover(rows, rowFails, Rollback(empty), StepZero)
    case Success(chunks) =>
      var f := FastPath(chunks, 0, chunkFails, empty);
      match f.failed
      case None => LoadReport(f.db, Pass, [], 0)
      case Some((k, e)) => Recover(rows, rowFails, Rollback(f.db), ChunkFailed(k, e))
  }

  /** The fallback restarts from row 0. Its records are the first refused
      rows in scan order, each describing its row, and it stops right after
      the tenth; with fewer it tries every row. */
  lemma RecoverRecords(rows: seq<seq<Value>>, rowFails: RowOracle, db: Db, cause: BatchCause)
    requires Shaped(rows)
    ensures var r := Recover(rows, rowFails, db, cause);
      && Indices(r.bad) == Take(FailingFrom(rowFails, 0, |rows|), MaxBadRows)
      && Increasing(Indices(r.bad))
      && (forall t :: 0 <= t < |r.bad| ==> Describes(rows, rowFails, r.bad[t]))
      && (|r.bad| < MaxBadRows ==> r.scanned == |rows|)
      && (|r.bad| == MaxBadRows ==> r.scanned == r.bad[MaxBadRows - 1].index + 1)
  {
    var failing := FailingFrom(rowFails, 0, |rows|);
    FallbackRecordsFailing(|rows|, rowFails, RecordOf(rows), 0, db, []);
    assert Indices([]) + Take(failing, MaxBadRows) == Take(failing, MaxBadRows);
    FallbackRecordsDescribe(rows, rowFails, db);
    RowsWhereIncreasing(RefusedBy(rowFails), 0, |rows|);
  }

  /** The fallback always ends in an error: the first refused row when some
      row is refused, the batch failure otherwise. */
  lemma RecoverError(rows: seq<seq<Value>>, rowFails: RowOracle, db: Db, cause: BatchCause)
    requires Shaped(rows)
    ensures var r := Recover(rows, rowFails, db, cause);
      && r.outcome.Fail?
      && (r.outcome.error.InsertFailed? <==> exists j :: 0 <= j < |rows| && rowFails(j).Some?)
      && (r.outcome.error.InsertFailed? ==> FirstRefused(rowFails, r.outcome.error.first.index, |rows|))
      && (r.outcome.error.BatchFailed? ==> r.outcome.error.cause == cause)
  {
    var r := Recover(rows, rowFails, db, cause);
    var failing := FailingFrom(rowFails, 0, |rows|);
    FallbackRecordsFailing(|rows|, rowFails, RecordOf(rows), 0, db, []);
    assert Indices(r.bad) == Indices([]) + Take(failing, MaxBadRows);
    assert r.bad != [] <==> failing != [];
    if failing != [] {
      FailingFromFirst(rowFails, |rows|);
      assert Indices(r.bad)[0] == failing[0];
    }
    SomeRefused(rowFails, |rows|);
  }

  lemma SomeRefused(rowFails: RowOracle, n: nat)
    ensures FailingFrom(rowFails, 0, n) != [] <==> exists j :: 0 <= j < n && rowFails(j).Some?
  {
    RowsWhereMembers(RefusedBy(rowFails), 0, n);
    if exists j :: 0 <= j < n && rowFails(j).Some? {
      var j :| 0 <= j < n && rowFails(j).Some?;
      assert j in FailingFrom(rowFails, 0, n);
    }
    var failing := FailingFrom(rowFails, 0, n);
    if failing != [] {
      assert failing[0] in failing;
    }
  }

  /** Row `j` is the first refused row among the first `n`. */
  predicate FirstRefused(rowFails: RowOracle, j: nat, n: nat) {
    j < n && rowFails(j).Some? && forall m :: 0 <= m < j ==> rowFails(m).None?
  }

  lemma FailingFromFirst(rowFails: RowOracle, n: nat)
    requires FailingFrom(rowFails, 0, n) != []
    ensures FirstRefused(rowFails, FailingFrom(rowFails, 0, n)[0], n)
  {
    var keep := RefusedBy(rowFails);
    RowsWhereFirst(keep, 0, n);
    var j := FailingFrom(rowFails, 0, n)[0];
    forall m | 0 <= m < j ensures rowFails(m).None? {
      assert !keep(m);
    }
  }

  /** Started on a clean transaction, the fallback commits exactly the
      surviving rows, in order. */
  lemma RecoverCommits(rows: seq<seq<Value>>, rowFails: RowOracle, db: Db, cause: BatchCause)
    requires Shaped(rows) && db.pending == []
    ensures var r := Recover(rows, rowFails, db, cause);
      r.db.committed == db.committed + Kept(rowFails, 0, r.scanned)
  {
    FallbackCommits(|rows|, rowFails, RecordOf(rows), 0, db, [], 0);
  }

  /** The load reports success exactly when the step is negative (no chunk
      at all) or positive with every chunk accepted. */
  lemma LoadOutcome(rows: seq<seq<Value>>, batchSize: int, chunkFails: ChunkOracle, rowFails: RowOracle)
    requires Shaped(rows)
    ensures LoadRows(rows, batchSize, chunkFails, rowFails).outcome.Pass? <==>
      batchSize < 0
      || (batchSize > 0 && forall m :: 0 <= m < |Chunks(Range(0, |rows|), batchSize)| ==> chunkFails(m).None?)
  {
  }

  /** With a positive step and every chunk accepted, every row is committed
      once, in order. */
  lemma LoadAllChunks(rows: seq<seq<Value>>, batchSize: int, chunkFails: ChunkOracle, rowFails: RowOracle)
    requires Shaped(rows) && batchSize > 0
    requires forall m :: 0 <= m < |Chunks(Range(0, |rows|), batchSize)| ==> chunkFails(m).None?
    ensures LoadRows(rows, batchSize, chunkFails, rowFails) == LoadReport(Db(Range(0, |rows|), []), Pass, [], 0)
  {
    var chunks := Chunks(Range(0, |rows|), batchSize);
    ChunksFlatten(Range(0, |rows|), batchSize);
    FastPathCommits(chunks, 0, chunkFails, Db([], []));
    assert chunks[0..|chunks|] == chunks;
    assert [] + Range(0, |rows|) == Range(0, |rows|);
  }

  /** A negative step yields no chunk: nothing is inserted, yet the load
      reports success. */
  lemma LoadNegativeStep(rows: seq<seq<Value>>, batchSize: int, chunkFails: ChunkOracle, rowFails: RowOracle)
    requires Shaped(rows) && batchSize < 0
    ensures LoadRows(rows, batchSize, chunkFails, rowFails) == LoadReport(Db([], []), Pass, [], 0)
  {
  }

  /** A zero step fails before any chunk: the fallback runs on its own. */
  lemma LoadZeroStep(rows: seq<seq<Value>>, chunkFails: ChunkOracle, rowFails: RowOracle)
    requires Shaped(rows)
    ensures var r := LoadRows(rows, 0, chunkFails, rowFails);
      r.outcome.Fail? && r.db.committed == Kept(rowFails, 0, r.scanned)
      && (r.outcome.error.BatchFailed? ==> r.outcome.error.cause == StepZero)
  {
    var r := LoadRows(rows, 0, chunkFails, rowFails);
    RecoverError(rows, rowFails, Db([], []), StepZero);
    RecoverCommits(rows, rowFails, Db([], []), StepZero);
    assert [] + Kept(rowFails, 0, r.scanned) == Kept(rowFails, 0, r.scanned);
  }

  /** Chunk `s` is the first refused chunk of a positive step. */
  predicate FirstRefusedChunk(n: nat, batchSize: nat, chunkFails: ChunkOracle, s: nat)
    requires batchSize > 0
  {
    s < |Chunks(Range(0, n), batchSize)| && chunkFails(s).Some?
    && forall m :: 0 <= m < s ==> chunkFails(m).None?
  }

  /** After the first refused chunk `s` the load keeps the chunks before it
      committed, falls back from row 0, and ends in an error naming chunk
      `s` unless it found a bad row. */
  lemma LoadAfterChunkFailure(rows: seq<seq<Value>>, batchSize: int, chunkFails: ChunkOracle, rowFails: RowOracle, s: nat)
    requires Shaped(rows) && batchSize > 0
    requires FirstRefusedChunk(|rows|, batchSize, chunkFails, s)
    ensures var r := LoadRows(rows, batchSize, chunkFails, rowFails);
      && r.outcome.Fail?
      && (r.outcome.error.BatchFailed? ==> r.outcome.error.cause == ChunkFailed(s, chunkFails(s).value))
      && Offset(s, batchSize) < |rows|
      && r.db.committed == Range(0, Offset(s, batchSize)) + Kept(rowFails, 0, r.scanned)
  {
    var ids := Range(0, |rows|);
    var chunks := Chunks(ids, batchSize);
    FastPathStops(chunks, chunkFails, s);
    ChunksPrefix(ids, batchSize, s);
    var o := Offset(s, batchSize);
    assert ids[..o] == Range(0, o);
    var db := Db(Range(0, o), []);
    var cause := ChunkFailed(s, chunkFails(s).value);
    assert LoadRows(rows, batchSize, chunkFails, rowFails) == Recover(rows, rowFails, db, cause);
    RecoverError(rows, rowFails, db, cause);
    RecoverCommits(rows, rowFails, db, cause);
  }

  /** With chunk `s` the first refused one, the fast path stops there with
      the chunks before it committed and nothing pending. */
  lemma FastPathStops(chunks: seq<seq<nat>>, chunkFails: ChunkOracle, s: nat)
    requires s < |chunks| && chunkFails(s).Some?
    requires forall m :: 0 <= m < s ==> chunkFails(m).None?
    ensures FastPath(chunks, 0, chunkFails, Db([], []))
      == FastResult(Db(Flatten(chunks[..s]), []), Some((s, chunkFails(s).value)))
  {
    var f := FastPath(chunks, 0, chunkFails, Db([], []));
    assert f.failed.Some?;
    assert !(f.failed.value.0 < s) && !(s < f.failed.value.0);
    FastPathCommits(chunks, 0, chunkFails, Db([], []));
    assert chunks[0..s] == chunks[..s];
    assert [] + Flatten(chunks[..s]) == Flatten(chunks[..s]);
  }

  /** Because the fallback restarts from row 0, a row the fast path already
      committed is committed a second time: with a refused chunk after the
      first one and an acceptable row 0, row 0 appears twice. */
  lemma DuplicateCommit(rows: seq<seq<Value>>, batchSize: int, chunkFails: ChunkOracle, rowFails: RowOracle, s: nat)
    requires Shaped(rows) && batchSize > 0
    requires FirstRefusedChunk(|rows|, batchSize, chunkFails, s) && s > 0
    requires rowFails(0).None?
    ensures var c := LoadRows(rows, batchSize, chunkFails, rowFails).db.committed;
      0 < Offset(s, batchSize) < |c| && c[0] == 0 && c[Offset(s, batchSize)] == 0
  {
    var r := LoadRows(rows, batchSize, chunkFails, rowFails);
    LoadAfterChunkFailure(rows, batchSize, chunkFails, rowFails, s);
    OffsetIsProduct(s, batchSize);
    assert r.scanned >= 1;
    assert Survives(rowFails, 0, r.scanned);
    assert Kept(rowFails, 0, r.scanned)[0] == 0;
  }

  /** Whatever made the load fall back, its records are the first refused
      rows in scan order, each describing its row, and the error names the
      first refused row when there is one. */
  lemma LoadRecords(rows: seq<seq<Value>>, batchSize: int, chunkFails: ChunkOracle, rowFails: RowOracle)
    requires Shaped(rows)
    requires LoadRows(rows, batchSize, chunkFails, rowFails).outcome.Fail?
    ensures var r := LoadRows(rows, batchSize, chunkFails, rowFails);
      && Indices(r.bad) == Take(FailingFrom(rowFails, 0, |rows|), MaxBadRows)
      && Increasing(Indices(r.bad))
      && (forall t :: 0 <= t < |r.bad| ==> Describes(rows, rowFails, r.bad[t]))
      && (r.outcome.error.InsertFailed? <==> exists j :: 0 <= j < |rows| && rowFails(j).Some?)
      && (r.outcome.error.InsertFailed? ==> FirstRefused(rowFails, r.outcome.error.first.index, |rows|))
  {
    var r := LoadRows(rows, batchSize, chunkFails, rowFails);
    var empty := Db([], []);
    match ChunkedIterable(Range(0, |rows|), batchSize)
    case Failure(_) =>
      assert r == Recover(rows, rowFails, Rollback(empty), StepZero);
      RecoverRecords(rows, rowFails, Rollback(empty), StepZero);
      RecoverError(rows, rowFails, Rollback(empty), StepZero);
    case Success(chunks) =>
      var f := FastPath(chunks, 0, chunkFails, empty);
      var cause := ChunkFailed(f.failed.value.0, f.failed.value.1);
      assert r == Recover(rows, rowFails, Rollback(f.db), cause);
      RecoverRecords(rows, rowFails, Rollback(f.db), cause);
      RecoverError(rows, rowFails, Rollback(f.db), cause);
  }

  /** Five rows in chunks of two; the second chunk is refused, and so is
      row 3 on its own. Chunk 0 (rows 0 and 1) stays committed, the
      fallback commits row 0 again at its first commit point, rolls back
      rows 1 and 2 at the refusal of row 3, and leaves row 4 pending; the
      error names row 3. */
  lemma ScenarioChunkThenRow(rows: seq<seq<Value>>, e1: DbError, e3: DbError)
    requires Shaped(rows) && |rows| == 5
    ensures var r := LoadRows(rows, 2, m => if m == 1 then Some(e1) else None,
                                       j => if j == 3 then Some(e3) else None);
      && r.db.committed == [0, 1, 0]
      && Indices(r.bad) == [3] && r.scanned == 5
      && r.outcome == Fail(InsertFailed(r.bad[0]))
  {
    var chunkFails: ChunkOracle := m => if m == 1 then Some(e1) else None;
    var rowFails: RowOracle := j => if j == 3 then Some(e3) else None;
    ScenarioCommits(rows, chunkFails, rowFails);
    ScenarioRecords(rows, chunkFails, rowFails);
  }

  /** The committed log of the scenario: chunk 0, then row 0 again. */
  lemma ScenarioCommits(rows: seq<seq<Value>>, chunkFails: ChunkOracle, rowFails: RowOracle)
    requires Shaped(rows) && |rows| == 5
    requires forall m :: chunkFails(m).Some? <==> m == 1
    requires forall j :: rowFails(j).Some? <==> j == 3
    ensures LoadRows(rows, 2, chunkFails, rowFails).db.committed == [0, 1, 0]
    ensures LoadRows(rows, 2, chunkFails, rowFails).scanned == 5
  {
    SecondOfThreeChunks(chunkFails);
    LoadAfterChunkFailure(rows, 2, chunkFails, rowFails, 1);
    LoadRecords(rows, 2, chunkFails, rowFails);
    OnlyRowThreeFails(rowFails);
    OnlyRowThreeKept(rowFails);
    FirstChunkOfTwo();
  }

  /** The records and the error of the scenario: row 3 alone. */
  lemma ScenarioRecords(rows: seq<seq<Value>>, chunkFails: ChunkOracle, rowFails: RowOracle)
    requires Shaped(rows) && |rows| == 5
    requires forall m :: chunkFails(m).Some? <==> m == 1
    requires forall j :: rowFails(j).Some? <==> j == 3
    ensures var r := LoadRows(rows, 2, chunkFails, rowFails);
      Indices(r.bad) == [3] && r.outcome == Fail(InsertFailed(r.bad[0]))
  {
    SecondOfThreeChunks(chunkFails);
    LoadAfterChunkFailure(rows, 2, chunkFails, rowFails, 1);
    LoadRecords(rows, 2, chunkFails, rowFails);
    OnlyRowThreeFails(rowFails);
    assert rowFails(3).Some?;
  }

  lemma FirstChunkOfTwo()
    ensures Range(0, Offset(1, 2)) == [0, 1]
  {
    assert Offset(1, 2) == 2;
  }

  /** Five rows in chunks of two make three chunks, so a refusal of chunk 1
      alone makes it the first refused chunk. */
  lemma SecondOfThreeChunks(chunkFails: ChunkOracle)
    requires forall m :: chunkFails(m).Some? <==> m == 1
    ensures FirstRefusedChunk(5, 2, chunkFails, 1)
  {
    assert Range(0, 5) == [0, 1, 2, 3, 4];
    ChunkCount(Range(0, 5), 2);
    assert Offset(3, 2) == 6;
  }

  lemma OnlyRowThreeFails(rowFails: RowOracle)
    requires forall j :: rowFails(j).Some? <==> j == 3
    ensures FailingFrom(rowFails, 0, 5) == [3]
  {
  }

  /** When only row 3 of five is refused, only row 0 reaches a commit. */
  lemma OnlyRowThreeKept(rowFails: RowOracle)
    requires forall j :: rowFails(j).Some? <==> j == 3
    ensures Kept(rowFails, 0, 5) == [0]
  {
    assert Survives(rowFails, 0, 5);
    assert forall j :: 1 <= j < 5 ==> CommitPoint(j) == 1000;
    KeptNone(rowFails, 1, 5, 5);
  }
}
