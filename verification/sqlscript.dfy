/** The `GO`-separated batch splitting of `run_sql_file` (etl.py:84-101): a SQL
    script is cut into batches at every line that reads `GO` once stripped
    and upper-cased. */
module SqlScript {
  import opened Text
  import opened Seqs

  /** A separator line: trimmed and upper-cased, it reads `GO`. */
  predicate IsSeparator(line: string) {
    AsciiUpper(Strip(line)) == "GO"
  }

  /** The separator test accepts the four spellings of `GO`, whatever
      whitespace surrounds them, and nothing else. */
  lemma SeparatorSpellings(line: string)
    ensures IsSeparator(line) <==> Strip(line) in {"GO", "Go", "gO", "go"}
  {
    UpperIsGo(Strip(line));
  }

  /** The texts that upper-case to `GO`. */
  lemma UpperIsGo(t: string)
    ensures AsciiUpper(t) == "GO" <==> t in {"GO", "Go", "gO", "go"}
  {
    if |t| == 2 {
      assert AsciiUpper(t) == [UpperChar(t[0]), UpperChar(t[1])] by {
        assert AsciiUpper(t[1..]) == [UpperChar(t[1])] + AsciiUpper(t[2..]);
      }
      assert t == [t[0], t[1]];
    }
  }

  /** A line test deciding where batches end. The splitter is stated for any
      test, so that its proofs never look inside `IsSeparator`. */
  type LineTest = string -> bool

  /** The lines that do not pass `sep`, in order. */
  function Kept(sep: LineTest, lines: seq<string>): seq<string> {
    if lines == [] then []
    else (if sep(lines[0]) then [] else [lines[0]]) + Kept(sep, lines[1..])
  }

  /** The lines of a script that are not separators, in order. */
  function NonSeparators(lines: seq<string>): seq<string> {
    Kept(IsSeparator, lines)
  }

  /** The loop state: finished batches and the lines of the open one
      (`batches` and `current` in the source). */
  datatype SplitState = SplitState(batches: seq<seq<string>>, current: seq<string>)

  const Start := SplitState([], [])

  /** One iteration of the loop over `text.splitlines()`. */
  function Step(sep: LineTest, st: SplitState, line: string): SplitState {
    if sep(line) then
      if st.current != [] then SplitState(st.batches + [st.current], []) else st
    else
      SplitState(st.batches, st.current + [line])
  }

  /** The loop run over `lines` from state `st`. */
  function Run(sep: LineTest, st: SplitState, lines: seq<string>): SplitState
    decreases |lines|
  {
    if lines == [] then st else Run(sep, Step(sep, st, lines[0]), lines[1..])
  }

  /** After the loop: a non-empty open batch is closed. */
  function Finish(st: SplitState): seq<seq<string>> {
    if st.current != [] then st.batches + [st.current] else st.batches
  }

  /** No finished batch is empty. */
  predicate NoEmptyBatch(bs: seq<seq<string>>) {
    forall k :: 0 <= k < |bs| ==> bs[k] != []
  }

  lemma {:induction false} RunAppend(sep: LineTest, st: SplitState, a: seq<string>, b: seq<string>)
    ensures Run(sep, st, a + b) == Run(sep, Run(sep, st, a), b)
    decreases |a|
  {
    if a == [] {
      assert a + b == b;
    } else {
      assert (a + b)[0] == a[0];
      assert (a + b)[1..] == a[1..] + b;
      RunAppend(sep, Step(sep, st, a[0]), a[1..], b);
    }
  }

  /** The loop after one more line is one more step. */
  lemma RunSnoc(sep: LineTest, lines: seq<string>, i: nat)
    requires i < |lines|
    ensures Run(sep, Start, lines[..i + 1]) == Step(sep, Run(sep, Start, lines[..i]), lines[i])
  {
    RunAppend(sep, Start, lines[..i], [lines[i]]);
    assert lines[..i + 1] == lines[..i] + [lines[i]];
    assert [lines[i]][1..] == [];
  }

  lemma {:induction false} KeptAppend(sep: LineTest, a: seq<string>, b: seq<string>)
    ensures Kept(sep, a + b) == Kept(sep, a) + Kept(sep, b)
  {
    if a == [] {
      assert a + b == b;
    } else {
      assert (a + b)[0] == a[0];
      assert (a + b)[1..] == a[1..] + b;
      KeptAppend(sep, a[1..], b);
    }
  }

  /** One step keeps the line unless it is a separator, and never closes an
      empty batch. */
  lemma StepKeepsLine(sep: LineTest, st: SplitState, line: string)
    requires NoEmptyBatch(st.batches)
    ensures NoEmptyBatch(Step(sep, st, line).batches)
    ensures Flatten(Step(sep, st, line).batches) + Step(sep, st, line).current
         == Flatten(st.batches) + st.current + Kept(sep, [line])
  {
    assert [line][1..] == [];
    if sep(line) && st.current != [] {
      FlattenAppend(st.batches, [st.current]);
      assert Flatten([st.current]) == st.current + Flatten([]);
    }
  }

  /** The loop keeps every non-separator line, in order, and never closes an
      empty batch. */
  lemma {:induction false} RunKeepsLines(sep: LineTest, st: SplitState, lines: seq<string>)
    requires NoEmptyBatch(st.batches)
    ensures NoEmptyBatch(Run(sep, st, lines).batches)
    ensures Flatten(Run(sep, st, lines).batches) + Run(sep, st, lines).current
         == Flatten(st.batches) + st.current + Kept(sep, lines)
    decreases |lines|
  {
    if lines == [] {
      assert Kept(sep, lines) == [];
    } else {
      var st' := Step(sep, st, lines[0]);
      StepKeepsLine(sep, st, lines[0]);
      RunKeepsLines(sep, st', lines[1..]);
      KeptAppend(sep, [lines[0]], lines[1..]);
      assert [lines[0]] + lines[1..] == lines;
      assert Run(sep, st, lines) == Run(sep, st', lines[1..]);
    }
  }

  /** The batches `sep` cuts `lines` into. Concatenated they are exactly the
      lines `sep` rejects, in order, and none is empty. */
  function Split(sep: LineTest, lines: seq<string>): (r: seq<seq<string>>)
    ensures Flatten(r) == Kept(sep, lines)
    ensures NoEmptyBatch(r)
  {
    var st := Run(sep, Start, lines);
    RunKeepsLines(sep, Start, lines);
    assert Flatten<string>([]) == [];
    assert Flatten(st.batches) + st.current == Kept(sep, lines);
    if st.current != [] then
      FlattenAppend(st.batches, [st.current]);
      assert Flatten([st.current]) == st.current + Flatten([]);
      Finish(st)
    else
      assert Flatten(st.batches) + st.current == Flatten(st.batches);
      Finish(st)
  }

  /** The batches of a script. Concatenated they are exactly the script's
      non-separator lines in their original order, and none is empty, however
      many separators follow one another. */
  function SplitBatches(lines: seq<string>): (r: seq<seq<string>>)
    ensures Flatten(r) == NonSeparators(lines)
    ensures NoEmptyBatch(r)
  {
    Split(IsSeparator, lines)
  }

  /** The loop of `run_sql_file` as written, one line at a time. */
  method SplitSqlBatches(lines: seq<string>) returns (batches: seq<seq<string>>)
    ensures batches == SplitBatches(lines)
    ensures Flatten(batches) == NonSeparators(lines)
  {
    batches := [];
    var current: seq<string> := [];
    var i := 0;
    while i < |lines|
      invariant 0 <= i <= |lines|
      invariant SplitState(batches, current) == Run(IsSeparator, Start, lines[..i])
    {
      RunSnoc(IsSeparator, lines, i);
      var line := lines[i];
      if IsSeparator(line) {
        if current != [] {
          batches := batches + [current];
          current := [];
        }
      } else {
        current := current + [line];
      }
      i := i + 1;
    }
    assert lines[..i] == lines;
    if current != [] {
      batches := batches + [current];
    }
  }

  /** A script written as batches, each followed by one `GO` line. */
  function Script(bs: seq<seq<string>>): seq<string> {
    if bs == [] then [] else bs[0] + ["GO"] + Script(bs[1..])
  }

  predicate NoSeparatorIn(sep: LineTest, b: seq<string>) {
    forall i :: 0 <= i < |b| ==> !sep(b[i])
  }

  lemma {:induction false} RunOverBatch(sep: LineTest, acc: seq<seq<string>>, cur: seq<string>, b: seq<string>)
    requires NoSeparatorIn(sep, b)
    ensures Run(sep, SplitState(acc, cur), b) == SplitState(acc, cur + b)
    decreases |b|
  {
    if b == [] {
      assert cur + b == cur;
    } else {
      assert cur + b == (cur + [b[0]]) + b[1..];
      RunOverBatch(sep, acc, cur + [b[0]], b[1..]);
    }
  }

  lemma GoIsSeparator()
    ensures IsSeparator("GO")
  {
    StripGo();
    UpperGo();
  }

  lemma StripGo()
    ensures Strip("GO") == "GO"
  {
    assert Trimmed("GO");
    StripTrimmed("GO");
  }

  lemma UpperGo()
    ensures AsciiUpper("GO") == "GO"
  {
    assert AsciiUpper("GO") == [UpperChar('G')] + AsciiUpper("O");
  }

  lemma CloseBatch(sep: LineTest, acc: seq<seq<string>>, b: seq<string>)
    requires b != [] && sep("GO")
    ensures Run(sep, SplitState(acc, b), ["GO"]) == SplitState(acc + [b], [])
  {
    assert ["GO"][1..] == [];
  }

  /** Every batch is non-empty and free of separator lines. */
  predicate Writable(sep: LineTest, bs: seq<seq<string>>) {
    forall k :: 0 <= k < |bs| ==> bs[k] != [] && NoSeparatorIn(sep, bs[k])
  }

  lemma {:induction false} RunOverScript(sep: LineTest, acc: seq<seq<string>>, bs: seq<seq<string>>)
    requires sep("GO") && Writable(sep, bs)
    ensures Run(sep, SplitState(acc, []), Script(bs)) == SplitState(acc + bs, [])
    decreases |bs|
  {
    if bs == [] {
      assert acc + bs == acc;
    } else {
      var b := bs[0];
      var tail := bs[1..];
      var rest := Script(tail);
      assert Script(bs) == b + (["GO"] + rest);
      assert Writable(sep, tail) by {
        assert forall k :: 0 <= k < |tail| ==> tail[k] == bs[k + 1];
      }
      RunAppend(sep, SplitState(acc, []), b, ["GO"] + rest);
      RunOverBatch(sep, acc, [], b);
      assert [] + b == b;
      RunAppend(sep, SplitState(acc, b), ["GO"], rest);
      CloseBatch(sep, acc, b);
      RunOverScript(sep, acc + [b], tail);
      assert acc + [b] + tail == acc + bs;
    }
  }

  /** Splitting a script written from non-empty batches free of lines `sep`
      accepts, each closed by a `GO` line `sep` accepts, gives the batches
      back. */
  lemma SplitScript(sep: LineTest, bs: seq<seq<string>>)
    requires sep("GO") && Writable(sep, bs)
    ensures Split(sep, Script(bs)) == bs
  {
    RunOverScript(sep, [], bs);
    assert [] + bs == bs;
  }

  /** Splitting a script written from non-empty, separator-free batches gives
      those batches back. */
  lemma SplitScriptRoundTrip(bs: seq<seq<string>>)
    requires Writable(IsSeparator, bs)
    ensures SplitBatches(Script(bs)) == bs
  {
    GoIsSeparator();
    SplitScript(IsSeparator, bs);
  }

  /** The non-empty texts `text` gives the batches, in batch order. */
  function Texts(text: seq<string> -> string, batches: seq<seq<string>>): (r: seq<string>)
    ensures |r| <= |batches|
    ensures forall k :: 0 <= k < |r| ==> r[k] != []
  {
    if batches == [] then []
    else (if text(batches[0]) != [] then [text(batches[0])] else []) + Texts(text, batches[1..])
  }

  lemma {:induction false} TextsAppend(text: seq<string> -> string, a: seq<seq<string>>, b: seq<seq<string>>)
    ensures Texts(text, a + b) == Texts(text, a) + Texts(text, b)
  {
    if a == [] {
      assert a + b == b;
    } else {
      assert (a + b)[0] == a[0];
      assert (a + b)[1..] == a[1..] + b;
      TextsAppend(text, a[1..], b);
    }
  }

  lemma {:induction false} TextsFrom(text: seq<string> -> string, batches: seq<seq<string>>)
    ensures forall j :: 0 <= j < |batches| && text(batches[j]) != [] ==> text(batches[j]) in Texts(text, batches)
    ensures forall x :: x in Texts(text, batches) ==> exists j :: 0 <= j < |batches| && x == text(batches[j])
  {
    if batches != [] {
      var tail := batches[1..];
      TextsFrom(text, tail);
      assert forall j :: 0 < j < |batches| ==> batches[j] == tail[j - 1];
      forall x | x in Texts(text, batches)
        ensures exists j :: 0 <= j < |batches| && x == text(batches[j])
      {
        if x !in Texts(text, tail) {
          assert x == text(batches[0]);
        } else {
          var j :| 0 <= j < |tail| && x == text(tail[j]);
          assert x == text(batches[j + 1]);
        }
      }
    }
  }

  /** The text `run_sql_file` executes for one batch: its lines joined and
      stripped. */
  function StatementOf(batch: seq<string>): (s: string)
    ensures Trimmed(s)
  {
    Strip(Join(batch, "\n"))
  }

  /** `batch.strip()` for every batch, skipping those that strip to nothing:
      the statements `run_sql_file` hands to the cursor, in order. */
  function Statements(batches: seq<seq<string>>): (r: seq<string>)
    ensures |r| <= |batches|
    ensures forall k :: 0 <= k < |r| ==> r[k] != [] && Trimmed(r[k])
  {
    var r := Texts(StatementOf, batches);
    TextsFrom(StatementOf, batches);
    assert forall k :: 0 <= k < |r| ==> Trimmed(r[k]) by {
      forall k | 0 <= k < |r| ensures Trimmed(r[k]) {
        assert r[k] in r;
        var j :| 0 <= j < |batches| && r[k] == StatementOf(batches[j]);
      }
    }
    r
  }

  /** The statements of consecutive batch lists are executed one list after
      the other. */
  lemma StatementsAppend(a: seq<seq<string>>, b: seq<seq<string>>)
    ensures Statements(a + b) == Statements(a) + Statements(b)
  {
    TextsAppend(StatementOf, a, b);
  }

  /** A statement is executed for exactly the batches whose stripped text is
      non-empty, and every statement executed is such a text. */
  lemma StatementsFromBatches(batches: seq<seq<string>>)
    ensures forall j :: 0 <= j < |batches| && StatementOf(batches[j]) != [] ==>
      StatementOf(batches[j]) in Statements(batches)
    ensures forall x :: x in Statements(batches) ==>
      exists j :: 0 <= j < |batches| && x == StatementOf(batches[j])
  {
    TextsFrom(StatementOf, batches);
  }
}
