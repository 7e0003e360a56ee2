/** The parameterised INSERT of the staging load (etl.py:180-182): the column
    list and the placeholders are both derived from the schema. */
module InsertSql {
  import opened Wrappers
  import opened Seqs
  import opened Text
  import opened Schema

  const StagingTable: string := "stg.SalesRaw"

  /** `f"[{c}]"` for every column. */
  function Bracketed(cols: seq<string>): (r: seq<string>)
    ensures |r| == |cols|
  {
    seq(|cols|, i requires 0 <= i < |cols| => "[" + cols[i] + "]")
  }

  /** Every column name in square brackets, comma-separated (etl.py:180). */
  function ColumnList(cols: seq<string>): string {
    Join(Bracketed(cols), ", ")
  }

  /** One `?` per column, comma-separated (etl.py:181). */
  function Placeholders(n: nat): string {
    Join(seq(n, _ => "?"), ", ")
  }

  function InsertStatement(cols: seq<string>): string {
    "INSERT INTO " + StagingTable + " (" + ColumnList(cols) + ") VALUES (" + Placeholders(|cols|) + ")"
  }

  /** The statement the load executes for every row. */
  function StagingInsert(): string {
    InsertStatement(ExpectedColumns)
  }

  /** The number of occurrences of `c` in `s`. */
  function Count(s: string, c: char): nat {
    if s == [] then 0 else (if s[0] == c then 1 else 0) + Count(s[1..], c)
  }

  lemma {:induction false} CountAppend(a: string, b: string, c: char)
    ensures Count(a + b, c) == Count(a, c) + Count(b, c)
  {
    if a == [] {
      assert a + b == b;
    } else {
      assert (a + b)[1..] == a[1..] + b;
      CountAppend(a[1..], b, c);
    }
  }

  lemma {:induction false} CountAbsent(s: string, c: char)
    requires c !in s
    ensures Count(s, c) == 0
  {
    if s != [] {
      CountAbsent(s[1..], c);
    }
  }

  /** There is one `?` per column. */
  lemma {:induction false} PlaceholderCount(n: nat)
    ensures Count(Placeholders(n), '?') == n
  {
    var qs := seq(n, _ => "?");
    if n > 1 {
      assert qs[1..] == seq(n - 1, _ => "?");
      PlaceholderCount(n - 1);
      assert Placeholders(n) == "?, " + Placeholders(n - 1);
      CountAppend("?, ", Placeholders(n - 1), '?');
    } else if n == 1 {
      assert Placeholders(1) == "?";
    }
  }

  /** A column name that needs no quoting inside brackets and cannot be
      mistaken for a placeholder. */
  predicate PlainName(c: string) {
    c != [] && forall k :: 0 <= k < |c| ==> c[k] != '?' && c[k] != ']'
  }

  /** A bracketed list of plain names holds no `?`. */
  lemma {:induction false} ColumnListHasNoMark(cols: seq<string>)
    requires forall i :: 0 <= i < |cols| ==> PlainName(cols[i])
    ensures Count(ColumnList(cols), '?') == 0
  {
    var b := Bracketed(cols);
    if |cols| > 1 {
      assert b[1..] == Bracketed(cols[1..]);
      ColumnListHasNoMark(cols[1..]);
      assert '?' !in cols[0];
      assert ColumnList(cols) == "[" + cols[0] + "], " + ColumnList(cols[1..]);
      CountAbsent("[" + cols[0] + "], ", '?');
      CountAppend("[" + cols[0] + "], ", ColumnList(cols[1..]), '?');
    } else if |cols| == 1 {
      assert '?' !in cols[0];
      assert ColumnList(cols) == "[" + cols[0] + "]";
      CountAbsent("[" + cols[0] + "]", '?');
    }
  }

  /** The fixed text around the two lists holds no `?`. */
  lemma FixedTextHasNoMark()
    ensures Count("INSERT INTO " + StagingTable + " (", '?') == 0
    ensures Count(") VALUES (", '?') == 0
    ensures Count(")", '?') == 0
  {
    var head := "INSERT INTO " + StagingTable + " (";
    assert '?' !in head;
    CountAbsent(head, '?');
    CountAbsent(") VALUES (", '?');
  }

  /** The statement has exactly as many placeholders as columns, so every
      row tuple must have one value per column. */
  lemma StatementMarks(cols: seq<string>)
    requires forall i :: 0 <= i < |cols| ==> PlainName(cols[i])
    ensures Count(InsertStatement(cols), '?') == |cols|
  {
    var head := "INSERT INTO " + StagingTable + " (";
    var list := ColumnList(cols);
    var mid := ") VALUES (";
    var marks := Placeholders(|cols|);
    assert InsertStatement(cols) == head + list + mid + marks + ")";
    ColumnListHasNoMark(cols);
    PlaceholderCount(|cols|);
    FixedTextHasNoMark();
    CountAppend(head, list, '?');
    CountAppend(head + list, mid, '?');
    CountAppend(head + list + mid, marks, '?');
    CountAppend(head + list + mid + marks, ")", '?');
  }

  /** Reads a bracketed column list back: `[a], [b], ...`. */
  function ParseColumnList(s: string): Option<seq<string>>
    decreases |s|, 1
  {
    if |s| < 2 || s[0] != '[' || ']' !in s[1..] then None
    else
      var j := 1 + IndexOf(s[1..], ']');
      ParseAfterName(s[1..j], s[j + 1..])
  }

  /** The rest of the list after the bracketed `name`: nothing, or the
      separator and more of the list. */
  function ParseAfterName(name: string, rest: string): Option<seq<string>>
    decreases |rest|, 0
  {
    if rest == [] then Some([name])
    else if |rest| > 2 && rest[..2] == ", " then
      match ParseColumnList(rest[2..])
      case None => None
      case Some(names) => Some([name] + names)
    else None
  }

  /** The first `]` after a plain name is the one that closes it. */
  lemma CloseAfterName(c: string, tail: string)
    requires PlainName(c)
    ensures ']' in (c + "]" + tail)
    ensures IndexOf(c + "]" + tail, ']') == |c|
  {
    assert ']' !in c;
    IndexOfAfter(c, ']', tail);
  }

  lemma ColumnListCons(cols: seq<string>)
    requires |cols| > 1
    ensures ColumnList(cols) == "[" + cols[0] + "]" + ", " + ColumnList(cols[1..])
  {
    assert Bracketed(cols)[1..] == Bracketed(cols[1..]);
  }

  /** A single bracketed plain name reads back as itself. */
  lemma ParseLast(c: string)
    requires PlainName(c)
    ensures ParseColumnList("[" + c + "]") == Some([c])
  {
    var s := "[" + c + "]";
    assert s[1..] == c + "]" + "";
    CloseAfterName(c, "");
    assert s[1..1 + |c|] == c;
    assert s[|c| + 2..] == [];
  }

  /** One step of the reader: a bracketed plain name, the separator, and a
      readable rest. */
  lemma ParseCons(c: string, tail: string, names: seq<string>)
    requires PlainName(c)
    requires ParseColumnList(tail) == Some(names)
    ensures ParseColumnList("[" + c + "]" + ", " + tail) == Some([c] + names)
  {
    var s := "[" + c + "]" + ", " + tail;
    ConsPieces(c, tail);
    var rest := s[|c| + 2..];
    assert |tail| >= 2;
    assert rest[..2] == ", " && rest[2..] == tail;
    ParseStep(s, 1 + |c|, rest, names);
  }

  /** Where the pieces of `[c], tail` sit. */
  lemma ConsPieces(c: string, tail: string)
    requires PlainName(c)
    ensures var s := "[" + c + "]" + ", " + tail;
      && |s| >= 2 && s[0] == '[' && ']' in s[1..] && IndexOf(s[1..], ']') == |c|
      && s[1..1 + |c|] == c && s[|c| + 2..] == ", " + tail
  {
    var s := "[" + c + "]" + ", " + tail;
    assert s[1..] == c + "]" + (", " + tail);
    CloseAfterName(c, ", " + tail);
  }

  /** The reader on a bracketed name whose `]` sits at `j`, followed by the
      separator. */
  lemma ParseStep(s: string, j: nat, rest: string, names: seq<string>)
    requires |s| >= 2 && s[0] == '[' && ']' in s[1..] && j == 1 + IndexOf(s[1..], ']')
    requires rest == s[j + 1..] && |rest| > 2 && rest[..2] == ", "
    requires ParseColumnList(rest[2..]) == Some(names)
    ensures ParseColumnList(s) == Some([s[1..j]] + names)
  {
    ParseOpen(s);
    AfterNameSep(s[1..j], rest, names);
  }

  /** A list that opens with `[` and has a `]` continues after that `]`. */
  lemma ParseOpen(s: string)
    requires |s| >= 2 && s[0] == '[' && ']' in s[1..]
    ensures ParseColumnList(s) == ParseAfterName(s[1..1 + IndexOf(s[1..], ']')], s[2 + IndexOf(s[1..], ']')..])
  {
  }

  /** After a name, the separator and a readable list. */
  lemma AfterNameSep(name: string, rest: string, names: seq<string>)
    requires |rest| > 2 && rest[..2] == ", "
    requires ParseColumnList(rest[2..]) == Some(names)
    ensures ParseAfterName(name, rest) == Some([name] + names)
  {
  }

  /** The column list can be read back: its names are the columns, in
      order. */
  lemma {:induction false} ColumnListRoundTrip(cols: seq<string>)
    requires cols != []
    requires forall i :: 0 <= i < |cols| ==> PlainName(cols[i])
    ensures ParseColumnList(ColumnList(cols)) == Some(cols)
  {
    if |cols| == 1 {
      assert ColumnList(cols) == "[" + cols[0] + "]";
      ParseLast(cols[0]);
      assert cols == [cols[0]];
    } else {
      ColumnListCons(cols);
      ColumnListRoundTrip(cols[1..]);
      ParseCons(cols[0], ColumnList(cols[1..]), cols[1..]);
      assert cols == [cols[0]] + cols[1..];
    }
  }

  // The schema's names are plain, eight at a time. The schema literal is
  // split this way only so that each proof stays small.
  lemma PlainNames0() ensures forall i :: 0 <= i < 8 ==> PlainName(ExpectedColumns[i]) {}
  lemma PlainNames1() ensures forall i :: 8 <= i < 16 ==> PlainName(ExpectedColumns[i]) {}
  lemma PlainNames2() ensures forall i :: 16 <= i < 24 ==> PlainName(ExpectedColumns[i]) {}
  lemma PlainNames3() ensures forall i :: 24 <= i < 32 ==> PlainName(ExpectedColumns[i]) {}
  lemma PlainNames4() ensures forall i :: 32 <= i < 40 ==> PlainName(ExpectedColumns[i]) {}

  /** The staging INSERT names all 40 schema columns in schema order and has
      one placeholder for each of them. */
  lemma StagingInsertShape()
    ensures Count(StagingInsert(), '?') == |ExpectedColumns| == 40
    ensures ParseColumnList(ColumnList(ExpectedColumns)) == Some(ExpectedColumns)
  {
    PlainNames0(); PlainNames1(); PlainNames2(); PlainNames3(); PlainNames4();
    StatementMarks(ExpectedColumns);
    ColumnListRoundTrip(ExpectedColumns);
  }
}
