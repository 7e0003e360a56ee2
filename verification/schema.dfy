/** The schema contract: the ordered staging-table columns, the designated
    numeric and date columns, and the start-up duplicate check
    (etl.py:46-61, 166, 172). */
module Schema {
  import opened Wrappers
  import opened Seqs

  /** The derived column, filled with the name of the file a row came from. */
  const SourceFile: string := "SourceFile"

  /** `EXPECTED_COLUMNS`: both the required input columns (all but the last)
      and the exact column order of every staged row. */
  const ExpectedColumns: seq<string> := [
    "OrderDate", "OrderID", "StoreID", "CustomerID", "ProductID", "Quantity",
    "OrderAmount", "DiscountAmount", "ShippingCost", "TotalAmount",
    "StoreName", "StoreType", "StoreOpeningDate", "StoreAddress", "StoreCity",
    "StoreState", "StoreZipCode", "StoreCountry", "StoreRegion", "StoreManagerName",
    "FirstName", "LastName", "Gender", "DOB", "Email", "CustomerAddress", "CustomerCity",
    "CustomerState", "CustomerZipCode", "CustomerCountry", "LoyalityProgramID",
    "ProductName", "Category", "Brand", "UnitPrice",
    "ProgramName", "TierLevel", "PointsMultiplier", "AnnualFee",
    "SourceFile"
  ]

  /** `numeric_cols`: the columns passed through the numeric cleaner. */
  const NumericColumns: seq<string> := [
    "Quantity", "OrderAmount", "DiscountAmount", "ShippingCost", "TotalAmount",
    "UnitPrice", "PointsMultiplier", "AnnualFee"
  ]

  /** `date_cols`: the columns parsed as day-first dates. */
  const DateColumns: seq<string> := ["OrderDate", "StoreOpeningDate", "DOB"]

  /** Python's `set(s)`. */
  function Elements<T(==)>(s: seq<T>): set<T> {
    set c | c in s
  }

  /** The names that occur more than once. */
  function Duplicates(cols: seq<string>): set<string> {
    set c | c in cols && multiset(cols)[c] > 1
  }

  /** The start-up check: a schema whose length differs from the size of its set
      of names is refused, reporting every name that occurs more than once. */
  function CheckSchema(cols: seq<string>): (r: Outcome<set<string>>)
    ensures r.Fail? <==> !Distinct(cols)
    ensures r.Fail? ==> forall c :: c in r.error <==>
      exists i, j :: 0 <= i < j < |cols| && cols[i] == c && cols[j] == c
  {
    ElementsSize(cols);
    if |cols| != |Elements(cols)| then
      var dupes := Duplicates(cols);
      assert forall c :: c in dupes <==>
        exists i, j :: 0 <= i < j < |cols| && cols[i] == c && cols[j] == c by {
        forall c ensures c in dupes <==>
          exists i, j :: 0 <= i < j < |cols| && cols[i] == c && cols[j] == c {
          RepeatedIffCount(cols, c);
        }
      }
      Fail(dupes)
    else
      Pass
  }

  /** A sequence has as many distinct elements as entries exactly when no entry
      repeats; otherwise it has fewer. */
  lemma {:induction false} ElementsSize<T>(s: seq<T>)
    ensures |Elements(s)| <= |s|
    ensures |Elements(s)| == |s| <==> Distinct(s)
  {
    if s != [] {
      var t := s[1..];
      ElementsSize(t);
      assert Elements(s) == {s[0]} + Elements(t);
      if s[0] in t {
        assert Elements(s) == Elements(t);
        var j :| 0 <= j < |t| && t[j] == s[0];
        assert s[0] == s[j + 1];
      } else {
        assert |Elements(s)| == |Elements(t)| + 1;
        assert Distinct(s) <==> Distinct(t) by {
          if Distinct(t) {
            forall i, j | 0 <= i < j < |s| ensures s[i] != s[j] {
              if i > 0 {
                assert s[i] == t[i - 1] && s[j] == t[j - 1];
              } else {
                assert s[j] in t;
              }
            }
          }
          if Distinct(s) {
            forall i, j | 0 <= i < j < |t| ensures t[i] != t[j] {
              assert t[i] == s[i + 1] && t[j] == s[j + 1];
            }
          }
        }
      }
    }
  }

  /** `cols.count(c) > 1` holds exactly when `c` sits at two positions. */
  lemma {:induction false} RepeatedIffCount<T>(s: seq<T>, c: T)
    ensures multiset(s)[c] > 1 <==> exists i, j :: 0 <= i < j < |s| && s[i] == c && s[j] == c
  {
    if s != [] {
      var t := s[1..];
      assert s == [s[0]] + t;
      assert multiset(s)[c] == (if s[0] == c then 1 else 0) + multiset(t)[c];
      RepeatedIffCount(t, c);
      if multiset(s)[c] > 1 {
        if s[0] == c {
          assert c in multiset(t);
          var j :| 0 <= j < |t| && t[j] == c;
          assert s[0] == c && s[j + 1] == c;
        } else {
          var i, j :| 0 <= i < j < |t| && t[i] == c && t[j] == c;
          assert s[i + 1] == c && s[j + 1] == c;
        }
      }
      if exists i, j :: 0 <= i < j < |s| && s[i] == c && s[j] == c {
        var i, j :| 0 <= i < j < |s| && s[i] == c && s[j] == c;
        if i == 0 {
          assert t[j - 1] == c;
          assert c in multiset(t);
        } else {
          assert t[i - 1] == c && t[j - 1] == c;
        }
      }
    }
  }

  // The pairwise distinctness of the 40 names, two rows at a time. The
  // schema literal is split this way only so that each proof stays small.
  lemma ExpectedDistinct0() ensures forall i, j :: 0 <= i < 2 && i < j < |ExpectedColumns| ==> ExpectedColumns[i] != ExpectedColumns[j] {}
  lemma ExpectedDistinct1() ensures forall i, j :: 2 <= i < 4 && i < j < |ExpectedColumns| ==> ExpectedColumns[i] != ExpectedColumns[j] {}
  lemma ExpectedDistinct2() ensures forall i, j :: 4 <= i < 6 && i < j < |ExpectedColumns| ==> ExpectedColumns[i] != ExpectedColumns[j] {}
  lemma ExpectedDistinct3() ensures forall i, j :: 6 <= i < 8 && i < j < |ExpectedColumns| ==> ExpectedColumns[i] != ExpectedColumns[j] {}
  lemma ExpectedDistinct4() ensures forall i, j :: 8 <= i < 10 && i < j < |ExpectedColumns| ==> ExpectedColumns[i] != ExpectedColumns[j] {}
  lemma ExpectedDistinct5() ensures forall i, j :: 10 <= i < 12 && i < j < |ExpectedColumns| ==> ExpectedColumns[i] != ExpectedColumns[j] {}
  lemma ExpectedDistinct6() ensures forall i, j :: 12 <= i < 14 && i < j < |ExpectedColumns| ==> ExpectedColumns[i] != ExpectedColumns[j] {}
  lemma ExpectedDistinct7() ensures forall i, j :: 14 <= i < 16 && i < j < |ExpectedColumns| ==> ExpectedColumns[i] != ExpectedColumns[j] {}
  lemma ExpectedDistinct8() ensures forall i, j :: 16 <= i < 18 && i < j < |ExpectedColumns| ==> ExpectedColumns[i] != ExpectedColumns[j] {}
  lemma ExpectedDistinct9() ensures forall i, j :: 18 <= i < 20 && i < j < |ExpectedColumns| ==> ExpectedColumns[i] != ExpectedColumns[j] {}
  lemma ExpectedDistinct10() ensures forall i, j :: 20 <= i < 22 && i < j < |ExpectedColumns| ==> ExpectedColumns[i] != ExpectedColumns[j] {}
  lemma ExpectedDistinct11() ensures forall i, j :: 22 <= i < 24 && i < j < |ExpectedColumns| ==> ExpectedColumns[i] != ExpectedColumns[j] {}
  lemma ExpectedDistinct12() ensures forall i, j :: 24 <= i < 26 && i < j < |ExpectedColumns| ==> ExpectedColumns[i] != ExpectedColumns[j] {}
  lemma ExpectedDistinct13() ensures forall i, j :: 26 <= i < 28 && i < j < |ExpectedColumns| ==> ExpectedColumns[i] != ExpectedColumns[j] {}
  lemma ExpectedDistinct14() ensures forall i, j :: 28 <= i < 30 && i < j < |ExpectedColumns| ==> ExpectedColumns[i] != ExpectedColumns[j] {}
  lemma ExpectedDistinct15() ensures forall i, j :: 30 <= i < 32 && i < j < |ExpectedColumns| ==> ExpectedColumns[i] != ExpectedColumns[j] {}
  lemma ExpectedDistinct16() ensures forall i, j :: 32 <= i < 34 && i < j < |ExpectedColumns| ==> ExpectedColumns[i] != ExpectedColumns[j] {}
  lemma ExpectedDistinct17() ensures forall i, j :: 34 <= i < 36 && i < j < |ExpectedColumns| ==> ExpectedColumns[i] != ExpectedColumns[j] {}
  lemma ExpectedDistinct18() ensures forall i, j :: 36 <= i < 38 && i < j < |ExpectedColumns| ==> ExpectedColumns[i] != ExpectedColumns[j] {}
  lemma ExpectedDistinct19() ensures forall i, j :: 38 <= i < 40 && i < j < |ExpectedColumns| ==> ExpectedColumns[i] != ExpectedColumns[j] {}

  /** No schema name is repeated. */
  lemma ExpectedColumnsDistinct()
    ensures |ExpectedColumns| == 40
    ensures Distinct(ExpectedColumns)
  {
    ExpectedDistinct0(); ExpectedDistinct1(); ExpectedDistinct2(); ExpectedDistinct3();
    ExpectedDistinct4(); ExpectedDistinct5(); ExpectedDistinct6(); ExpectedDistinct7();
    ExpectedDistinct8(); ExpectedDistinct9(); ExpectedDistinct10(); ExpectedDistinct11();
    ExpectedDistinct12(); ExpectedDistinct13(); ExpectedDistinct14(); ExpectedDistinct15();
    ExpectedDistinct16(); ExpectedDistinct17(); ExpectedDistinct18(); ExpectedDistinct19();
  }

  /** The shipped schema passes its own start-up check. */
  lemma ExpectedColumnsValid()
    ensures |ExpectedColumns| == 40
    ensures Distinct(ExpectedColumns)
    ensures CheckSchema(ExpectedColumns) == Pass
  {
    ExpectedColumnsDistinct();
  }

  /** The schema has 40 columns and `SourceFile` is the last. */
  lemma SourceFileAtEnd()
    ensures |ExpectedColumns| == 40 && ExpectedColumns[39] == SourceFile
  {
  }

  /** `EXPECTED_COLUMNS.index("SourceFile")` is the last position. */
  lemma SourceFileLast()
    ensures SourceFile in ExpectedColumns
    ensures IndexOf(ExpectedColumns, SourceFile) == |ExpectedColumns| - 1 == 39
  {
    SourceFileAtEnd();
    ExpectedColumnsDistinct();
    IndexOfDistinct(ExpectedColumns, 39);
  }

  /** Every designated numeric and date column is a schema column other than
      `SourceFile`, so the `if col in ...columns` guards always hold. */
  lemma DesignatedColumnsInSchema()
    ensures forall c :: c in NumericColumns ==> c in ExpectedColumns && c != SourceFile
    ensures forall c :: c in DateColumns ==> c in ExpectedColumns && c != SourceFile
    ensures forall c :: c in NumericColumns ==> c !in DateColumns
  {
    assert NumericColumns == [ExpectedColumns[5], ExpectedColumns[6], ExpectedColumns[7],
      ExpectedColumns[8], ExpectedColumns[9], ExpectedColumns[34], ExpectedColumns[37], ExpectedColumns[38]];
    assert DateColumns == [ExpectedColumns[0], ExpectedColumns[12], ExpectedColumns[23]];
  }
}
