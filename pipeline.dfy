/** The data path of `scrape_and_push()` from the extracted HTML text to the
    payload of the sheet update: strip, check for emptiness, clean the
    "Company" column, lay out header row plus data rows. */
module Pipeline {
  import opened Text
  import opened Tables

  /** Runs the table stages in the source's order; the first failure stops
      the run and is returned in place of a payload. A payload is the
      stripped header row followed by one row per scraped row, in order,
      each as long as the scraped row. */
  function Run(rawHeaders: seq<string>, rawRows: seq<seq<string>>): (r: Result<seq<seq<string>>>)
    ensures r.Ok? ==>
              && |r.value| == |rawRows| + 1
              && r.value[0] == StripAll(rawHeaders)
              && forall i :: 0 <= i < |rawRows| ==> |r.value[i + 1]| == |rawRows[i]|
  {
    var t := Extract(rawHeaders, rawRows);
    var v :- Validate(t);
    var c :- CleanTable(v);
    Ok(UploadMatrix(c))
  }

  /** Which inputs the pipeline rejects, and with which error: an empty
      table first, then a missing or repeated "Company" header among the
      stripped headers; every other input produces a payload. */
  lemma RunOutcome(rawHeaders: seq<string>, rawRows: seq<seq<string>>)
    ensures Run(rawHeaders, rawRows) == Err(EmptyTable) <==> rawRows == [] || rawHeaders == []
    ensures Run(rawHeaders, rawRows) == Err(MissingColumn(CompanyColumn)) <==>
              rawRows != [] && rawHeaders != [] && CompanyColumn !in StripAll(rawHeaders)
    ensures Run(rawHeaders, rawRows) == Err(DuplicateColumn(CompanyColumn)) <==>
              rawRows != [] && rawHeaders != [] && HasDuplicate(StripAll(rawHeaders), CompanyColumn)
    ensures Run(rawHeaders, rawRows).Ok? <==>
              && rawRows != [] && rawHeaders != []
              && CompanyColumn in StripAll(rawHeaders)
              && !HasDuplicate(StripAll(rawHeaders), CompanyColumn)
  {
    var t := Extract(rawHeaders, rawRows);
    assert t.headers == StripAll(rawHeaders);
  }

  /** Cell `j` of data row `i` of a payload is the stripped scraped text,
      cut down to its leading token when its column is "Company", and left
      as it is otherwise. */
  lemma RunCell(rawHeaders: seq<string>, rawRows: seq<seq<string>>, i: nat, j: nat)
    requires Run(rawHeaders, rawRows).Ok?
    requires i < |rawRows| && j < |rawRows[i]|
    ensures Run(rawHeaders, rawRows).value[i + 1][j] ==
              if j < |rawHeaders| && Strip(rawHeaders[j]) == CompanyColumn
              then CleanName(Strip(rawRows[i][j]))
              else Strip(rawRows[i][j])
  {
    var t := Extract(rawHeaders, rawRows);
    var c := CleanTable(t).value;
    assert Run(rawHeaders, rawRows).value[i + 1] == c.rows[i];
    assert t.rows[i][j] == Strip(rawRows[i][j]);
  }

  /** The company values of a payload are leading tokens of the stripped
      scraped values: prefixes of them with no whitespace and no `[`. */
  lemma RunCompanyValues(rawHeaders: seq<string>, rawRows: seq<seq<string>>, i: nat, j: nat)
    requires Run(rawHeaders, rawRows).Ok?
    requires i < |rawRows| && j < |rawRows[i]|
    ensures j < |rawHeaders| && Strip(rawHeaders[j]) == CompanyColumn ==>
              var v := Run(rawHeaders, rawRows).value[i + 1][j];
              v <= Strip(rawRows[i][j]) && NoDelim(v)
  {
    RunCell(rawHeaders, rawRows, i, j);
  }

  /** Feeding a payload back in as if it had been scraped again reproduces
      it: stripping, checking and cleaning have all already been done. */
  lemma RunIdempotent(rawHeaders: seq<string>, rawRows: seq<seq<string>>)
    requires Run(rawHeaders, rawRows).Ok?
    ensures var m := Run(rawHeaders, rawRows).value;
            Run(m[0], m[1..]) == Ok(m)
  {
    var t := Extract(rawHeaders, rawRows);
    var c := CleanTable(t).value;
    var m := UploadMatrix(c);
    assert Run(rawHeaders, rawRows) == Ok(m);
    UploadMatrixInverse(c);
    CleanTableStripped(t);
    ExtractStripped(c);
    CleanTableIdempotent(t);
  }

  /** Worked example: a two-row price list with a footnoted and a suffixed
      company name. */
  lemma RunExample(hs: seq<string>, rows: seq<seq<string>>)
    requires hs == ["Company", "Price"]
    requires rows == [["ABC PLC [X]", "12.50"], ["DEF Ltd", "7.00"]]
    ensures Run(hs, rows) == Ok([["Company", "Price"], ["ABC", "12.50"], ["DEF", "7.00"]])
  {
    var cleaned := Table(hs, [["ABC", "12.50"], ["DEF", "7.00"]]);
    ExampleExtract(hs, rows);
    ExampleClean(hs, rows);
    RunOfStripped(hs, rows, cleaned);
    var m := UploadMatrix(cleaned);
    assert m == [hs, cleaned.rows[0], cleaned.rows[1]];
  }

  /** A non-empty table with nothing to strip is uploaded as it cleans. */
  lemma RunOfStripped(hs: seq<string>, rows: seq<seq<string>>, cleaned: Table)
    requires hs != [] && rows != []
    requires Extract(hs, rows) == Table(hs, rows)
    requires CleanTable(Table(hs, rows)) == Ok(cleaned)
    ensures Run(hs, rows) == Ok(UploadMatrix(cleaned))
  {
  }

  /** The example's texts carry no surrounding whitespace. */
  lemma ExampleExtract(hs: seq<string>, rows: seq<seq<string>>)
    requires hs == ["Company", "Price"]
    requires rows == [["ABC PLC [X]", "12.50"], ["DEF Ltd", "7.00"]]
    ensures Extract(hs, rows) == Table(hs, rows)
  {
    assert Trimmed(hs[0]) && Trimmed(hs[1]);
    assert Trimmed(rows[0][0]) && Trimmed(rows[0][1]);
    assert Trimmed(rows[1][0]) && Trimmed(rows[1][1]);
    ExtractStripped(Table(hs, rows));
  }

  /** Cleaning the example cuts both company names at their first space. */
  lemma ExampleClean(hs: seq<string>, rows: seq<seq<string>>)
    requires hs == ["Company", "Price"]
    requires rows == [["ABC PLC [X]", "12.50"], ["DEF Ltd", "7.00"]]
    ensures CleanTable(Table(hs, rows)) == Ok(Table(hs, [["ABC", "12.50"], ["DEF", "7.00"]]))
  {
    var cleaned: seq<seq<string>> := [["ABC", "12.50"], ["DEF", "7.00"]];
    assert hs[0] == CompanyColumn && hs[1] != CompanyColumn;
    assert CleanName(rows[0][0]) == "ABC" by {
      assert rows[0][0][..3] == "ABC" && rows[0][0][3] == ' ';
      CleanNameUnique(rows[0][0], "ABC");
    }
    assert CleanName(rows[1][0]) == "DEF" by {
      assert rows[1][0][..3] == "DEF" && rows[1][0][3] == ' ';
      CleanNameUnique(rows[1][0], "DEF");
    }
    CleanTwoRows(hs, rows, cleaned);
  }

  /** Cleaning a two-row table whose first header is its only "Company"
      header rewrites just the first cell of each row. */
  lemma CleanTwoRows(hs: seq<string>, rows: seq<seq<string>>, cleaned: seq<seq<string>>)
    requires |hs| == 2 && hs[0] == CompanyColumn && hs[1] != CompanyColumn
    requires |rows| == 2 && |rows[0]| == 2 && |rows[1]| == 2
    requires cleaned == [[CleanName(rows[0][0]), rows[0][1]], [CleanName(rows[1][0]), rows[1][1]]]
    ensures CleanTable(Table(hs, rows)) == Ok(Table(hs, cleaned))
  {
    assert ColumnIndex(hs, CompanyColumn) == Ok(0) by {
      assert !HasDuplicate(hs, CompanyColumn);
    }
    var c := CleanTable(Table(hs, rows)).value;
    assert c.rows[0] == cleaned[0];
    assert c.rows[1] == cleaned[1];
    assert c.rows == cleaned;
  }
}
