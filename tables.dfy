/** The scraped equities table and the transformations `scrape_and_push`
    applies to it before upload: stripping the extracted text, rejecting an
    empty table, cleaning the "Company" column and laying the table out as the
    2-D payload written to the sheet. */
module Tables {
  import opened Text

  /** Column names in document order and data rows in document order. */
  datatype Table = Table(headers: seq<string>, rows: seq<seq<string>>)

  /** The failures the modelled part of the pipeline can raise. */
  datatype Error =
    | EmptyTable                  // `df.empty`: the ValueError raised for a table without data
    | MissingColumn(name: string) // `df[name]` on an absent column: KeyError
    | DuplicateColumn(name: string) // `df[name]` picks several columns, which have no `.str` accessor

  datatype Result<T> = Ok(value: T) | Err(error: Error) {
    /** Lets `:-` stop at the first error. */
    predicate IsFailure() {
      Err?
    }

    function PropagateFailure<U>(): Result<U>
      requires Err?
    {
      Err(error)
    }

    function Extract(): T
      requires Ok?
    {
      value
    }
  }

  datatype Option<T> = None | Some(value: T)

  /** The column whose values are cleaned. */
  const CompanyColumn: string := "Company"

  /** Every header and cell is whitespace-trimmed. */
  ghost predicate Stripped(t: Table) {
    && (forall i :: 0 <= i < |t.headers| ==> Trimmed(t.headers[i]))
    && (forall i, j :: 0 <= i < |t.rows| && 0 <= j < |t.rows[i]| ==> Trimmed(t.rows[i][j]))
  }

  /** `name` occurs at two different header positions. */
  ghost predicate HasDuplicate(headers: seq<string>, name: string) {
    exists i, j :: 0 <= i < j < |headers| && headers[i] == name && headers[j] == name
  }

  // ---------------------------------------------------------------------
  // Extraction: `[th.text.strip() for th in ...]`, `[[td.text.strip() ...] ...]`

  /** `.strip()` applied to each text of one list, in order. */
  function StripAll(texts: seq<string>): (r: seq<string>)
    ensures |r| == |texts|
    ensures forall i :: 0 <= i < |texts| ==> r[i] == Strip(texts[i])
  {
    seq(|texts|, i requires 0 <= i < |texts| => Strip(texts[i]))
  }

  /** Builds the table from the raw header texts and the raw cell texts of
      each body row. */
  function Extract(rawHeaders: seq<string>, rawRows: seq<seq<string>>): (t: Table)
    ensures t.headers == StripAll(rawHeaders)
    ensures |t.rows| == |rawRows|
    ensures forall i :: 0 <= i < |rawRows| ==> t.rows[i] == StripAll(rawRows[i])
    ensures Stripped(t)
  {
    Table(StripAll(rawHeaders), seq(|rawRows|, i requires 0 <= i < |rawRows| => StripAll(rawRows[i])))
  }

  /** Extracting a table whose text is already stripped gives it back. */
  lemma ExtractStripped(t: Table)
    requires Stripped(t)
    ensures Extract(t.headers, t.rows) == t
  {
    var e := Extract(t.headers, t.rows);
    forall i | 0 <= i < |t.headers|
      ensures e.headers[i] == t.headers[i]
    {
      StripTrimmed(t.headers[i]);
    }
    forall i | 0 <= i < |t.rows|
      ensures e.rows[i] == t.rows[i]
    {
      forall j | 0 <= j < |t.rows[i]|
        ensures e.rows[i][j] == t.rows[i][j]
      {
        StripTrimmed(t.rows[i][j]);
      }
    }
  }

  // ---------------------------------------------------------------------
  // The emptiness checkpoint

  /** `if df.empty: raise ValueError(...)`: a DataFrame is empty when it has
      no rows or no columns; any other table passes through unchanged. */
  function Validate(t: Table): (r: Result<Table>)
    ensures r.Ok? <==> t.rows != [] && t.headers != []
    ensures r.Ok? ==> r.value == t
    ensures r.Err? ==> r.error == EmptyTable
  {
    if t.rows == [] || t.headers == [] then Err(EmptyTable) else Ok(t)
  }

  // ---------------------------------------------------------------------
  // Column lookup: `df[name]`

  /** The first position at or after `from` whose header is `name`. */
  function FindFrom(headers: seq<string>, name: string, from: nat): (r: Option<nat>)
    requires from <= |headers|
    decreases |headers| - from
    ensures r.None? ==> forall j :: from <= j < |headers| ==> headers[j] != name
    ensures r.Some? ==>
              && from <= r.value < |headers|
              && headers[r.value] == name
              && forall j :: from <= j < r.value ==> headers[j] != name
  {
    if from == |headers| then None
    else if headers[from] == name then Some(from)
    else FindFrom(headers, name, from + 1)
  }

  /** Selecting the column `name` as a single Series: it succeeds with the
      column's position exactly when `name` is one header and no other. */
  function ColumnIndex(headers: seq<string>, name: string): (r: Result<nat>)
    ensures r.Ok? ==>
              && r.value < |headers|
              && headers[r.value] == name
              && forall j :: 0 <= j < |headers| && j != r.value ==> headers[j] != name
    ensures r == Err(MissingColumn(name)) <==> name !in headers
    ensures r == Err(DuplicateColumn(name)) <==> HasDuplicate(headers, name)
    ensures r.Ok? || r == Err(MissingColumn(name)) || r == Err(DuplicateColumn(name))
  {
    match FindFrom(headers, name, 0)
    case None => Err(MissingColumn(name))
    case Some(k) =>
      if k + 1 <= |headers| && FindFrom(headers, name, k + 1).Some? then
        Err(DuplicateColumn(name))
      else
        Ok(k)
  }

  // ---------------------------------------------------------------------
  // Cleaning: `df["Company"] = df["Company"].str.split(r"\s|\[", n=1).str[0]`

  /** Cleans the cell at position `k` of one row, if the row has one. */
  function CleanRow(row: seq<string>, k: nat): (r: seq<string>)
    ensures |r| == |row|
    ensures forall j :: 0 <= j < |row| ==> r[j] == if j == k then CleanName(row[j]) else row[j]
  {
    if k < |row| then row[k := CleanName(row[k])] else row
  }

  /** Replaces every value of the "Company" column by its leading token. */
  function CleanTable(t: Table): (r: Result<Table>)
    ensures r.Err? <==> CompanyColumn !in t.headers || HasDuplicate(t.headers, CompanyColumn)
    ensures r.Err? ==>
              r.error == if CompanyColumn !in t.headers then MissingColumn(CompanyColumn)
                         else DuplicateColumn(CompanyColumn)
    ensures r.Ok? ==>
              && r.value.headers == t.headers
              && |r.value.rows| == |t.rows|
              && forall i :: 0 <= i < |t.rows| ==> |r.value.rows[i]| == |t.rows[i]|
    ensures r.Ok? ==>
              forall i, j :: 0 <= i < |t.rows| && 0 <= j < |t.rows[i]| ==>
                r.value.rows[i][j] ==
                  if j < |t.headers| && t.headers[j] == CompanyColumn then CleanName(t.rows[i][j])
                  else t.rows[i][j]
  {
    match ColumnIndex(t.headers, CompanyColumn)
    case Err(e) => Err(e)
    case Ok(k) =>
      Ok(Table(t.headers, seq(|t.rows|, i requires 0 <= i < |t.rows| => CleanRow(t.rows[i], k))))
  }

  /** Cleaning keeps a stripped table stripped. */
  lemma CleanTableStripped(t: Table)
    requires Stripped(t)
    requires CleanTable(t).Ok?
    ensures Stripped(CleanTable(t).value)
  {
    var c := CleanTable(t).value;
    forall i, j | 0 <= i < |c.rows| && 0 <= j < |c.rows[i]|
      ensures Trimmed(c.rows[i][j])
    {
      CleanNameTrimmed(t.rows[i][j]);
    }
  }

  /** Cleaning an already-cleaned table succeeds and changes nothing. */
  lemma CleanTableIdempotent(t: Table)
    requires CleanTable(t).Ok?
    ensures CleanTable(CleanTable(t).value) == CleanTable(t)
  {
    var c := CleanTable(t).value;
    var cc := CleanTable(c).value;
    forall i | 0 <= i < |c.rows|
      ensures cc.rows[i] == c.rows[i]
    {
      forall j | 0 <= j < |c.rows[i]|
        ensures cc.rows[i][j] == c.rows[i][j]
      {
        CleanNameIdempotent(t.rows[i][j]);
      }
    }
    assert cc.rows == c.rows;
    assert cc == c;
  }

  // ---------------------------------------------------------------------
  // Upload payload: `[df.columns.tolist()] + df.values.tolist()`

  /** The 2-D payload of the single bulk sheet update: the header row first,
      then every data row in order. */
  function UploadMatrix(t: Table): (m: seq<seq<string>>)
    ensures |m| == |t.rows| + 1
    ensures m[0] == t.headers
    ensures forall i :: 0 <= i < |t.rows| ==> m[i + 1] == t.rows[i]
  {
    [t.headers] + t.rows
  }

  /** The payload determines the table: its first row is the header list and
      the remaining rows are the data rows. */
  lemma UploadMatrixInverse(t: Table)
    ensures var m := UploadMatrix(t); Table(m[0], m[1..]) == t
  {
    var m := UploadMatrix(t);
    assert m[1..] == t.rows;
  }
}
