/**
  The home page's catalogue (`read_tsv`, app.py). The tab-separated file is
  taken already parsed: one sequence of fields per row, in file order.
 */
module Catalog {
  import opened Wrappers

  /** One news item as the home page template receives it. */
  datatype NewsEntry = NewsEntry(title: string, code: string, url: string)

  /** The fields of one row of the news file. */
  type Row = seq<string>

  /** The home page shows at most this many entries. */
  const MaxEntries: nat := 12

  /** Field positions read from each row. */
  const CodeField: nat := 0
  const TitleField: nat := 3
  const UrlField: nat := 5

  /** Rows shorter than this make the positional lookup raise `IndexError`. */
  const MinFields: nat := UrlField + 1

  /** Why reading the catalogue failed: the row at `index` is too short. */
  datatype ReadError = ShortRow(index: nat)

  /** A row that has every field the entry is built from. */
  predicate WellFormed(row: Row) {
    |row| >= MinFields
  }

  /** The entry built from one well-formed row. */
  function ToEntry(row: Row): NewsEntry
    requires WellFormed(row)
  {
    NewsEntry(row[TitleField], row[CodeField], row[UrlField])
  }

  /**
    The list comprehension over all rows: every row is indexed, so the first
    short row anywhere in the file aborts the whole read.
   */
  function Entries(rows: seq<Row>): (r: Result<seq<NewsEntry>, ReadError>)
    ensures r.Success? <==> forall i :: 0 <= i < |rows| ==> WellFormed(rows[i])
    ensures r.Success? ==>
              |r.value| == |rows| &&
              forall i :: 0 <= i < |rows| ==> r.value[i] == ToEntry(rows[i])
    ensures r.Failure? ==>
              r.error.index < |rows| && !WellFormed(rows[r.error.index]) &&
              forall i :: 0 <= i < r.error.index ==> WellFormed(rows[i])
    decreases |rows|
  {
    if |rows| == 0 then Success([])
    else if !WellFormed(rows[0]) then Failure(ShortRow(0))
    else
      match Entries(rows[1..])
      case Success(rest) => Success([ToEntry(rows[0])] + rest)
      case Failure(ShortRow(i)) => Failure(ShortRow(i + 1))
  }

  /**
    `read_tsv`: the entries of the first `MaxEntries` rows, in file order, or
    the error raised by the first short row of the file.
   */
  function ReadTsv(rows: seq<Row>): (r: Result<seq<NewsEntry>, ReadError>)
    ensures r.Failure? <==> exists i :: 0 <= i < |rows| && !WellFormed(rows[i])
    ensures r.Success? ==>
              |r.value| == (if |rows| < MaxEntries then |rows| else MaxEntries)
    ensures r.Success? ==>
              forall i :: 0 <= i < |r.value| ==>
                && r.value[i].code == rows[i][CodeField]
                && r.value[i].title == rows[i][TitleField]
                && r.value[i].url == rows[i][UrlField]
    ensures r.Failure? ==>
              r.error.index < |rows| && !WellFormed(rows[r.error.index]) &&
              forall i :: 0 <= i < r.error.index ==> WellFormed(rows[i])
  {
    match Entries(rows)
    case Failure(e) => Failure(e)
    case Success(contents) =>
      if |contents| < MaxEntries then Success(contents)
      else Success(contents[..MaxEntries])
  }

  /** Reading more rows never changes the entries already shown: the result is a prefix. */
  lemma ReadTsvPrefix(rows: seq<Row>, more: seq<Row>)
    requires ReadTsv(rows + more).Success?
    ensures ReadTsv(rows).Success?
    ensures ReadTsv(rows).value <= ReadTsv(rows + more).value
  {
    assert forall i :: 0 <= i < |rows| ==> rows[i] == (rows + more)[i];
  }
}
