/**
  The text the table's CSV and Excel exports write: a header line of column
  labels, then one line per sorted row with its declared cells, all without
  quoting.
 */
module TableExport {
  import opened Seqs
  import opened TableData

  /** How `Array.prototype.join` renders a cell: null and undefined become empty. */
  function CellText(c: Cell): (r: string)
    ensures c.Null? ==> r == ""
    ensures c.Value? ==> r == c.text
  {
    match c
    case Null => ""
    case Value(text, _) => text
  }

  /** The column labels, in column order. */
  function Captions(headers: seq<Header>): (r: seq<string>)
    ensures |r| == |headers|
    ensures forall j :: 0 <= j < |headers| ==> r[j] == headers[j].caption
  {
    seq(|headers|, j requires 0 <= j < |headers| => headers[j].caption)
  }

  /** A row's declared cells as text, in column order; other properties are
      not exported. */
  function Fields(row: Row, headers: seq<Header>): (r: seq<string>)
    ensures |r| == |headers|
    ensures forall j :: 0 <= j < |headers| ==> r[j] == CellText(CellAt(row, headers[j].key))
  {
    seq(|headers|, j requires 0 <= j < |headers| => CellText(CellAt(row, headers[j].key)))
  }

  /** The lines of an export before they are joined with newlines. */
  function Lines(headers: seq<Header>, rows: seq<Row>, sep: string): (r: seq<string>)
    ensures |r| == 1 + |rows|
  {
    [Join(Captions(headers), sep)] + seq(|rows|, i requires 0 <= i < |rows| => Join(Fields(rows[i], headers), sep))
  }

  /** The export text for separator `sep`. */
  function ExportText(headers: seq<Header>, rows: seq<Row>, sep: string): string
  {
    Join(Lines(headers, rows, sep), "\n")
  }

  /** `exportToCSV`: comma separators. */
  function ExportCsv(headers: seq<Header>, sorted: seq<Row>): string
  {
    ExportText(headers, sorted, ",")
  }

  const ByteOrderMark: char := '\U{FEFF}'

  /** `exportToXLSX`: tab separators after a byte-order mark. */
  function ExportXls(headers: seq<Header>, sorted: seq<Row>): string
  {
    [ByteOrderMark] + ExportText(headers, sorted, "\t")
  }

  /** No label and no exported cell text contains `c`. */
  predicate Free(headers: seq<Header>, rows: seq<Row>, c: char)
  {
    && (forall j :: 0 <= j < |headers| ==> c !in headers[j].caption)
    && (forall i, j :: 0 <= i < |rows| && 0 <= j < |headers| ==>
          c !in CellText(CellAt(rows[i], headers[j].key)))
  }

  /** A join of `c`-free parts with a separator other than `c` is `c`-free. */
  lemma {:induction false} JoinFree(parts: seq<string>, sep: char, c: char)
    requires sep != c
    requires forall k :: 0 <= k < |parts| ==> c !in parts[k]
    ensures c !in Join(parts, [sep])
    decreases |parts|
  {
    if |parts| > 1 {
      JoinFree(parts[1..], sep, c);
    }
  }

  /** When no label or cell contains a newline, the export splits back into
      its header line and one line per row, and every line splits back into
      its fields. */
  lemma {:induction false} ExportLayout(headers: seq<Header>, rows: seq<Row>, sep: char)
    requires sep != '\n'
    requires Free(headers, rows, '\n')
    ensures var lines := Split(ExportText(headers, rows, [sep]), '\n');
      && |lines| == 1 + |rows|
      && lines[0] == Join(Captions(headers), [sep])
      && forall i :: 0 <= i < |rows| ==> lines[i + 1] == Join(Fields(rows[i], headers), [sep])
  {
    var lines := Lines(headers, rows, [sep]);
    forall k | 0 <= k < |lines| ensures '\n' !in lines[k] {
      if k == 0 {
        JoinFree(Captions(headers), sep, '\n');
      } else {
        JoinFree(Fields(rows[k - 1], headers), sep, '\n');
      }
    }
    SplitJoin(lines, '\n');
  }

  /** CSV layout: `1 + |sorted|` lines, each splitting at commas into the
      labels or the row's cells in column order, null cells as empty fields. */
  lemma CsvLayout(headers: seq<Header>, sorted: seq<Row>)
    requires |headers| >= 1
    requires Free(headers, sorted, '\n') && Free(headers, sorted, ',')
    ensures var lines := Split(ExportCsv(headers, sorted), '\n');
      && |lines| == 1 + |sorted|
      && Split(lines[0], ',') == Captions(headers)
      && forall i :: 0 <= i < |sorted| ==> Split(lines[i + 1], ',') == Fields(sorted[i], headers)
  {
    ExportLayout(headers, sorted, ',');
    FieldsLayoutAll(headers, sorted, ',');
  }

  /** Excel layout: a leading byte-order mark, then the CSV layout with tabs. */
  lemma XlsLayout(headers: seq<Header>, sorted: seq<Row>)
    requires |headers| >= 1
    requires Free(headers, sorted, '\n') && Free(headers, sorted, '\t')
    ensures ExportXls(headers, sorted)[0] == ByteOrderMark
    ensures var lines := Split(ExportXls(headers, sorted)[1..], '\n');
      && |lines| == 1 + |sorted|
      && Split(lines[0], '\t') == Captions(headers)
      && forall i :: 0 <= i < |sorted| ==> Split(lines[i + 1], '\t') == Fields(sorted[i], headers)
  {
    assert ExportXls(headers, sorted)[1..] == ExportText(headers, sorted, "\t");
    ExportLayout(headers, sorted, '\t');
    FieldsLayoutAll(headers, sorted, '\t');
  }

  /** With at least one column and no separator inside labels or cells, each
      line splits at the separator into exactly its labels or cell texts. */
  lemma FieldsLayoutAll(headers: seq<Header>, rows: seq<Row>, sep: char)
    requires |headers| >= 1
    requires Free(headers, rows, sep)
    ensures Split(Join(Captions(headers), [sep]), sep) == Captions(headers)
    ensures forall i :: 0 <= i < |rows| ==>
      Split(Join(Fields(rows[i], headers), [sep]), sep) == Fields(rows[i], headers)
  {
    SplitJoin(Captions(headers), sep);
    forall i | 0 <= i < |rows|
      ensures Split(Join(Fields(rows[i], headers), [sep]), sep) == Fields(rows[i], headers)
    {
      SplitJoin(Fields(rows[i], headers), sep);
    }
  }

  /** Headers `A`/`B` over the row `{a: 1, b: 2}` export as `"A,B\n1,2"`. */
  lemma SmallCsvExample()
    ensures ExportCsv([Header("a", "A", false), Header("b", "B", false)],
                      [map["a" := Value("1", 1), "b" := Value("2", 2)]]) == "A,B\n1,2"
  {
    var headers := [Header("a", "A", false), Header("b", "B", false)];
    var row := map["a" := Value("1", 1), "b" := Value("2", 2)];
    assert Captions(headers) == ["A", "B"];
    assert Fields(row, headers) == ["1", "2"];
    assert Join(["A", "B"], ",") == "A,B";
    assert Join(["1", "2"], ",") == "1,2";
    assert Lines(headers, [row], ",") == ["A,B", "1,2"];
    assert Join(["A,B", "1,2"], "\n") == "A,B\n1,2";
  }
}
