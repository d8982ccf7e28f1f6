/**
 * The data preview table: ten rows per page, page clamping for the Previous
 * and Next buttons, and the CSV text offered for download.
 */
module DataPreview {
  import Text

  /** A cell value: a string, a number (integers here), or nothing when the row lacks the field. */
  datatype Cell = Str(s: string) | Num(n: int) | Absent

  /** A data point maps field names to values. */
  type Row = map<string, Cell>

  const ItemsPerPage: nat := 10

  function CellOf(row: Row, field: string): Cell {
    if field in row then row[field] else Absent
  }

  /** `Math.ceil(n / 10)`. */
  function TotalPages(n: nat): (t: nat)
    ensures n == 0 <==> t == 0
    ensures n > 0 ==> (t - 1) * ItemsPerPage < n <= t * ItemsPerPage
  {
    (n + ItemsPerPage - 1) / ItemsPerPage
  }

  /** `data.slice(start, end)` for 0 <= start <= end. */
  function Slice<T>(data: seq<T>, start: nat, end: nat): (r: seq<T>)
    requires start <= end
    ensures |r| == if start >= |data| then 0 else (if end >= |data| then |data| else end) - start
    ensures forall k :: 0 <= k < |r| ==> start + k < |data| && r[k] == data[start + k]
  {
    if start >= |data| then [] else if end >= |data| then data[start..] else data[start..end]
  }

  /** The rows shown on page `page` (counted from 1). */
  function PageRows<T>(data: seq<T>, page: nat): (r: seq<T>)
    requires page >= 1
    ensures |r| <= ItemsPerPage
    ensures forall k :: 0 <= k < |r| ==>
      (page - 1) * ItemsPerPage + k < |data| && r[k] == data[(page - 1) * ItemsPerPage + k]
  {
    var start := (page - 1) * ItemsPerPage;
    Slice(data, start, start + ItemsPerPage)
  }

  /** The Previous button's update. */
  function PrevPage(p: int): (q: int)
    ensures q >= 1
    ensures p >= 2 ==> q == p - 1
    ensures p < 2 ==> q == 1
  {
    if 1 > p - 1 then 1 else p - 1
  }

  /** The Next button's update. */
  function NextPage(p: int, total: nat): (q: int)
    ensures q <= total
    ensures p < total ==> q == p + 1
    ensures p >= total ==> q == total
  {
    if total < p + 1 then total else p + 1
  }

  /** Both buttons keep a page that lies in 1..total inside that range. */
  lemma PagingStaysInRange(p: int, total: nat)
    requires 1 <= p <= total
    ensures 1 <= PrevPage(p) <= total
    ensures 1 <= NextPage(p, total) <= total
    ensures p == 1 <==> PrevPage(p) == p
    ensures p == total <==> NextPage(p, total) == p
  {
  }

  /** What the component shows. */
  datatype View = NoData | Table(fields: seq<string>, rows: seq<Row>, controls: bool)

  function Render(data: seq<Row>, fields: seq<string>, page: nat): (v: View)
    requires page >= 1
    ensures data == [] <==> v == NoData
    ensures v.Table? ==> (v.controls <==> |data| > ItemsPerPage)
  {
    if |data| == 0 then NoData
    else Table(fields, PageRows(data, page), TotalPages(|data|) > 1)
  }

  /** Pages 1..k laid end to end. */
  function PagesUpTo<T>(data: seq<T>, k: nat): seq<T> {
    if k == 0 then [] else PagesUpTo(data, k - 1) + PageRows(data, k)
  }

  /** Walking through every page shows each row exactly once, in order. */
  lemma {:induction false} PagesCoverData<T>(data: seq<T>, k: nat)
    ensures PagesUpTo(data, k) == data[..if k * ItemsPerPage <= |data| then k * ItemsPerPage else |data|]
  {
    if k > 0 {
      PagesCoverData(data, k - 1);
    }
  }

  lemma AllPagesReproduceData<T>(data: seq<T>)
    ensures PagesUpTo(data, TotalPages(|data|)) == data
  {
    PagesCoverData(data, TotalPages(|data|));
  }

  /** A page past the last one shows nothing. */
  lemma PagePastEndIsEmpty<T>(data: seq<T>, page: nat)
    requires page > TotalPages(|data|)
    ensures PageRows(data, page) == []
  {
  }

  // ---------------------------------------------------------------------------
  // CSV download
  // ---------------------------------------------------------------------------

  /** One CSV field: a string containing a comma is wrapped in quotes (inner quotes are left as they are). */
  function CsvCell(c: Cell): string {
    match c
    case Str(s) => if Text.Contains(s, ",") then "\"" + s + "\"" else s
    case Num(n) => Text.IntToString(n)
    case Absent => ""
  }

  function CsvCells(row: Row, fields: seq<string>): (r: seq<string>)
    ensures |r| == |fields|
    ensures forall k :: 0 <= k < |fields| ==> r[k] == CsvCell(CellOf(row, fields[k]))
  {
    if fields == [] then []
    else
      var rest := CsvCells(row, fields[1..]);
      assert forall k :: 1 <= k < |fields| ==> fields[k] == fields[1..][k - 1];
      [CsvCell(CellOf(row, fields[0]))] + rest
  }

  function CsvLine(row: Row, fields: seq<string>): string {
    Text.Join(CsvCells(row, fields), ",")
  }

  function CsvLines(data: seq<Row>, fields: seq<string>): (r: seq<string>)
    ensures |r| == |data|
    ensures forall k :: 0 <= k < |data| ==> r[k] == CsvLine(data[k], fields)
  {
    if data == [] then [] else [CsvLine(data[0], fields)] + CsvLines(data[1..], fields)
  }

  /** The header line followed by one line per row, separated by newlines. */
  function Csv(data: seq<Row>, fields: seq<string>): string {
    Text.Join([Text.Join(fields, ",")] + CsvLines(data, fields), "\n")
  }

  /** No newline anywhere in the field names or the string values. */
  predicate NoNewlines(data: seq<Row>, fields: seq<string>) {
    && (forall k :: 0 <= k < |fields| ==> '\n' !in fields[k])
    && (forall i, f :: 0 <= i < |data| && f in data[i] && data[i][f].Str? ==> '\n' !in data[i][f].s)
  }

  /** Rendering a number never produces a newline. */
  lemma NumberHasNoNewline(n: int)
    ensures '\n' !in Text.IntToString(n)
  {
    var r := Text.IntToString(n);
    var d := if n < 0 then Text.NatToString(-n) else Text.NatToString(n);
    assert forall i :: 0 <= i < |d| ==> Text.IsDigit(d[i]);
    if n < 0 {
      assert r == "-" + d;
    }
  }

  /** Joining pieces without a character gives text without it. */
  lemma {:induction false} JoinAvoids(parts: seq<string>, sep: string, c: char)
    requires c !in sep
    requires forall k :: 0 <= k < |parts| ==> c !in parts[k]
    ensures c !in Text.Join(parts, sep)
  {
    if |parts| > 1 {
      JoinAvoids(parts[1..], sep, c);
    }
  }

  /** A row's line has no newline when its values have none. */
  lemma LineHasNoNewline(data: seq<Row>, fields: seq<string>, i: nat)
    requires NoNewlines(data, fields) && i < |data|
    ensures '\n' !in CsvLine(data[i], fields)
  {
    var cells := CsvCells(data[i], fields);
    forall k | 0 <= k < |cells| ensures '\n' !in cells[k] {
      var c := CellOf(data[i], fields[k]);
      if c.Num? {
        NumberHasNoNewline(c.n);
      }
    }
    JoinAvoids(cells, ",", '\n');
  }

  /**
   * When no value or field name contains a newline, splitting the CSV on
   * newlines gives back the header and then each row's line, in data order.
   */
  lemma CsvLinesRoundTrip(data: seq<Row>, fields: seq<string>)
    requires NoNewlines(data, fields)
    ensures Text.SplitOn(Csv(data, fields), "\n") == [Text.Join(fields, ",")] + CsvLines(data, fields)
  {
    var lines := [Text.Join(fields, ",")] + CsvLines(data, fields);
    JoinAvoids(fields, ",", '\n');
    forall k | 0 <= k < |lines| ensures '\n' !in lines[k] {
      if k > 0 {
        LineHasNoNewline(data, fields, k - 1);
      }
    }
    Text.SplitJoinRoundTrip(lines, '\n');
  }

  /** Quoting is not escaping: a value holding a comma and a quote is emitted with its quote unchanged. */
  lemma QuotesAreNotEscaped()
    ensures CsvCell(Str("a,\"b")) == "\"a,\"b\""
  {
    assert Text.OccursAt("a,\"b", ",", 1);
  }
}
