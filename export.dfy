/**
 * The layout arithmetic of the export handlers: an empty store is refused,
 * and otherwise every worksheet column is made as wide as its longest cell
 * plus 2.
 */
module Export {
  import opened Wrappers
  import opened Records

  /** The header row written over the columns, `df.columns = [...]`. */
  function Header(line: ProductLine): seq<string>
  {
    match line
    case Imou => ["STT", "SN", "SC", "PID", "NOTE"]
    case _ => ["STT", "SN", "NOTE"]
  }

  function DigitChar(d: nat): char
    requires d < 10
  {
    "0123456789"[d]
  }

  function Digits(n: nat): string
    decreases n
  {
    if n < 10 then [DigitChar(n)] else Digits(n / 10) + [DigitChar(n % 10)]
  }

  /** `str(n)` for an integer. */
  function DecimalText(n: int): string
  {
    if n < 0 then "-" + Digits(-n) else Digits(n)
  }

  /** `str(cell.value)` for one data cell: the number `stt` in decimal, a
      text field as it is, a missing field as the empty cell. */
  function CellText(r: Record, column: string): string
  {
    if column == "stt" then DecimalText(r.stt) else Field(r, column)
  }

  /** `worksheet.columns`: one sequence of cell texts per column, the header
      cell first and then the data cells in record order. */
  function SheetColumns(line: ProductLine, records: seq<Record>): (columns: seq<seq<string>>)
    ensures |columns| == |Columns(line)|
    ensures forall c | 0 <= c < |columns| :: |columns[c]| == |records| + 1 && columns[c][0] == Header(line)[c]
    ensures forall c, i | 0 <= c < |columns| && 0 <= i < |records| ::
              columns[c][i + 1] == CellText(records[i], Columns(line)[c])
  {
    var cols := Columns(line);
    seq(|cols|, c requires 0 <= c < |cols| =>
      [Header(line)[c]] + seq(|records|, i requires 0 <= i < |records| => CellText(records[i], cols[c])))
  }

  /** The width loop: `max_length` runs over the cells of each column and
      the column gets `max_length + 2`. The width covers every cell of its
      column and is reached by one of them (2 for a column without cells). */
  method ColumnWidths(columns: seq<seq<string>>) returns (widths: seq<int>)
    ensures |widths| == |columns|
    ensures forall c, k | 0 <= c < |columns| && 0 <= k < |columns[c]| :: |columns[c][k]| + 2 <= widths[c]
    ensures forall c | 0 <= c < |columns| ::
              || (columns[c] == [] && widths[c] == 2)
              || (exists k | 0 <= k < |columns[c]| :: widths[c] == |columns[c][k]| + 2)
  {
    widths := [];
    for c := 0 to |columns|
      invariant |widths| == c
      invariant forall c', k | 0 <= c' < c && 0 <= k < |columns[c']| :: |columns[c'][k]| + 2 <= widths[c']
      invariant forall c' | 0 <= c' < c ::
                  || (columns[c'] == [] && widths[c'] == 2)
                  || (exists k | 0 <= k < |columns[c']| :: widths[c'] == |columns[c'][k]| + 2)
    {
      var cells := columns[c];
      var maxLength := 0;
      for k := 0 to |cells|
        invariant forall k' | 0 <= k' < k :: |cells[k']| <= maxLength
        invariant (k == 0 && maxLength == 0) || (exists k' | 0 <= k' < k :: maxLength == |cells[k']|)
      {
        if |cells[k]| > maxLength {
          maxLength := |cells[k]|;
        }
      }
      widths := widths + [maxLength + 2];
    }
  }

  /** The export handler up to the workbook: `None` (nothing to export) for
      an empty store, otherwise the width of every column, which is at least
      its header length + 2 and at least every data cell's length + 2, and
      equals one of those. */
  method ExportWidths(line: ProductLine, records: seq<Record>) returns (r: Option<seq<int>>)
    ensures r.None? <==> records == []
    ensures r.Some? ==> |r.value| == |Columns(line)|
    ensures r.Some? ==> forall c | 0 <= c < |Columns(line)| :: |Header(line)[c]| + 2 <= r.value[c]
    ensures r.Some? ==> forall c, i | 0 <= c < |Columns(line)| && 0 <= i < |records| ::
                          |CellText(records[i], Columns(line)[c])| + 2 <= r.value[c]
    ensures r.Some? ==> forall c | 0 <= c < |Columns(line)| ::
                          || r.value[c] == |Header(line)[c]| + 2
                          || exists i | 0 <= i < |records| :: r.value[c] == |CellText(records[i], Columns(line)[c])| + 2
  {
    if records == [] {
      return None;
    }
    var columns := SheetColumns(line, records);
    var widths := ColumnWidths(columns);
    forall c, i | 0 <= c < |Columns(line)| && 0 <= i < |records|
      ensures |CellText(records[i], Columns(line)[c])| + 2 <= widths[c]
    {
      assert columns[c][i + 1] == CellText(records[i], Columns(line)[c]);
    }
    forall c | 0 <= c < |Columns(line)|
      ensures || widths[c] == |Header(line)[c]| + 2
              || exists i | 0 <= i < |records| :: widths[c] == |CellText(records[i], Columns(line)[c])| + 2
    {
      var k :| 0 <= k < |columns[c]| && widths[c] == |columns[c][k]| + 2;
      if k > 0 {
        assert columns[c][(k - 1) + 1] == CellText(records[k - 1], Columns(line)[c]);
      }
    }
    r := Some(widths);
  }
}
