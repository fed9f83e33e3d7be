/** A spreadsheet tab seen as rows of dynamically typed cells, with the three
    primitives the backend uses: reading the data range, appending a row and
    writing one cell. A sheet holds its rows up to the last non-empty one, so
    `getLastRow()` is the number of rows. */
module Sheets {

  datatype Cell = Blank | Text(s: string) | Number(r: real) | Bool(b: bool)

  type Row = seq<Cell>

  type Sheet = seq<Row>

  /** The cell in column `j` (0-based); beyond the row's end a cell is blank. */
  function CellAt(row: Row, j: nat): Cell {
    if j < |row| then row[j] else Blank
  }

  function MaxWidth(sh: Sheet): (w: nat)
    ensures forall i :: 0 <= i < |sh| ==> |sh[i]| <= w
  {
    if |sh| == 0 then 0
    else
      var w := MaxWidth(sh[..|sh| - 1]);
      assert forall i :: 0 <= i < |sh| - 1 ==> sh[i] == sh[..|sh| - 1][i];
      if |sh[|sh| - 1]| > w then |sh[|sh| - 1]| else w
  }

  /** The number of columns of the data range: the widest row, and at least
      one (the range of an empty sheet is the single cell A1). */
  function Width(sh: Sheet): (w: nat)
    ensures w >= 1
    ensures forall i :: 0 <= i < |sh| ==> |sh[i]| <= w
  {
    if MaxWidth(sh) == 0 then 1 else MaxWidth(sh)
  }

  function Pad(row: Row, w: nat): (r: Row)
    requires |row| <= w
    ensures |r| == w
    ensures forall j :: 0 <= j < w ==> r[j] == CellAt(row, j)
  {
    row + seq(w - |row|, _ => Blank)
  }

  /** `getDataRange().getValues()`: a rectangle of `Width` columns, every row
      padded with blank cells; an empty sheet reads as one blank cell. */
  function Values(sh: Sheet): (data: seq<Row>)
    ensures |data| == if |sh| == 0 then 1 else |sh|
    ensures forall i :: 0 <= i < |data| ==> |data[i]| == Width(sh)
    ensures forall i, j :: 0 <= i < |sh| && 0 <= j ==> CellAt(data[i], j) == CellAt(sh[i], j)
    ensures |sh| == 0 ==> forall j :: 0 <= j ==> CellAt(data[0], j) == Blank
  {
    var w := Width(sh);
    if |sh| == 0 then [[Blank]]
    else seq(|sh|, i requires 0 <= i < |sh| => Pad(sh[i], w))
  }

  /** `appendRow(row)`: the row goes right after the last row. */
  function AppendRow(sh: Sheet, row: Row): (r: Sheet)
    ensures |r| == |sh| + 1 && r[..|sh|] == sh && r[|sh|] == row
  {
    sh + [row]
  }

  /** `getRange(i + 1, j + 1).setValue(v)`: writes the cell in row `i`,
      column `j` (0-based); a short row grows with blank cells. */
  function SetValue(sh: Sheet, i: nat, j: nat, v: Cell): (r: Sheet)
    requires i < |sh|
    ensures |r| == |sh|
    ensures CellAt(r[i], j) == v
    ensures forall k :: 0 <= k < |r| && k != i ==> r[k] == sh[k]
    ensures forall c: nat :: c != j ==> CellAt(r[i], c) == CellAt(sh[i], c)
  {
    var row := sh[i];
    var row' := if j < |row| then row[j := v] else Pad(row, j + 1)[j := v];
    forall j': nat | j' != j ensures CellAt(row', j') == CellAt(row, j') {
      if j < |row| {
        assert |row'| == |row|;
      } else {
        assert |row'| == j + 1;
        if j' < j + 1 { assert row'[j'] == Pad(row, j + 1)[j']; }
      }
    }
    sh[i := row']
  }
}
