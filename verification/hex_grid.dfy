/** The grid of one frame: an offset-coordinate honeycomb whose rows run from
    -1 to `Rows - 1` and whose columns run from -1 to `Cols - 1`, with every
    odd row shifted by half a column.
 */
module HexGrid {
  const HexRadius: real := 25.0
  const HexHeight: real := HexRadius * 2.0
  /** Vertical distance between the centres of adjacent rows. */
  const VertDist: real := HexHeight * 0.75
  /** Horizontal distance between the centres of adjacent columns,
      sqrt(3) times the radius. The square root is irrational; this is the
      double that `Math.sqrt(3) * 25` evaluates to, written out exactly. */
  const HexWidth: real := 43.30127018922193116168273263610899448394775390625

  /** A cell in offset coordinates. */
  datatype Cell = Cell(row: int, col: int)

  datatype Point = Point(x: real, y: real)

  function Abs(x: real): real {
    if x < 0.0 then -x else x
  }

  /** The least integer not below `x`. */
  function Ceil(x: real): (c: int)
    ensures c as real - 1.0 < x <= c as real
  {
    -((-x).Floor)
  }

  /** JavaScript's `row % 2`: the remainder is truncated toward zero, so it
      carries the sign of the row (-1 % 2 is -1, where Dafny's % gives 1). */
  function TruncRem2(row: int): (m: int)
    ensures -1 <= m <= 1
    ensures m == 0 <==> row % 2 == 0
    ensures row >= 0 ==> m >= 0
    ensures row < 0 ==> m <= 0
  {
    if row >= 0 then row % 2 else -((-row) % 2)
  }

  /** Exclusive upper bound of the column loop: the fewest columns whose
      widths reach `width`, plus two. */
  function Cols(width: nat): (c: int)
    ensures c >= 2
    ensures (c - 3) as real * HexWidth < width as real <= (c - 2) as real * HexWidth
  {
    Ceil(width as real / HexWidth) + 2
  }

  /** Exclusive upper bound of the row loop: the fewest row distances that
      reach `height`, plus two. */
  function Rows(height: nat): (r: int)
    ensures r >= 2
    ensures (r - 3) as real * VertDist < height as real <= (r - 2) as real * VertDist
  {
    Ceil(height as real / VertDist) + 2
  }

  /** Horizontal shift of a row: half a column to the right on positive odd
      rows, to the left on negative odd rows, none on even rows. */
  function RowOffset(row: int): (off: real)
    ensures -HexWidth / 2.0 <= off <= HexWidth / 2.0
    ensures row % 2 == 0 <==> off == 0.0
    ensures row % 2 != 0 ==> off == (if row > 0 then HexWidth / 2.0 else -HexWidth / 2.0)
  {
    var m := TruncRem2(row);
    if m == 0 then 0.0
    else if m == 1 then HexWidth / 2.0
    else -HexWidth / 2.0
  }

  /** Centre of a cell: `col` column widths across, shifted by the row's
      offset, and `row` row distances down. */
  function Centre(c: Cell): (p: Point)
    ensures Abs(p.x - c.col as real * HexWidth) <= HexWidth / 2.0
    ensures c.row % 2 == 0 <==> p.x == c.col as real * HexWidth
    ensures p.y == c.row as real * VertDist
  {
    Point(c.col as real * HexWidth + RowOffset(c.row), RowY(c.row))
  }

  /** Vertical position of the centres of a row. */
  function RowY(row: int): real {
    row as real * VertDist
  }

  predicate InGrid(c: Cell, width: nat, height: nat)
  {
    -1 <= c.row < Rows(height) && -1 <= c.col < Cols(width)
  }

  /** Row-major order: the order in which the frame visits the cells. */
  predicate Before(a: Cell, b: Cell) {
    a.row < b.row || (a.row == b.row && a.col < b.col)
  }

  /** The cells a frame draws, in the order it draws them. */
  method GridCells(width: nat, height: nat) returns (cells: seq<Cell>)
    ensures forall c :: c in cells <==> InGrid(c, width, height)
    ensures |cells| == (Rows(height) + 1) * (Cols(width) + 1)
    ensures forall i, j :: 0 <= i < j < |cells| ==> Before(cells[i], cells[j])
  {
    var rows := Rows(height);
    var cols := Cols(width);
    cells := [];
    var r := -1;
    while r < rows
      invariant -1 <= r <= rows
      invariant forall c :: c in cells <==> -1 <= c.row < r && -1 <= c.col < cols
      invariant |cells| == (r + 1) * (cols + 1)
      invariant forall i :: 0 <= i < |cells| ==> cells[i].row < r
      invariant forall i, j :: 0 <= i < j < |cells| ==> Before(cells[i], cells[j])
    {
      var q := -1;
      while q < cols
        invariant -1 <= q <= cols
        invariant forall c :: c in cells <==>
                    (-1 <= c.row < r && -1 <= c.col < cols) || (c.row == r && -1 <= c.col < q)
        invariant |cells| == (r + 1) * (cols + 1) + (q + 1)
        invariant forall i :: 0 <= i < |cells| ==> Before(cells[i], Cell(r, q))
        invariant forall i, j :: 0 <= i < j < |cells| ==> Before(cells[i], cells[j])
      {
        cells := cells + [Cell(r, q)];
        q := q + 1;
      }
      assert (r + 1) * (cols + 1) + (cols + 1) == (r + 2) * (cols + 1);
      r := r + 1;
    }
  }

  /** Neighbours in a row are one column width apart, and away from row -1
      the stagger repeats every second row. */
  lemma Stagger(row: int, col: int)
    ensures Centre(Cell(row, col + 1)).x == Centre(Cell(row, col)).x + HexWidth
    ensures row >= 0 ==> Centre(Cell(row + 2, col)).x == Centre(Cell(row, col)).x
  {
  }

  /** Row -1 is shifted left where row 1 is shifted right, so its centres
      sit one column to the left of those of row 1: with JavaScript's `%`
      the stagger is still a honeycomb, only counted from another column. */
  lemma RowMinusOneShift(col: int)
    ensures Centre(Cell(-1, col)).x == Centre(Cell(1, col - 1)).x
    ensures Centre(Cell(-1, col)).x == Centre(Cell(1, col)).x - HexWidth
  {
  }

  /** The top row of centres lies one row above the canvas and the bottom
      row at least one row below it. */
  lemma VerticalMargin(height: nat, col: int)
    ensures Centre(Cell(-1, col)).y == -VertDist
    ensures Centre(Cell(Rows(height) - 1, col)).y >= height as real + VertDist
  {
    var k := Ceil(height as real / VertDist);
    assert k as real * VertDist >= height as real;
    assert (k + 1) as real * VertDist == k as real * VertDist + VertDist;
  }

  /** In every row the first centre lies at least half a column left of the
      canvas and the last at least half a column right of it. */
  lemma HorizontalMargin(width: nat, row: int)
    ensures Centre(Cell(row, -1)).x <= -HexWidth / 2.0
    ensures Centre(Cell(row, Cols(width) - 1)).x >= width as real + HexWidth / 2.0
  {
    var k := Ceil(width as real / HexWidth);
    assert k as real * HexWidth >= width as real;
  }

  /** Every point of the canvas lies within half a row of the centre line of
      some row the frame draws. */
  lemma RowsCoverCanvas(height: nat, y: real)
    requires 0.0 <= y <= height as real
    ensures exists r :: -1 <= r < Rows(height) && Abs(y - RowY(r)) <= VertDist / 2.0
  {
    var r := (y / VertDist + 0.5).Floor;
    assert r as real <= y / VertDist + 0.5 < r as real + 1.0;
    assert 0 <= r < Rows(height);
    assert Abs(y - RowY(r)) <= VertDist / 2.0;
  }

  /** Every point of a row's span lies within half a column of the centre of
      some cell of that row the frame draws. */
  lemma ColumnsCoverCanvas(width: nat, row: int, x: real)
    requires 0.0 <= x <= width as real
    ensures exists q :: -1 <= q < Cols(width) &&
              Abs(x - Centre(Cell(row, q)).x) <= HexWidth / 2.0
  {
    var off := RowOffset(row);
    var q := ((x - off) / HexWidth + 0.5).Floor;
    assert q as real <= (x - off) / HexWidth + 0.5 < q as real + 1.0;
    var k := Ceil(width as real / HexWidth);
    assert -1 <= q <= k + 1;
    assert Abs(x - Centre(Cell(row, q)).x) <= HexWidth / 2.0;
  }

  /** The canvas is covered: every point lies within half a column and half a
      row of the centre of some drawn cell. */
  lemma GridCoversCanvas(width: nat, height: nat, p: Point)
    requires 0.0 <= p.x <= width as real && 0.0 <= p.y <= height as real
    ensures exists c :: InGrid(c, width, height) &&
              Abs(p.x - Centre(c).x) <= HexWidth / 2.0 &&
              Abs(p.y - Centre(c).y) <= VertDist / 2.0
  {
    RowsCoverCanvas(height, p.y);
    var r :| -1 <= r < Rows(height) && Abs(p.y - RowY(r)) <= VertDist / 2.0;
    ColumnsCoverCanvas(width, r, p.x);
    var q :| -1 <= q < Cols(width) && Abs(p.x - Centre(Cell(r, q)).x) <= HexWidth / 2.0;
    assert InGrid(Cell(r, q), width, height);
  }
}
