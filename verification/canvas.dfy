/**
 The drawing surface of one room: a square grid of colour strings, indexed
 `board[x][y]`, created filled with a background colour and changed one cell
 at a time by pixel updates.
 */
module Canvas {

  /** A colour as the client sends it, e.g. "#ff0000"; the server never inspects it. */
  type Color = string

  /** A board is a sequence of rows; `b[x][y]` is the cell at (x, y). */
  type Board = seq<seq<Color>>

  /** Number of rows, and of cells per row, of every board. */
  const Width: nat := 15

  /** Colour of every cell of a freshly created board. */
  const Background: Color := "#23272a"

  /** `b` has `Width` rows of `Width` cells each. */
  predicate IsGrid(b: Board) {
    |b| == Width && forall x :: 0 <= x < |b| ==> |b[x]| == Width
  }

  /** (x, y) lies on a `Width` by `Width` grid. */
  predicate InRange(x: int, y: int) {
    0 <= x < Width && 0 <= y < Width
  }

  /**
   `b[x][y]` names a cell that already exists: writing it neither reads a
   missing row nor appends past the end of a row.
   */
  predicate HasCell(b: Board, x: int, y: int) {
    0 <= x < |b| && 0 <= y < |b[x]|
  }

  /** Every cell of `b` holds `c`. */
  predicate Uniform(b: Board, c: Color) {
    forall x, y :: 0 <= x < |b| && 0 <= y < |b[x]| ==> b[x][y] == c
  }

  /** Two boards have the same number of rows and each row the same length. */
  predicate SameShape(a: Board, b: Board) {
    |a| == |b| && forall x :: 0 <= x < |a| ==> |a[x]| == |b[x]|
  }

  /** The board of a newly created room. */
  function Blank(): (b: Board)
    ensures IsGrid(b)
    ensures Uniform(b, Background)
  {
    seq(Width, _ => seq(Width, _ => Background))
  }

  /** The grid and the colour determine the board: `Blank` is the only blank grid. */
  lemma BlankIsUnique(b: Board)
    requires IsGrid(b) && Uniform(b, Background)
    ensures b == Blank()
  {
    var e := Blank();
    forall x | 0 <= x < Width
      ensures b[x] == e[x]
    {
      assert |b[x]| == |e[x]|;
      forall y | 0 <= y < Width
        ensures b[x][y] == e[x][y]
      {
      }
    }
  }

  /**
   The two nested loops that allocate a board and paint every cell with the
   background colour, row by row.
   */
  method NewBoard() returns (b: Board)
    ensures IsGrid(b)
    ensures Uniform(b, Background)
    ensures b == Blank()
  {
    var rows: seq<seq<Color>> := [];
    var x := 0;
    while x < Width
      invariant 0 <= x <= Width
      invariant |rows| == x
      invariant forall i :: 0 <= i < x ==> |rows[i]| == Width
      invariant Uniform(rows, Background)
    {
      var row: seq<Color> := [];
      var y := 0;
      while y < Width
        invariant 0 <= y <= Width
        invariant |row| == y
        invariant forall j :: 0 <= j < y ==> row[j] == Background
      {
        row := row + [Background];
        y := y + 1;
      }
      rows := rows + [row];
      x := x + 1;
    }
    b := rows;
    BlankIsUnique(b);
  }

  /** The write `board[x][y] = c` on a cell that exists. */
  function SetCell(b: Board, x: int, y: int, c: Color): (r: Board)
    requires HasCell(b, x, y)
    ensures SameShape(r, b)
    ensures r[x][y] == c
    ensures forall i, j :: 0 <= i < |b| && 0 <= j < |b[i]| && (i, j) != (x, y) ==> r[i][j] == b[i][j]
  {
    b[x := b[x][y := c]]
  }

  /** A write inside the grid keeps it a `Width` by `Width` grid. */
  lemma SetCellKeepsGrid(b: Board, x: int, y: int, c: Color)
    requires IsGrid(b) && InRange(x, y)
    ensures HasCell(b, x, y)
    ensures IsGrid(SetCell(b, x, y, c))
  {
  }

  /** Reading back a written cell yields the written colour; a second write to the same cell wins. */
  lemma LastWriteWins(b: Board, x: int, y: int, c1: Color, c2: Color)
    requires HasCell(b, x, y)
    ensures SetCell(SetCell(b, x, y, c1), x, y, c2) == SetCell(b, x, y, c2)
  {
    var once := SetCell(b, x, y, c1);
    assert once[x][y := c2] == b[x][y := c2];
  }
}
