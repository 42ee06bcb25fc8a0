/** The Minesweeper board: 81 cells stored row by row, so that a cell's
    index is `row * 9 + col`. This module holds the cell record, the row
    arithmetic the component uses to keep neighbours on the same row, and a
    reference geometry in rows and columns that the rest of the model is
    proved against. */
module Grid {

  const Width := 9
  const Size := 81
  const Mines := 10

  /** The text a cell carries. `Digits(n)` is the decimal rendering of `n`;
      `Flag` and `Bomb` stand for the two emoji the component uses. */
  datatype Content = Blank | Digits(n: int) | Flag | Bomb

  /** `meta` is -1 for a mine and the neighbour count otherwise. `isOpened` is
      set both for a revealed cell and for a flagged one. */
  datatype Cell = Cell(meta: int, content: Content, isOpened: bool)

  /** The text of a revealed cell, `String(meta || '')`: a zero shows nothing. */
  function Shown(meta: int): Content {
    if meta == 0 then Blank else Digits(meta)
  }

  /** A cell after it has been revealed. */
  function Revealed(c: Cell): Cell {
    Cell(c.meta, Shown(c.meta), true)
  }

  predicate OnBoard(i: int) {
    0 <= i < Size
  }

  function Abs(x: int): nat {
    if x < 0 then -x else x
  }

  /** Row of an index as the component computes it: `floor(|index| / 9)`. */
  function RowOf(index: int): nat {
    Abs(index) / Width
  }

  /** The component's guard for touching a neighbour: the index must be on
      the board and, unless `base` is the sentinel -1, on the row of `base`. */
  predicate InNeighbourRange(index: int, base: int) {
    if index < 0 || index > 80 then false
    else if base == -1 then true
    else RowOf(base) == RowOf(index)
  }

  // Reference geometry, stated in rows and columns rather than in the
  // component's index arithmetic.

  function Dist(a: int, b: int): nat {
    Abs(a - b)
  }

  /** The up to eight grid neighbours of a cell. */
  predicate Adjacent8(a: int, b: int) {
    && OnBoard(a) && OnBoard(b) && a != b
    && Dist(a / Width, b / Width) <= 1
    && Dist(a % Width, b % Width) <= 1
  }

  /** The up to four orthogonal grid neighbours of a cell. */
  predicate Adjacent4(a: int, b: int) {
    && OnBoard(a) && OnBoard(b)
    && Dist(a / Width, b / Width) + Dist(a % Width, b % Width) == 1
  }

  /** The guard only admits board cells, and with a real base it admits
      exactly the cells on the base's row: stepping one to the left or right
      of a board cell is admitted exactly when it does not wrap to another
      row. */
  lemma NoWraparound(index: int, base: int)
    requires OnBoard(base)
    ensures InNeighbourRange(index, -1) <==> OnBoard(index)
    ensures InNeighbourRange(index, base) <==> OnBoard(index) && index / Width == base / Width
    ensures InNeighbourRange(base - 1, base) <==> base % Width != 0
    ensures InNeighbourRange(base + 1, base) <==> base % Width != Width - 1
  {
  }

  /** The four calls of the reveal step, each with its own guard, reach
      exactly the orthogonal grid neighbours. */
  lemma FourNeighbours(i: int, n: int)
    requires OnBoard(i)
    ensures Adjacent4(i, n) <==>
      || (n == i - Width && InNeighbourRange(n, -1))
      || (n == i - 1 && InNeighbourRange(n, i))
      || (n == i + 1 && InNeighbourRange(n, i))
      || (n == i + Width && InNeighbourRange(n, -1))
  {
  }
}
