/** The playing field: a square of tileCount x tileCount cells whose walls let the
    snake pass through to the opposite edge. */
module Grid {

  /** A cell of the field, by column `x` and row `y`. */
  datatype Cell = Cell(x: int, y: int)

  predicate OnGrid(c: Cell, n: int) {
    0 <= c.x < n && 0 <= c.y < n
  }

  predicate AllOnGrid(cells: seq<Cell>, n: int) {
    forall i :: 0 <= i < |cells| ==> OnGrid(cells[i], n)
  }

  /** No cell occurs twice. */
  predicate Distinct(cells: seq<Cell>) {
    forall i, j :: 0 <= i < j < |cells| ==> cells[i] != cells[j]
  }

  /** One of the four unit moves (0,-1), (0,1), (-1,0), (1,0). */
  predicate IsUnit(dx: int, dy: int) {
    (dx == 0 && (dy == 1 || dy == -1)) || (dy == 0 && (dx == 1 || dx == -1))
  }

  /** Pass-through wall on one axis: first a negative coordinate is sent to the
      last column, then one at or past the edge is sent to column 0. Whatever the
      input, the result lies on the field; within one step of it, the result is
      the coordinate taken modulo the field size. */
  function Wrap(c: int, n: int): (r: int)
    requires n > 0
    ensures 0 <= r < n
    ensures -1 <= c <= n ==> r == c % n
    ensures 0 <= c < n ==> r == c
  {
    var a := if c < 0 then n - 1 else c;
    if a >= n then 0 else a
  }

  /** The cell reached from `c` by the move (dx, dy) on the torus. */
  function Step(c: Cell, dx: int, dy: int, n: int): (r: Cell)
    requires n > 0
    ensures OnGrid(r, n)
    ensures OnGrid(c, n) && -1 <= dx <= 1 && -1 <= dy <= 1 ==>
              r == Cell((c.x + dx) % n, (c.y + dy) % n)
  {
    Cell(Wrap(c.x + dx, n), Wrap(c.y + dy, n))
  }

  lemma PrependDistinct(h: Cell, cells: seq<Cell>)
    requires Distinct(cells) && h !in cells
    ensures Distinct([h] + cells)
  {
    var t := [h] + cells;
    forall i, j | 0 <= i < j < |t| ensures t[i] != t[j] {
      if i == 0 {
        assert t[j] == cells[j - 1];
      } else {
        assert t[i] == cells[i - 1] && t[j] == cells[j - 1];
      }
    }
  }

  lemma PrefixDistinct(cells: seq<Cell>, k: nat)
    requires Distinct(cells) && k <= |cells|
    ensures Distinct(cells[..k])
  {
  }
}
