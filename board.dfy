// Geometry of the 2x2 board drawn by draw_game_board and draw_quadrant.

module Board {

  const QUAD_WIDTH: int := 15
  const QUAD_HEIGHT: int := 7

  datatype Point = Point(x: int, y: int)

  /**
   * Top-left corner of quadrant `i`: odd quadrants sit in the left column,
   * quadrants 1 and 2 in the top row.
   */
  function QuadrantOrigin(startx: int, starty: int, i: int): (p: Point)
    requires 1 <= i <= 4
    ensures p.x == startx + ((i - 1) % 2) * QUAD_WIDTH
    ensures p.y == starty + ((i - 1) / 2) * QUAD_HEIGHT
  {
    Point(if i % 2 != 0 then startx else startx + QUAD_WIDTH,
          if i <= 2 then starty else starty + QUAD_HEIGHT)
  }

  /** draw_quadrant fills QUAD_WIDTH columns and QUAD_HEIGHT rows from the origin. */
  predicate InQuadrant(startx: int, starty: int, i: int, x: int, y: int)
    requires 1 <= i <= 4
  {
    var o := QuadrantOrigin(startx, starty, i);
    o.x <= x < o.x + QUAD_WIDTH && o.y <= y < o.y + QUAD_HEIGHT
  }

  predicate OnBoard(startx: int, starty: int, x: int, y: int) {
    startx <= x < startx + 2 * QUAD_WIDTH && starty <= y < starty + 2 * QUAD_HEIGHT
  }

  /** The quadrant a board cell belongs to, read off its column and row. */
  function QuadrantAt(startx: int, starty: int, x: int, y: int): (i: int)
    requires OnBoard(startx, starty, x, y)
    ensures 1 <= i <= 4
    ensures InQuadrant(startx, starty, i, x, y)
  {
    1 + (if x < startx + QUAD_WIDTH then 0 else 1) + (if y < starty + QUAD_HEIGHT then 0 else 2)
  }

  /** The four origins are pairwise distinct. */
  lemma QuadrantOriginsDistinct(startx: int, starty: int, i: int, j: int)
    requires 1 <= i <= 4 && 1 <= j <= 4 && i != j
    ensures QuadrantOrigin(startx, starty, i) != QuadrantOrigin(startx, starty, j)
  {
  }

  /**
   * The quadrants tile the board: a cell on the board lies in exactly one
   * quadrant, and a cell off the board lies in none.
   */
  lemma QuadrantsTile(startx: int, starty: int, x: int, y: int)
    ensures OnBoard(startx, starty, x, y) ==>
      forall i :: 1 <= i <= 4 ==> (InQuadrant(startx, starty, i, x, y) <==> i == QuadrantAt(startx, starty, x, y))
    ensures !OnBoard(startx, starty, x, y) ==>
      forall i :: 1 <= i <= 4 ==> !InQuadrant(startx, starty, i, x, y)
  {
  }
}
