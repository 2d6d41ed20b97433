/** Board geometry of the snake game: a 400 x 400 canvas cut into 20-pixel cells. */
module Grid {

  const SIZE := 20
  const WIDTH := 400
  const HEIGHT := 400
  const COLS := WIDTH / SIZE
  const ROWS := HEIGHT / SIZE

  /** A cell (column x, row y), or a unit step between cells. */
  datatype Point = Point(x: int, y: int)

  const Up := Point(0, -1)
  const Down := Point(0, 1)
  const Left := Point(-1, 0)
  const Right := Point(1, 0)

  /** The four steps a key can ask for. */
  predicate IsDirection(d: Point) {
    d == Up || d == Down || d == Left || d == Right
  }

  /** `OPPOSITE`: the two vectors cancel out. */
  predicate Opposite(a: Point, b: Point)
    ensures Opposite(a, b) <==> b == Point(-a.x, -a.y)
    ensures Opposite(a, b) <==> a == Point(-b.x, -b.y)
  {
    a.x + b.x == 0 && a.y + b.y == 0
  }

  function Add(p: Point, d: Point): Point {
    Point(p.x + d.x, p.y + d.y)
  }

  predicate InBounds(p: Point) {
    0 <= p.x < COLS && 0 <= p.y < ROWS
  }

  /** No direction is opposite to itself, so a repeated key is always queued. */
  lemma NotOppositeToItself(d: Point)
    requires IsDirection(d)
    ensures !Opposite(d, d)
  {
  }
}
