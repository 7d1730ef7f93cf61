/** Images as immutable in-memory pixel grids.  A grid is stored column by
    column, so that `At(im, x, y)` is the pixel PIL's pixel access gives at
    (x, y): `x` is the column (0 <= x < width), `y` the row. */
module Images {

  datatype Grid<T> = Grid(width: nat, height: nat, columns: seq<seq<T>>)

  /** A well-formed image: `width` columns of `height` pixels each. */
  type Image<T> = g: Grid<T>
    | |g.columns| == g.width && forall x | 0 <= x < g.width :: |g.columns[x]| == g.height
    witness Grid(0, 0, [])

  predicate InBounds<T>(im: Image<T>, x: nat, y: nat) {
    x < im.width && y < im.height
  }

  function At<T>(im: Image<T>, x: nat, y: nat): T
    requires InBounds(im, x, y)
  {
    im.columns[x][y]
  }
}
