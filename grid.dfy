/** Positions, moves and cells of the maze, shared by the world state and the search.
    A grid is indexed `[y, x]`: rows first, as the numpy array of the game is. */
module Grid {

  datatype Option<T> = None | Some(value: T)

  /** A cell coordinate: column `x`, row `y`. */
  datatype Pos = Pos(x: int, y: int)

  /** A displacement `(dx, dy)`. */
  datatype Move = Move(dx: int, dy: int)

  /** The glyph of a wall cell. */
  const Wall := '%'
  /** The glyph of an open, empty cell. */
  const Open := '-'

  const Left := Move(-1, 0)
  const Right := Move(1, 0)
  const Up := Move(0, -1)
  const Down := Move(0, 1)

  /** The four moves of the 4-connected grid. */
  predicate IsUnit(m: Move)
  {
    m == Left || m == Right || m == Up || m == Down
  }

  function Step(p: Pos, m: Move): Pos
  {
    Pos(p.x + m.dx, p.y + m.dy)
  }

  lemma {:induction false} SquarePositive(k: int)
    ensures k * k >= 0
    ensures k * k == 0 <==> k == 0
  {
    if k > 0 {
      assert k * k >= k;
    } else if k < 0 {
      assert k * k == (-k) * (-k);
      assert (-k) * (-k) >= -k;
    }
  }

  /** Squared Euclidean distance, `Entity.dist` and the heuristic of the search. */
  function SqDist(a: Pos, b: Pos): (d: int)
    ensures d >= 0
  {
    SquarePositive(a.x - b.x);
    SquarePositive(a.y - b.y);
    (a.x - b.x) * (a.x - b.x) + (a.y - b.y) * (a.y - b.y)
  }

  /** The distance is zero exactly between a cell and itself, and it does not
      depend on the direction. */
  lemma SqDistZero(a: Pos, b: Pos)
    ensures SqDist(a, b) == 0 <==> a == b
    ensures SqDist(a, b) == SqDist(b, a)
  {
    SquarePositive(a.x - b.x);
    SquarePositive(a.y - b.y);
    assert (a.x - b.x) * (a.x - b.x) == (b.x - a.x) * (b.x - a.x);
    assert (a.y - b.y) * (a.y - b.y) == (b.y - a.y) * (b.y - a.y);
  }

  /** The cells `(0, y) .. (w - 1, y)`. */
  function Row(w: nat, y: int): (r: set<Pos>)
    ensures forall p :: p in r <==> 0 <= p.x < w && p.y == y
    ensures |r| == w
  {
    if w == 0 then {} else Row(w - 1, y) + {Pos(w - 1, y)}
  }

  /** All cells of a `w` by `h` grid. */
  function Box(w: nat, h: nat): (b: set<Pos>)
    ensures forall p :: p in b <==> 0 <= p.x < w && 0 <= p.y < h
    ensures |b| == w * h
  {
    if h == 0 then {}
    else
      var rest, row := Box(w, h - 1), Row(w, h - 1);
      assert rest * row == {};
      assert w * (h - 1) + w == w * h;
      rest + row
  }

  /** `p` is a cell of `grid`. */
  predicate InGrid(grid: array2<char>, p: Pos)
  {
    0 <= p.y < grid.Length0 && 0 <= p.x < grid.Length1
  }

  /** `p` is a cell of `grid` and not a wall: where the search may go. */
  predicate Passable(grid: array2<char>, p: Pos)
    reads grid
  {
    InGrid(grid, p) && grid[p.y, p.x] != Wall
  }
}
