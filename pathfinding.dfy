/** The A* search of `pathfinding.py` over the character grid of a map, with the
    integer heuristic (the squared distance to the goal, no cells to avoid). */
module Pathfinding {
  import opened Seqs
  import opened Grid

  /** A search node. The source links a node to its parent object; here
      `parent` is the index of the parent among the nodes already expanded
      (the closed list), and `None` for the start node. */
  datatype Node = Node(parent: Option<nat>, pos: Pos, move: Option<Move>, g: int, h: int, f: int)

  /** `Node(pos=p)`: no parent, no move, and `g`, `h` and `f` zero. */
  function StartNode(p: Pos): Node
  {
    Node(None, p, None, 0, 0, 0)
  }

  /** `Node(parent=node, pos=node.pos + m, move=m)`, the parent being the node
      at index `at` of the closed list. */
  function Child(node: Node, m: Move, at: nat): (c: Node)
    ensures c.parent == Some(at) && c.move == Some(m)
    ensures IsUnit(m) ==> SqDist(c.pos, node.pos) == 1
  {
    Node(Some(at), Step(node.pos, m), Some(m), 0, 0, 0)
  }

  /** The cells of a list of nodes. `Node.__eq__` compares positions only, so
      `n in nodes` asks whether `n.pos` is in `Cells(nodes)`. */
  function Cells(ns: seq<Node>): set<Pos>
  {
    set n | n in ns :: n.pos
  }

  lemma CellsAppend(ns: seq<Node>, n: Node)
    ensures Cells(ns + [n]) == Cells(ns) + {n.pos}
  {
    assert forall m :: m in ns + [n] <==> m in ns || m == n;
  }

  /** The position of the four moves in the order `adjacent_nodes` tries them. */
  function Rank(m: Move): int
  {
    if m == Left then 0 else if m == Right then 1 else if m == Up then 2 else 3
  }

  /** A cell whose right and lower neighbours are cells of the grid, so that
      `adjacent_nodes` can read all four of its neighbours. */
  predicate Inner(grid: array2<char>, p: Pos)
  {
    0 <= p.x < grid.Length1 - 1 && 0 <= p.y < grid.Length0 - 1
  }

  ghost function InnerCells(grid: array2<char>): (s: set<Pos>)
    requires grid.Length0 > 0 && grid.Length1 > 0
    ensures forall p :: p in s <==> Inner(grid, p)
    ensures |s| == (grid.Length1 - 1) * (grid.Length0 - 1)
  {
    Box(grid.Length1 - 1, grid.Length0 - 1)
  }

  /** The last column and the last row of the grid are walls. */
  predicate WallBorder(grid: array2<char>)
    reads grid
  {
    && grid.Length0 > 0 && grid.Length1 > 0
    && forall y, x :: 0 <= y < grid.Length0 && 0 <= x < grid.Length1 ==>
         (x == grid.Length1 - 1 || y == grid.Length0 - 1) ==> grid[y, x] == Wall
  }

  lemma PassableInner(grid: array2<char>, p: Pos)
    requires WallBorder(grid) && Passable(grid, p)
    ensures Inner(grid, p)
  {
  }

  /** `min_node`: a node of minimal `f`, the first one in list order among
      equally small ones, since it is replaced only on a strictly smaller `f`. */
  method MinNode(open: seq<Node>) returns (node: Node, ghost at: nat)
    requires open != []
    ensures 0 <= at < |open| && node == open[at]
    ensures forall j :: 0 <= j < |open| ==> node.f <= open[j].f
    ensures forall j :: 0 <= j < at ==> open[j].f > node.f
  {
    node := open[0];
    at := 0;
    for i := 0 to |open|
      invariant 0 <= at < |open| && at <= i && node == open[at]
      invariant forall j :: 0 <= j < i ==> node.f <= open[j].f
      invariant forall j :: 0 <= j < at ==> open[j].f > node.f
    {
      if node.f > open[i].f {
        node := open[i];
        at := i;
      }
    }
  }

  /** The number of nodes of `ns` at cell `p`. */
  function Count(ns: seq<Node>, p: Pos): (c: nat)
    ensures c <= |ns|
    ensures c == 0 <==> p !in Cells(ns)
  {
    if ns == [] then 0
    else
      var rest, last := ns[..|ns| - 1], ns[|ns| - 1];
      assert ns == rest + [last];
      CellsAppend(rest, last);
      Count(rest, p) + if last.pos == p then 1 else 0
  }

  /** The list without the nodes at the cell of `node`, the others kept in
      their order. */
  function Purge(open: seq<Node>, node: Node): (r: seq<Node>)
    ensures forall n :: n in r <==> n in open && n.pos != node.pos
    ensures Subsequence(r, open)
    ensures |r| == |open| - Count(open, node.pos)
    decreases |open|
  {
    if open == [] then []
    else
      var rest, last := open[..|open| - 1], open[|open| - 1];
      assert open == rest + [last];
      var kept := Purge(rest, node);
      if last.pos == node.pos then
        SubsequenceOfPrefix(kept, open);
        kept
      else
        assert (kept + [last])[..|kept|] == kept;
        kept + [last]
  }

  lemma CellsRemove(open: seq<Node>, node: Node)
    ensures Cells(Purge(open, node)) == Cells(open) - {node.pos}
  {
    var r := Purge(open, node);
    forall p | p in Cells(open) - {node.pos} ensures p in Cells(r) {
      var n :| n in open && n.pos == p;
      assert n in r;
    }
  }

  /** Scanning one more node of `open` keeps it when it is at another cell. */
  lemma PurgeStep(open: seq<Node>, node: Node, i: nat)
    requires i < |open|
    ensures Purge(open[..i + 1], node)
         == Purge(open[..i], node) + (if open[i].pos != node.pos then [open[i]] else [])
  {
    assert open[..i + 1][..i] == open[..i];
  }

  /** `remove_node`: a fresh list of the nodes not at the cell of `node`, built
      by appending in one pass. */
  method RemoveNode(open: seq<Node>, node: Node) returns (r: seq<Node>)
    ensures r == Purge(open, node)
  {
    r := [];
    for i := 0 to |open|
      invariant r == Purge(open[..i], node)
    {
      PurgeStep(open, node, i);
      if open[i].pos != node.pos {
        r := r + [open[i]];
      }
    }
    assert open[..|open|] == open;
  }

  /** The test `adjacent_nodes` makes before it creates the child in direction
      `m`: the coordinate it lowers must be positive, the one it raises below
      the width or height, and the cell must not be a wall. On an inner cell
      it holds exactly when the next cell in that direction is open. */
  function Guard(grid: array2<char>, p: Pos, m: Move): (b: bool)
    reads grid
    requires Inner(grid, p) && IsUnit(m)
    ensures b == Passable(grid, Step(p, m))
  {
    var x, y := p.x, p.y;
    if m == Left then x > 0 && grid[y, x - 1] != Wall
    else if m == Right then x < grid.Length1 && grid[y, x + 1] != Wall
    else if m == Up then y > 0 && grid[y - 1, x] != Wall
    else y < grid.Length0 && grid[y + 1, x] != Wall
  }

  /** The child in direction `m` when `ok`, and nothing otherwise. */
  function Try(ok: bool, node: Node, m: Move, at: nat): (s: seq<Node>)
    ensures |s| <= 1
    ensures forall n :: n in s <==> ok && n == Child(node, m, at)
  {
    if ok then [Child(node, m, at)] else []
  }

  /** The moves of the nodes come in the order left, right, up, down. */
  ghost predicate Ranked(r: seq<Node>)
  {
    forall i, j :: 0 <= i < j < |r| ==>
      r[i].move.Some? && r[j].move.Some? && Rank(r[i].move.value) < Rank(r[j].move.value)
  }

  /** Appending at most one node with a later move keeps the order. */
  lemma RankedAppend(s: seq<Node>, t: seq<Node>, m: Move)
    requires Ranked(s) && |t| <= 1
    requires forall n :: n in s ==> n.move.Some? && Rank(n.move.value) < Rank(m)
    requires forall n :: n in t ==> n.move == Some(m)
    ensures Ranked(s + t)
    ensures forall n :: n in s + t ==> n.move.Some? && Rank(n.move.value) <= Rank(m)
  {
    var r := s + t;
    forall i, j | 0 <= i < j < |r|
      ensures r[i].move.Some? && r[j].move.Some? && Rank(r[i].move.value) < Rank(r[j].move.value)
    {
      assert r[i] == s[i];
      if j < |s| {
        assert r[j] == s[j];
      } else {
        assert r[j] in t;
      }
    }
  }

  /** The children of `node` in the directions whose test passed, in the
      order left, right, up, down. */
  function Children(node: Node, at: nat, left: bool, right: bool, up: bool, down: bool): (r: seq<Node>)
    ensures forall c :: c in r ==>
      c == Child(node, Left, at) || c == Child(node, Right, at) || c == Child(node, Up, at) || c == Child(node, Down, at)
    ensures Child(node, Left, at) in r <==> left
    ensures Child(node, Right, at) in r <==> right
    ensures Child(node, Up, at) in r <==> up
    ensures Child(node, Down, at) in r <==> down
    ensures Ranked(r)
  {
    ChildrenRanked(node, at, left, right, up, down);
    Try(left, node, Left, at) + Try(right, node, Right, at) + Try(up, node, Up, at) + Try(down, node, Down, at)
  }

  lemma ChildrenRanked(node: Node, at: nat, left: bool, right: bool, up: bool, down: bool)
    ensures Ranked(Try(left, node, Left, at) + Try(right, node, Right, at) + Try(up, node, Up, at) + Try(down, node, Down, at))
  {
    var a, b, c, d := Try(left, node, Left, at), Try(right, node, Right, at), Try(up, node, Up, at), Try(down, node, Down, at);
    RankedAppend([], a, Left);
    assert [] + a == a;
    RankedAppend(a, b, Right);
    RankedAppend(a + b, c, Up);
    RankedAppend(a + b + c, d, Down);
  }

  /** `adjacent_nodes`: the children of `node` towards its open neighbours, to
      the left, right, above and below, in that order, each with `node` (at
      index `at` of the closed list) as its parent. The source reads the cell
      after `x` and `y` whenever they are below the width and height, so
      `node` must be an inner cell. */
  function AdjacentNodes(grid: array2<char>, node: Node, at: nat): (r: seq<Node>)
    reads grid
    requires Inner(grid, node.pos)
    ensures forall c :: c in r ==>
      c == Child(node, Left, at) || c == Child(node, Right, at) || c == Child(node, Up, at) || c == Child(node, Down, at)
    ensures Child(node, Left, at) in r <==> Passable(grid, Step(node.pos, Left))
    ensures Child(node, Right, at) in r <==> Passable(grid, Step(node.pos, Right))
    ensures Child(node, Up, at) in r <==> Passable(grid, Step(node.pos, Up))
    ensures Child(node, Down, at) in r <==> Passable(grid, Step(node.pos, Down))
    ensures Ranked(r)
  {
    var p := node.pos;
    Children(node, at, Guard(grid, p, Left), Guard(grid, p, Right), Guard(grid, p, Up), Guard(grid, p, Down))
  }

  /** Following `moves` from `from` takes only unit steps onto open cells of the
      grid and ends at `to`. */
  ghost predicate Route(grid: array2<char>, from: Pos, to: Pos, moves: seq<Option<Move>>)
    reads grid
    decreases |moves|
  {
    if moves == [] then from == to
    else
      && moves[0].Some? && IsUnit(moves[0].value)
      && Passable(grid, Step(from, moves[0].value))
      && Route(grid, Step(from, moves[0].value), to, moves[1..])
  }

  /** Node `n` hangs correctly on the closed list: the start node has no parent,
      no move and `g` zero; any other node is one open step away from its
      parent, which comes before `bound`, and has its parent's `g` plus one. */
  ghost predicate Linked(grid: array2<char>, start: Pos, closed: seq<Node>, bound: int, n: Node)
    reads grid
  {
    match n.parent
    case None => n.pos == start && n.move == None && n.g == 0
    case Some(k) =>
      && k < bound && k < |closed|
      && n.move.Some? && IsUnit(n.move.value)
      && n.pos == Step(closed[k].pos, n.move.value)
      && Passable(grid, n.pos) && n.g == closed[k].g + 1
  }

  lemma LinkedGrow(grid: array2<char>, start: Pos, closed: seq<Node>, c: Node, bound: int, bound': int, n: Node)
    requires Linked(grid, start, closed, bound, n) && bound <= bound'
    ensures Linked(grid, start, closed + [c], bound', n)
  {
    if n.parent.Some? {
      assert (closed + [c])[n.parent.value] == closed[n.parent.value];
    }
  }

  /** Each open neighbour of `p` is in `seen`. */
  ghost predicate Around(grid: array2<char>, p: Pos, seen: set<Pos>)
    reads grid
  {
    && (Passable(grid, Step(p, Left)) ==> Step(p, Left) in seen)
    && (Passable(grid, Step(p, Right)) ==> Step(p, Right) in seen)
    && (Passable(grid, Step(p, Up)) ==> Step(p, Up) in seen)
    && (Passable(grid, Step(p, Down)) ==> Step(p, Down) in seen)
  }

  /** Every open neighbour of an expanded cell has been seen. */
  ghost predicate Frontier(grid: array2<char>, done: set<Pos>, seen: set<Pos>)
    reads grid
  {
    forall p :: p in done ==> Around(grid, p, seen)
  }

  lemma FrontierGrow(grid: array2<char>, done: set<Pos>, seen: set<Pos>, p: Pos, seen': set<Pos>)
    requires Frontier(grid, done, seen) && seen <= seen' && Around(grid, p, seen')
    ensures Frontier(grid, done + {p}, seen')
  {
  }

  /** With no open node left, whatever a route reaches from an expanded cell is
      expanded too. */
  lemma {:induction false} RouteStaysInside(grid: array2<char>, done: set<Pos>, from: Pos, to: Pos, moves: seq<Option<Move>>)
    requires Frontier(grid, done, done) && from in done && Route(grid, from, to, moves)
    ensures to in done
    decreases |moves|
  {
    if moves != [] {
      assert Around(grid, from, done);
      RouteStaysInside(grid, done, Step(from, moves[0].value), to, moves[1..]);
    }
  }

  lemma SubsetCard(a: set<Pos>, b: set<Pos>)
    requires a <= b
    ensures |a| <= |b|
  {
    assert b == a + (b - a);
  }

  /** The expanded nodes: each cell at most once, all inner cells, and each
      node hanging on an earlier one. */
  ghost predicate ClosedOk(grid: array2<char>, start: Pos, closed: seq<Node>)
    reads grid
  {
    && |Cells(closed)| == |closed|
    && (forall k :: 0 <= k < |closed| ==> Inner(grid, closed[k].pos) && Linked(grid, start, closed, k, closed[k]))
  }

  /** The open nodes: inner cells that are not expanded yet, each hanging on an
      expanded node. */
  ghost predicate OpenOk(grid: array2<char>, start: Pos, closed: seq<Node>, open: seq<Node>)
    reads grid
  {
    forall n :: n in open ==>
      Inner(grid, n.pos) && n.pos !in Cells(closed) && Linked(grid, start, closed, |closed|, n)
  }

  /** The invariant of the main loop of `path_to_prize`. */
  ghost predicate Search(grid: array2<char>, start: Pos, goal: Pos, closed: seq<Node>, open: seq<Node>)
    reads grid
  {
    && ClosedOk(grid, start, closed)
    && OpenOk(grid, start, closed, open)
    && goal !in Cells(closed)
    && start in Cells(closed) + Cells(open)
    && Frontier(grid, Cells(closed), Cells(closed) + Cells(open))
  }

  /** Expanding the node `current` of the open list: it moves to the closed
      list, and every open node at its cell is dropped. */
  lemma CloseStep(grid: array2<char>, start: Pos, closed: seq<Node>, open: seq<Node>, current: Node)
    requires ClosedOk(grid, start, closed) && OpenOk(grid, start, closed, open) && current in open
    ensures ClosedOk(grid, start, closed + [current])
  {
    var closed' := closed + [current];
    CellsAppend(closed, current);
    forall k | 0 <= k < |closed'|
      ensures Inner(grid, closed'[k].pos) && Linked(grid, start, closed', k, closed'[k])
    {
      if k < |closed| {
        LinkedGrow(grid, start, closed, current, k, k, closed[k]);
      } else {
        LinkedGrow(grid, start, closed, current, |closed|, k, current);
      }
    }
  }

  lemma OpenStep(grid: array2<char>, start: Pos, closed: seq<Node>, open: seq<Node>, current: Node)
    requires OpenOk(grid, start, closed, open)
    ensures OpenOk(grid, start, closed + [current], Purge(open, current))
  {
    var closed' := closed + [current];
    CellsAppend(closed, current);
    forall n | n in Purge(open, current)
      ensures Inner(grid, n.pos) && n.pos !in Cells(closed') && Linked(grid, start, closed', |closed'|, n)
    {
      LinkedGrow(grid, start, closed, current, |closed|, |closed'|, n);
    }
  }

  /** Expanding `current` keeps the union of the seen cells. */
  lemma SeenStep(closed: seq<Node>, open: seq<Node>, current: Node)
    requires current in open
    ensures Cells(closed + [current]) + Cells(Purge(open, current)) == Cells(closed) + Cells(open)
  {
    CellsAppend(closed, current);
    CellsRemove(open, current);
  }

  /** The path-building loop of `path_to_prize`, from the goal node (the last
      expanded one) back along the parents. The source appends each move and
      reverses the list at the end; prepending each move gives the same list. */
  method TracePath(grid: array2<char>, start: Pos, goal: Pos, closed: seq<Node>) returns (path: seq<Option<Move>>)
    requires ClosedOk(grid, start, closed)
    requires closed != [] && closed[|closed| - 1].pos == goal
    ensures path != [] && path[0] == None && Route(grid, start, goal, path[1..])
    ensures |path| - 1 == closed[|closed| - 1].g
    ensures |closed| == 1 ==> path == [None]
  {
    path := [];
    var current: Option<nat> := Some(|closed| - 1);
    while current.Some?
      invariant current.Some? ==>
        && current.value < |closed|
        && Route(grid, closed[current.value].pos, goal, path)
        && closed[current.value].g + |path| == closed[|closed| - 1].g
      invariant current.None? ==>
        path != [] && path[0] == None && Route(grid, start, goal, path[1..])
        && |path| - 1 == closed[|closed| - 1].g
      decreases if current.Some? then current.value + 1 else 0
    {
      var node := closed[current.value];
      assert Linked(grid, start, closed, current.value, node);
      ghost var rest := path;
      path := [node.move] + path;
      assert path[1..] == rest;
      current := node.parent;
    }
    if |closed| == 1 {
      assert Linked(grid, start, closed, 0, closed[0]);
    }
  }

  /** `c` is a child of `current`, the node at index `at` of the closed list:
      one unit step away from it, on an open cell. */
  ghost predicate Offspring(grid: array2<char>, current: Node, at: nat, c: Node)
    reads grid
  {
    && c.parent == Some(at) && c.move.Some? && IsUnit(c.move.value)
    && c.pos == Step(current.pos, c.move.value) && Passable(grid, c.pos)
  }

  lemma AdjacentOffspring(grid: array2<char>, current: Node, at: nat)
    requires Inner(grid, current.pos)
    ensures forall c :: c in AdjacentNodes(grid, current, at) ==> Offspring(grid, current, at, c)
  {
  }

  /** Once every child is seen, so is every open neighbour. */
  lemma AdjacentAround(grid: array2<char>, current: Node, at: nat, seen: set<Pos>)
    requires Inner(grid, current.pos)
    requires forall c :: c in AdjacentNodes(grid, current, at) ==> c.pos in seen
    ensures Around(grid, current.pos, seen)
  {
    var children := AdjacentNodes(grid, current, at);
    assert Passable(grid, Step(current.pos, Left)) ==> Child(current, Left, at) in children;
    assert Passable(grid, Step(current.pos, Right)) ==> Child(current, Right, at) in children;
    assert Passable(grid, Step(current.pos, Up)) ==> Child(current, Up, at) in children;
    assert Passable(grid, Step(current.pos, Down)) ==> Child(current, Down, at) in children;
  }

  /** Child `c` of a node whose `g` is `g`, with its costs set: `g` one more,
      `h` the squared distance to the goal and `f` their sum. */
  function Scored(c: Node, goal: Pos, g: int): (n: Node)
    ensures n.parent == c.parent && n.pos == c.pos && n.move == c.move
    ensures n.g == g + 1 && n.h == SqDist(c.pos, goal) && n.f == n.g + n.h
    ensures n.h >= 0 && n.f > g
  {
    c.(g := g + 1, h := SqDist(c.pos, goal), f := g + 1 + SqDist(c.pos, goal))
  }

  /** The children appended to the open list, in order: those whose cell is
      not in `done`, each with its costs set. */
  function Pushed(children: seq<Node>, done: set<Pos>, goal: Pos, g: int): (r: seq<Node>)
    ensures |r| <= |children|
    decreases |children|
  {
    if children == [] then []
    else
      var kept := Pushed(children[..|children| - 1], done, goal, g);
      var last := children[|children| - 1];
      if last.pos in done then kept else kept + [Scored(last, goal, g)]
  }

  /** Exactly the children outside `done` are pushed, each scored. */
  lemma {:induction false} PushedNodes(children: seq<Node>, done: set<Pos>, goal: Pos, g: int)
    ensures var r := Pushed(children, done, goal, g);
      && (forall n :: n in r ==> n.pos !in done && n.g == g + 1 && n.h == SqDist(n.pos, goal) && n.f == n.g + n.h)
      && (forall c :: c in children && c.pos !in done ==> Scored(c, goal, g) in r)
      && (forall n :: n in r ==> exists c :: c in children && c.pos !in done && n == Scored(c, goal, g))
    decreases |children|
  {
    if children != [] {
      var rest, last := children[..|children| - 1], children[|children| - 1];
      assert children == rest + [last];
      PushedNodes(rest, done, goal, g);
    }
  }

  /** Scanning one more child appends it, scored, unless its cell is done. */
  lemma PushedStep(children: seq<Node>, done: set<Pos>, goal: Pos, g: int, i: nat)
    requires i < |children|
    ensures Pushed(children[..i + 1], done, goal, g)
         == Pushed(children[..i], done, goal, g)
            + (if children[i].pos in done then [] else [Scored(children[i], goal, g)])
  {
    assert children[..i + 1][..i] == children[..i];
  }

  /** The pushed children hang on the last closed node, so the open list stays
      well formed, and every child is then either expanded or open. */
  lemma PushedOpen(grid: array2<char>, start: Pos, goal: Pos, closed: seq<Node>,
                   open: seq<Node>, children: seq<Node>)
    requires WallBorder(grid) && closed != [] && OpenOk(grid, start, closed, open)
    requires forall c :: c in children ==> Offspring(grid, closed[|closed| - 1], |closed| - 1, c)
    ensures var open' := open + Pushed(children, Cells(closed), goal, closed[|closed| - 1].g);
      && OpenOk(grid, start, closed, open')
      && Cells(open) <= Cells(open')
      && forall c :: c in children ==> c.pos in Cells(closed) + Cells(open')
  {
    var current := closed[|closed| - 1];
    var pushed := Pushed(children, Cells(closed), goal, current.g);
    var open' := open + pushed;
    PushedNodes(children, Cells(closed), goal, current.g);
    forall n | n in pushed
      ensures Inner(grid, n.pos) && Linked(grid, start, closed, |closed|, n)
    {
      var c :| c in children && n == Scored(c, goal, current.g);
      PassableInner(grid, n.pos);
    }
    forall c | c in children && c.pos !in Cells(closed)
      ensures c.pos in Cells(open')
    {
      assert Scored(c, goal, current.g) in open';
    }
  }

  /** The loop of `path_to_prize` over the children of `current`, the last
      node of the closed list: a child at an expanded cell is skipped, any
      other one gets `g` one more than its parent, `h` its squared distance to
      the goal and `f` their sum, and is appended to the open list. */
  method PushChildren(goal: Pos, closed: seq<Node>, open: seq<Node>, children: seq<Node>)
      returns (open': seq<Node>)
    requires closed != []
    ensures open' == open + Pushed(children, Cells(closed), goal, closed[|closed| - 1].g)
  {
    var current := closed[|closed| - 1];
    open' := open;
    for i := 0 to |children|
      invariant open' == open + Pushed(children[..i], Cells(closed), goal, current.g)
    {
      var child := children[i];
      PushedStep(children, Cells(closed), goal, current.g, i);
      if child.pos in Cells(closed) {
        continue;
      }
      var g := current.g + 1;
      var h := SqDist(child.pos, goal);
      var node := child.(g := g, h := h, f := g + h);
      assert node == Scored(child, goal, current.g);
      open' := open' + [node];
    }
    assert children[..|children|] == children;
  }

  /** Expanding a cell not expanded before leaves fewer inner cells to expand. */
  lemma Shrinks(grid: array2<char>, closed: seq<Node>, current: Node)
    requires grid.Length0 > 0 && grid.Length1 > 0
    requires Inner(grid, current.pos) && current.pos !in Cells(closed)
    ensures InnerCells(grid) - Cells(closed + [current]) < InnerCells(grid) - Cells(closed)
  {
    CellsAppend(closed, current);
    assert current.pos in InnerCells(grid) - Cells(closed);
  }

  /** The first half of an iteration of the main loop: `current`, taken from
      the open list, is expanded. */
  lemma Advance(grid: array2<char>, start: Pos, goal: Pos, closed: seq<Node>, open: seq<Node>, current: Node)
    requires WallBorder(grid) && Search(grid, start, goal, closed, open) && current in open
    ensures Inner(grid, current.pos)
    ensures ClosedOk(grid, start, closed + [current])
    ensures OpenOk(grid, start, closed + [current], Purge(open, current))
    ensures Cells(closed + [current]) + Cells(Purge(open, current)) == Cells(closed) + Cells(open)
    ensures InnerCells(grid) - Cells(closed + [current]) < InnerCells(grid) - Cells(closed)
  {
    CloseStep(grid, start, closed, open, current);
    OpenStep(grid, start, closed, open, current);
    SeenStep(closed, open, current);
    Shrinks(grid, closed, current);
  }

  /** The second half: once the children of `current` are pushed, the loop
      invariant holds again, `current` being no goal. */
  lemma Resume(grid: array2<char>, start: Pos, goal: Pos, closed: seq<Node>, open: seq<Node>,
               current: Node, open': seq<Node>)
    requires Search(grid, start, goal, closed, open) && current.pos != goal
    requires ClosedOk(grid, start, closed + [current]) && OpenOk(grid, start, closed + [current], open')
    requires Cells(closed) + Cells(open) <= Cells(closed + [current]) + Cells(open')
    requires Around(grid, current.pos, Cells(closed + [current]) + Cells(open'))
    ensures Search(grid, start, goal, closed + [current], open')
  {
    CellsAppend(closed, current);
    FrontierGrow(grid, Cells(closed), Cells(closed) + Cells(open), current.pos, Cells(closed + [current]) + Cells(open'));
  }

  /** The rest of an iteration of the main loop after `current`, no goal, has
      been moved to the closed list: its children are generated and pushed. */
  method Expand(grid: array2<char>, start: Pos, goal: Pos, ghost closed0: seq<Node>, ghost open0: seq<Node>,
                closed: seq<Node>, open: seq<Node>) returns (open': seq<Node>)
    requires WallBorder(grid) && Search(grid, start, goal, closed0, open0)
    requires closed != [] && closed == closed0 + [closed[|closed| - 1]]
    requires closed[|closed| - 1].pos != goal && Inner(grid, closed[|closed| - 1].pos)
    requires ClosedOk(grid, start, closed) && OpenOk(grid, start, closed, open)
    requires Cells(closed) + Cells(open) == Cells(closed0) + Cells(open0)
    ensures Search(grid, start, goal, closed, open')
    ensures var current := closed[|closed| - 1];
      open' == open + Pushed(AdjacentNodes(grid, current, |closed| - 1), Cells(closed), goal, current.g)
  {
    var current := closed[|closed| - 1];
    var children := AdjacentNodes(grid, current, |closed| - 1);
    AdjacentOffspring(grid, current, |closed| - 1);
    open' := PushChildren(goal, closed, open, children);
    PushedOpen(grid, start, goal, closed, open, children);
    AdjacentAround(grid, current, |closed| - 1, Cells(closed) + Cells(open'));
    Resume(grid, start, goal, closed0, open0, current, open');
  }

  /** The search starts with the start node open and nothing closed. */
  lemma Begin(grid: array2<char>, start: Pos, goal: Pos)
    requires WallBorder(grid) && Inner(grid, start)
    ensures Search(grid, start, goal, [], [StartNode(start)])
  {
    assert Cells([StartNode(start)]) == {start};
  }

  /** No cell is expanded twice, so at most every inner cell once. */
  lemma Bounded(grid: array2<char>, start: Pos, closed: seq<Node>)
    requires grid.Length0 > 0 && grid.Length1 > 0 && ClosedOk(grid, start, closed)
    ensures |Cells(closed)| == |closed| <= (grid.Length1 - 1) * (grid.Length0 - 1)
  {
    SubsetCard(Cells(closed), InnerCells(grid));
  }

  /** When the open list runs out, no route leads from `start` to `goal`. */
  lemma Exhausted(grid: array2<char>, start: Pos, goal: Pos, closed: seq<Node>)
    requires Search(grid, start, goal, closed, [])
    ensures start in Cells(closed) && goal !in Cells(closed) && Frontier(grid, Cells(closed), Cells(closed))
    ensures forall moves :: !Route(grid, start, goal, moves)
  {
    assert Cells([]) == {};
    forall moves | Route(grid, start, goal, moves) ensures false {
      RouteStaysInside(grid, Cells(closed), start, goal, moves);
    }
  }

  /** One turn of the search loop of `path_to_prize`: take the cheapest open
      node, close it, and either trace the path back from it (it is the goal)
      or push its neighbours. */
  method Round(grid: array2<char>, start: Pos, goal: Pos, closed: seq<Node>, open: seq<Node>)
    returns (closed': seq<Node>, open': seq<Node>, found: Option<seq<Option<Move>>>)
    requires WallBorder(grid) && Search(grid, start, goal, closed, open) && open != []
    ensures ClosedOk(grid, start, closed')
    ensures found.None? ==> Search(grid, start, goal, closed', open')
    ensures found.None? ==> InnerCells(grid) - Cells(closed') < InnerCells(grid) - Cells(closed)
    ensures found.Some? ==> found.value != [] && found.value[0] == None
                            && Route(grid, start, goal, found.value[1..])
    ensures found.Some? ==> closed' != [] && closed'[|closed'| - 1].pos == goal
                            && |found.value| - 1 == closed'[|closed'| - 1].g
    ensures found.Some? ==> |Cells(closed')| == |closed'| <= (grid.Length1 - 1) * (grid.Length0 - 1)
    ensures closed == [] && open == [StartNode(start)] && start == goal ==> found == Some([None])
    ensures |closed'| == |closed| + 1 && closed'[..|closed|] == closed
  {
    var current;
    ghost var at;
    current, at := MinNode(open);
    Advance(grid, start, goal, closed, open, current);
    open' := RemoveNode(open, current);
    closed' := closed + [current];
    if current.pos == goal {
      var moves := TracePath(grid, start, goal, closed');
      Bounded(grid, start, closed');
      return closed', open', Some(moves);
    }
    open' := Expand(grid, start, goal, closed, open, closed', open');
    found := None;
  }

  /** `path_to_prize`: on success the moves from `start` to `goal`, the first
      of them `None` (the move of the start node); `None` when the open list
      runs out. `expanded` is the closed list at the end. */
  method PathToPrize(grid: array2<char>, start: Pos, goal: Pos)
    returns (path: Option<seq<Option<Move>>>, ghost expanded: seq<Node>)
    requires WallBorder(grid) && Inner(grid, start)
    ensures path.Some? ==> path.value != [] && path.value[0] == None && Route(grid, start, goal, path.value[1..])
    ensures path.Some? ==> expanded != [] && expanded[|expanded| - 1].pos == goal
                           && |path.value| - 1 == expanded[|expanded| - 1].g
    ensures start == goal ==> path == Some([None])
    ensures path.None? ==> forall moves :: !Route(grid, start, goal, moves)
    ensures |Cells(expanded)| == |expanded| <= (grid.Length1 - 1) * (grid.Length0 - 1)
    ensures forall k :: 0 <= k < |expanded| ==> Linked(grid, start, expanded, k, expanded[k])
  {
    var open := [StartNode(start)];
    var closed: seq<Node> := [];
    Begin(grid, start, goal);
    // Compared with `true` so that the verifier keeps the search invariant as
    // one fact instead of unfolding its conjuncts at each check of the loop.
    while open != []
      invariant Search(grid, start, goal, closed, open) == true
      invariant start == goal ==> closed == [] && open == [StartNode(start)]
      decreases InnerCells(grid) - Cells(closed)
    {
      var found;
      closed, open, found := Round(grid, start, goal, closed, open);
      if found.Some? {
        return found, closed;
      }
    }
    expanded := closed;
    path := None;
    Exhausted(grid, start, goal, closed);
    Bounded(grid, start, closed);
  }
}
