# Pac-Man world state and A* search, in Dafny

This project models the simulation core of a small terminal Pac-Man game and
proves properties of it. The core has two parts.

- **The world state of `map.py`.** A `Map` holds:
  - a character grid, where `%` is a wall and `-` an open cell;
  - an insertion-ordered registry from string ids to entities (position, symbol, category);
  - an id counter;
  - the player's id.

  Entities are added with `add_entity`. `update_map` moves one entity by one step:
  - a step that is off the strict interior or onto a wall is refused;
  - an enemy reaching the player, or the player walking into an enemy, loses (`LOST`);
  - the player walking onto a prize collects it (`SCORE`, or `WON` when it was the last one);
  - otherwise every prize is drawn again and the result is `OK`.

  The status codes are those of `config.py`.
- **The A* search of `pathfinding.py`.**
  - The open list is scanned for the node of least `f`.
  - Every open node at that cell is dropped, and the node is closed.
  - When it is the goal, the moves are read back along the parent links.
  - Otherwise its open neighbours that are not closed are pushed, with `g` one
    more than the parent's and `h` the squared distance to the goal.

Layout:

- `seqs.dfy` (module `Seqs`): sequences without repetitions, subsequences, and
  deletion of one value. The registry's key order and the search's lists are
  sequences.
- `grid.dfy` (module `Grid`): positions, moves, the wall and open glyphs, the
  squared distance, and the cells of a rectangle.
- `config.dfy` (module `Config`): the status codes.
- `world.dfy` (module `WorldState`):
  - the state of a `Map` as a value `World`;
  - its invariant `WorldOk`;
  - every state change of `map.py` as a function from the old world to the new one;
  - the properties of `update_map` and `add_entity`, as lemmas about those functions.
- `map.dfy` (module `GameMap`): class `Map`.
  - The grid is an `array2<char>` updated in place.
  - The registry is a map plus a sequence of ids in insertion order.
  - Each method is proved to leave exactly the world that the matching
    `WorldState` function gives for the old world, and to keep `Valid()`.
- `pathfinding.dfy` (module `Pathfinding`): the search, with its loops as methods.
  - Nodes are values, and a node's parent is its index in the closed list.
  - `PathToPrize` is proved:
    - to return a route of unit moves over open cells from start to goal, whose
      length is the goal node's `g`;
    - to return `None` only when no such route exists;
    - to expand every cell at most once, each expanded node hanging one step
      from an earlier one;
    - to terminate.

## Model

| member | source | states |
|---|---|---|
| `Config.Code` | config.py:26-33 | every status has its integer code, and every code lies in 0..7 |
| `WorldState.DistZero` | map.py:11-18 | `Entity.dist` is zero exactly for two entities that `Entity.__eq__` calls equal (same cell), and it is symmetric |
| `WorldState.Entity.SameCell` | map.py:11-12 | two entities are equal exactly when both coordinates of their cells agree |
| `WorldState.Entity.Dist` | map.py:17-18 | the squared distance between two entities is never negative |
| `WorldState.Initial` | map.py:21-25 | a new map has the width and height of its rows, one glyph per cell as read, no entities, the counter at 0 and no player |
| `WorldState.InitialOk` | map.py:21-25 | a freshly loaded map satisfies the invariant (grid rectangle, registry order without repeats, fresh future ids, consistent player id) |
| `GameMap.Map.constructor` | map.py:21-25 | the new object's state is the initial world of the rows, and it is valid |
| `WorldState.DecimalInjective` | map.py:50-51 | distinct counter values give distinct ids `str(counter)` |
| `WorldState.AddKeepsOk` | map.py:42-57 | the id `str(entities_counter)` is not yet registered, and adding keeps the invariant |
| `WorldState.Add` | map.py:42-57 | the registry gains exactly the key `str(entities_counter)`, holding an entity of the given symbol and category at the given cell; the grid keeps its cells and shows the symbol on that one; the counter goes up by one |
| `WorldState.AddRegisters` | map.py:42-57 | `add_entity` on an open cell registers the new entity under a fresh id at the end of the insertion order, writes its symbol on that cell and changes no other cell, advances the counter by one, and sets `player_id` to the new id exactly when the category is player (and leaves it alone otherwise) |
| `WorldState.AddAppendsId` | map.py:49-52 | the new id is appended to the list of its own category and to no other list |
| `GameMap.Map.AddEntity` | map.py:42-57 | the method returns OK and leaves exactly the world `Add` describes |
| `WorldState.OfCategory` | map.py:103-108 | the listed ids are exactly the registered ids of that category, in registry order (a subsequence of the key order) |
| `GameMap.Map.GetEntityCategory` | map.py:103-108 | the loop returns the category list of the current state |
| `GameMap.Map.IsValid` | map.py:133-143 | the new position is the old one plus the move; the step is accepted exactly when `0 < x < width`, `0 < y < height` and the cell is not `%`; the cell is read at numpy's wrapped index |
| `WorldState.RejectedStep` | map.py:60-65 | a refused step returns OK and leaves the world unchanged |
| `GameMap.Map.Move` | map.py:125-131 | the method leaves exactly the world `MoveEntity` describes |
| `WorldState.MoveEntity` | map.py:125-131 | the entity takes the new position and keeps its symbol; size, counter, player id and the registry's keys and order are unchanged; the only cells that can appear are the old and the new one |
| `WorldState.MoveFrame` | map.py:125-131 | after `move` the old cell is `-`, the entity stands on the new cell, which shows its symbol, and no other entity and no other cell changes |
| `WorldState.MoveKeepsOk` | map.py:125-131 | moving within the grid keeps the invariant |
| `GameMap.Map.Lost` | map.py:110-116 | the result is true exactly when the two cells are equal; then the player's symbol and that cell become `!`, and otherwise nothing changes |
| `WorldState.Catch` | map.py:110-116 | the player keeps its position and category; size, counter, player id and the registry's keys and order are unchanged; only the given cell is written |
| `GameMap.Map.Won` | map.py:118-123 | returns WON; the player's symbol and the player's cell become `W` |
| `WorldState.Win` | map.py:118-123 | the player keeps its cell, which then shows `W`; size, counter, player id and the registry's keys and order are unchanged |
| `GameMap.Map.GetPlayer` | map.py:157-158 | returns the player id and the entity registered under it, which is a player |
| `WorldState.EnemyReachesPlayer` | map.py:70-73 | an enemy stepping onto the player's cell gives LOST; the enemy does not move, the player's symbol and that cell become `!`, and nothing else changes |
| `WorldState.EnemyTurn` | map.py:70-75 | the enemy branch ends with OK or LOST and keeps the size, the counter, the player id and the registry's keys and order |
| `GameMap.Map.EnemyStep` | map.py:70-75 | the enemy branch leaves exactly the world `EnemyTurn` describes |
| `WorldState.PlayerRunsIntoEnemy` | map.py:78-82 | a player stepping onto any enemy's cell gives LOST before moving: its position is unchanged, its symbol and the cell become `!`, and nothing else changes |
| `WorldState.PlayerTurn` | map.py:78-92 | the player branch never returns PRIZE, POWER, NORMAL or EAT, registers no new id and keeps size, counter and player id; with LOST the player has not moved |
| `GameMap.Map.PlayerStep` | map.py:78-84 | the player branch scans the enemies and then moves, leaving exactly the world `PlayerTurn` describes |
| `WorldState.FirstFrom` | map.py:79-82 | the first index of a list whose entity stands on a cell, or none when none does |
| `WorldState.PlayerTakesPrize` | map.py:84-92 | a player stepping onto a prize (with no enemy there) moves onto it; the prize count drops by exactly one; the result is WON exactly when none is left, with the player's symbol and cell `W`, and SCORE otherwise |
| `WorldState.PrizeStepResult` | map.py:84-92 | it is the first prize on that cell, in registry order, that is deleted after the move |
| `WorldState.PrizeOutcome` | map.py:89-92 | after deleting one prize, the status is WON exactly when no prize is left, and the count has dropped by one |
| `WorldState.DeleteOnePrize` | map.py:89 | deleting a prize removes exactly that id from the prize list, which shrinks by one |
| `WorldState.Delete` | map.py:89 | exactly the given id leaves the registry and its order; every other entity, every cell, the size, the counter and the player id are unchanged |
| `WorldState.OfCategoryWithout` | map.py:89 | deleting an id from the registry deletes it from every category list |
| `GameMap.Map.DeletePrize` | map.py:89 | the method leaves exactly the world `Delete` describes |
| `GameMap.Map.CollectPrize` | map.py:86-101 | the prize loop and the repaint leave exactly the world `Collect` describes |
| `WorldState.Collect` | map.py:86-92 | collecting ends with OK, SCORE or WON and registers no new id; with OK the registry is as it was |
| `WorldState.CollectFound` | map.py:86-92 | when the `i`-th prize is the first one on the cell, its deletion decides the result |
| `WorldState.CollectNone` | map.py:86-101 | when no prize is on the cell, the result is OK after the repaint |
| `WorldState.PaintLastWins` | map.py:96-99 | after the repaint loop each prize's cell shows the symbol of the last prize, in registry order, on that cell |
| `GameMap.Map.RestorePrizes` | map.py:96-99 | the repaint loop leaves exactly the world `Restore` describes |
| `WorldState.Restore` | map.py:96-99 | the repaint changes neither the registry nor its order and loses no cell |
| `WorldState.Paint` | map.py:96-99 | painting loses no cell and puts every painted entity's cell in the grid; when all of them are cells already, the set of cells is unchanged |
| `WorldState.RestoreKeepsOk` | map.py:96-99 | repainting keeps the invariant |
| `WorldState.FinalReturn` | map.py:96-101 | a step that ends with OK ends with the repaint of the world after the move |
| `WorldState.PrizesRepainted` | map.py:96-101 | at the final return every prize's cell shows the last prize on it |
| `WorldState.RestoreShowsPrizes` | map.py:96-99 | when no two prizes share a cell, the repaint shows every prize's own symbol on its cell |
| `WorldState.PrizeCellsShowPrizes` | map.py:96-101 | when no two prizes share a cell, at the final return every prize's cell shows that prize's symbol, also where an enemy passed over it |
| `WorldState.UpdateKeepsOk` | map.py:59-101 | `update_map` keeps the invariant |
| `WorldState.Update` | map.py:59-101 | the status is OK, LOST, SCORE or WON; size, counter and player id are unchanged and no id is registered; with OK or LOST no id is removed and the order is unchanged |
| `GameMap.Map.UpdateMap` | map.py:59-101 | the status and the new state are those `Update` gives for the old state |
| `WorldState.ClosestUnique` | map.py:145-155 | the nearest prize, the earliest one among ties, is unique |
| `GameMap.ClosestOf` | map.py:150-154 | the running minimum ends at an entity of least squared distance to the player, every earlier one being strictly farther |
| `GameMap.Map.ClosestPrize` | map.py:145-155 | with at least one prize, returns a prize at least squared distance from the player, the first in registry order among ties |
| `Pathfinding.MinNode` | pathfinding.py:74-89 | returns a node of the list whose `f` is minimal, the first such one in list order |
| `Pathfinding.Purge` | pathfinding.py:102-106 | a node is kept exactly when it is in the list and at another cell; the kept ones keep their order; as many nodes go as were at that cell |
| `Pathfinding.RemoveNode` | pathfinding.py:91-106 | the loop builds exactly that list |
| `Pathfinding.CellsRemove` | pathfinding.py:102-106 | no node at that cell is left: the cells of the result are those of the list minus that cell |
| `Pathfinding.Guard` | pathfinding.py:123-133 | on an inner cell, the test for a direction holds exactly when the neighbour in that direction is a cell of the grid and not `%` |
| `Pathfinding.AdjacentNodes` | pathfinding.py:108-135 | the result holds only children one unit step away; the child in each direction is present exactly when that neighbour is open; each has the node as parent and its move as `move`; they come left, right, up, down |
| `Pathfinding.Child` | pathfinding.py:124-133 | a child records its parent's index and its move, and a unit move puts it at squared distance 1 from its parent |
| `Pathfinding.ChildrenRanked` | pathfinding.py:123-133 | the children are built in the order left, right, up, down |
| `Pathfinding.TracePath` | pathfinding.py:45-51 | walking the parent links from the goal node gives `None` followed by unit moves that lead from the start over open cells to the goal; the list has `g + 1` entries; from the start node alone it is `[None]` |
| `Pathfinding.Scored` | pathfinding.py:58-66 | a scored child keeps its parent, cell and move, has `g` one more than its parent's, `h` its squared distance to the goal and `f = g + h` |
| `Pathfinding.PushedNodes` | pathfinding.py:55-72 | exactly the children at cells not closed are pushed, each scored |
| `Pathfinding.PushChildren` | pathfinding.py:55-72 | the loop leaves the old open list followed by the children at cells not closed, in their order, each scored: `g` the parent's plus one, `h` the squared distance to the goal and `f = g + h` |
| `Pathfinding.PushedOpen` | pathfinding.py:55-72 | after pushing, every open node still links to a closed parent one step away, and every child is closed or open |
| `Pathfinding.Expand` | pathfinding.py:53-72 | expanding a non-goal node appends exactly its pushed children to the open list and keeps the search invariant: every open neighbour of every closed cell is closed or open |
| `Pathfinding.Advance` | pathfinding.py:41-43 | closing the cheapest node keeps the closed list free of repeated cells and shrinks the set of unexpanded inner cells |
| `Pathfinding.Round` | pathfinding.py:41-72 | one iteration of the main loop appends one node to the closed list, which stays free of repeated cells and linked, and either returns a traced path ending at the goal or keeps the invariant with fewer unexpanded cells; from the initial lists with start equal to goal it returns `[None]` |
| `Pathfinding.Begin` | pathfinding.py:33-38 | the start node (no parent, no move, `g` zero) alone in the open list, with nothing closed, satisfies the search invariant |
| `Pathfinding.RouteStaysInside` | pathfinding.py:53-72 | a route from a closed cell cannot leave a set of cells closed under open neighbours |
| `Pathfinding.Exhausted` | pathfinding.py:40 | when the open list is empty, the start is closed, the goal is not, every open neighbour of a closed cell is closed, and so no route leads from start to goal |
| `Pathfinding.Bounded` | pathfinding.py:40-43 | no cell is closed twice, so at most `(width - 1) * (height - 1)` nodes are expanded |
| `Pathfinding.PathToPrize` | pathfinding.py:20-72 | a returned path is `None` followed by unit moves from the start over open cells to the goal, with length `g + 1` of the goal node; start equal to goal gives `[None]`; `None` is returned only when no route exists; no cell is expanded twice, and each expanded node but the start hangs one open step from an earlier one with `g` one more; the loop terminates |

## Left out

- `load_map` (map.py:27-40) reads a file. The constructor takes the rows that it would read.
- `print_map` (map.py:160-170) draws to a terminal and is left out.
- The random search for an open cell in `add_entity` (map.py:43-46) is left out. It has no bound. `AddEntity` takes the cell as a parameter and requires it to be open.
- Entity objects are updated in place in the source. Here the registry is the
  only owner of each entity, and an update stores a changed entity value under
  the same id. The model does not capture aliasing of entity objects.
- `Entity.__str__`, `Node.__str__` and `Node.__eq__` are not modelled as
  members. Equality by position is written out as a comparison of `pos` where
  the source uses it: `SameCell`, `Cells`, `Purge`.
- Categories other than player, enemy and prize are one case, `Other`. The map
  never branches on them. `Other` carries the label but does not exclude the
  labels `"player"`, `"enemy"` and `"prize"`; those categories are always the
  constructors `Player`, `Enemy` and `Prize`.
- `GameMap.Map.constructor`: the rows must be non-empty and all of one length.
  `load_map` takes the width from the last line, and with rows of other lengths
  it fails or builds a malformed array.
- `GameMap.Map.IsValid` and `GameMap.Map.UpdateMap` require the target cell to
  be one numpy can index (`-width <= x < width`, `-height <= y < height`). There
  numpy wraps negative indices, as the model does. The raise outside that range
  is not modelled.
- `GameMap.Map.UpdateMap` requires a player to exist when an enemy's step is
  accepted. The source then reads `self.entities[None]` and raises. A refused
  step needs no player.
- `update_map`'s branches are split into the methods `EnemyStep`, `PlayerStep`,
  `CollectPrize` and `RestorePrizes`. They run in the order of the source.
- `WorldState.PrizeCellsShowPrizes` assumes that no two prizes share a cell.
  When two do, the cell shows the later one's symbol, as
  `WorldState.PrizesRepainted` states.
- The `avoid_pos` term of the heuristic (pathfinding.py:61-65) is left out. It
  is floating point. The search is modelled with `avoid_pos` absent and an
  integer `h`.
- The inner loop at pathfinding.py:68-70 has no effect, because its `continue`
  only skips within that loop. Every child that is not closed is appended.
- `Pathfinding.PathToPrize` and `Pathfinding.AdjacentNodes` need the
  neighbours of every visited cell to be readable. `adjacent_nodes` tests
  `x < width` but reads `x + 1` (pathfinding.py:126, pathfinding.py:132). The
  model therefore requires:
  - the last column and the last row to be walls;
  - the start to be an inner cell.

  The raise at the edge is not modelled.
- `Pathfinding.PathToPrize` takes the grid array, not the `Map` object. It reads nothing else of the map.
- A node's parent is its index in the closed list, not an object reference.
  Every parent is the node just closed, so the two carry the same information.
- The path is built by prepending each move while walking to the start. The source appends and then reverses. The result is the same list.
- `Pathfinding.PathToPrize` does not claim that a returned path is a shortest
  one. The source does not promise that. Its heuristic, the squared distance,
  can exceed the remaining number of steps.
- The loop `while open_list` (pathfinding.py:40) is split into `Round`, which
  is one iteration, and the loop in `PathToPrize`. `Round` in turn calls
  `MinNode`, `RemoveNode`, `TracePath`, `AdjacentNodes` and `PushChildren`.
- Power-ups, scared enemies, the enemy house and timers do not occur in the
  logic. Their constants are kept only as status codes.
- `pacman.py` is a curses prototype and is not part of this model.
- `lab.py` is an unrelated script and is not part of this model.
- The game-loop constants of `config.py` are not modelled (`CURSES`, `SLEEP`,
  `ENEMY_FRAME`, `LIVES`, the counts of prizes, enemies and power-ups).
