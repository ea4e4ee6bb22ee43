/** The `Map` object of `map.py`: a character grid updated in place and an
    entity registry. Every method is proved to leave exactly the world that the
    matching function of `WorldState` describes. */
module GameMap {
  import opened Seqs
  import opened Grid
  import opened WorldState
  import Config

  class Map {
    const width: int
    const height: int
    /** `self.map`, indexed `[y, x]`. */
    const grid: array2<char>
    /** The contents of `grid`, as a value the world functions can talk about. */
    ghost var cells: map<Pos, char>
    /** `self.entities`, with its key order kept separately in `order`. */
    var entities: map<Id, Entity>
    var order: seq<Id>
    /** `self.entities_counter`. */
    var counter: nat
    /** `self.player_id`; `None` until a player is added. */
    var playerId: Option<Id>

    ghost function State(): World
      reads this
    {
      World(width, height, cells, entities, order, counter, playerId)
    }

    /** `cells` holds exactly the glyphs of `grid`. */
    ghost predicate Mirrors()
      reads this`cells, grid
    {
      && grid.Length0 == height && grid.Length1 == width
      && (forall p :: p in cells <==> 0 <= p.x < width && 0 <= p.y < height)
      && forall p :: p in cells ==> cells[p] == grid[p.y, p.x]
    }

    ghost predicate Valid()
      reads this, grid
    {
      Mirrors() && WorldOk(State())
    }

    /** `Map.__init__` over the rows that `load_map` reads from the map file. */
    constructor (rows: seq<seq<char>>)
      requires Rectangular(rows)
      ensures Valid() && fresh(grid)
      ensures State() == Initial(rows)
    {
      var h, w := |rows|, |rows[0]|;
      height, width := h, w;
      grid := new char[h, w]((y: int, x: int) => Glyph(rows, Pos(x, y)));
      cells := Initial(rows).cells;
      entities, order, counter, playerId := map[], [], 0, None;
      new;
      assert State() == Initial(rows);
      InitialOk(rows);
      forall p | p in cells ensures cells[p] == grid[p.y, p.x] {
        assert Pos(p.x, p.y) == p;
      }
    }

    /** `self.map[y, x] = c`. */
    method SetCell(p: Pos, c: char)
      requires Mirrors() && p in cells
      modifies this`cells, grid
      ensures Mirrors() && cells == old(cells)[p := c]
    {
      grid[p.y, p.x] := c;
      cells := cells[p := c];
    }

    /** `add_entity`, with the open cell that the random search settles on given
        as `pos`. */
    method AddEntity(cat: Category, symbol: char, pos: Pos) returns (s: Config.Status)
      requires Valid() && pos in cells && cells[pos] == Open
      modifies this, grid
      ensures Valid() && s == Config.Ok
      ensures State() == Add(old(State()), cat, symbol, pos)
    {
      ghost var w := State();
      AddKeepsOk(w, cat, symbol, pos);
      SetCell(pos, symbol);
      var index := Decimal(counter);
      counter := counter + 1;
      entities := entities[index := Entity(pos, symbol, cat)];
      order := order + [index];
      if cat == Player {
        playerId := Some(index);
      }
      s := Config.Ok;
      assert cells == w.cells[pos := symbol];
      assert entities == w.entities[Decimal(w.counter) := Entity(pos, symbol, cat)];
      assert order == w.order + [Decimal(w.counter)];
      assert counter == w.counter + 1;
      assert playerId == if cat == Player then Some(Decimal(w.counter)) else w.playerId;
      assert State() == Add(w, cat, symbol, pos);
    }

    /** `get_entity_category`: the ids of the given category, in registry order. */
    method GetEntityCategory(cat: Category) returns (ids: seq<Id>)
      requires Valid()
      ensures ids == Ids(State(), cat)
    {
      ids := [];
      for i := 0 to |order|
        invariant ids == OfCategory(order[..i], entities, cat)
      {
        OfCategoryStep(order, entities, cat, i);
        if entities[order[i]].category == cat {
          ids := ids + [order[i]];
        }
      }
      assert order[..|order|] == order;
    }

    /** `is_valid`: whether the step `m` of entity `id` is allowed, and the cell
        it leads to. The grid is read at the numpy index, which counts negative
        coordinates from the end. */
    function IsValid(id: Id, m: Move): (r: (bool, Pos))
      reads this, grid
      requires Valid() && id in entities
      requires Readable(State(), Step(entities[id].pos, m))
      ensures r.1 == Step(entities[id].pos, m)
      ensures r.0 == Accepts(State(), r.1)
    {
      var np := Step(entities[id].pos, m);
      var inside := np.x > 0 && np.x < width && np.y > 0 && np.y < height;
      var row := if np.y < 0 then np.y + height else np.y;
      var column := if np.x < 0 then np.x + width else np.x;
      (inside && grid[row, column] != Wall, np)
    }

    /** `move`. */
    method Move(id: Id, from: Pos, to: Pos)
      requires Valid() && id in entities && InBounds(State(), from) && InBounds(State(), to)
      modifies this, grid
      ensures Valid() && State() == MoveEntity(old(State()), id, from, to)
    {
      ghost var w := State();
      MoveKeepsOk(w, id, from, to);
      var e := entities[id];
      SetCell(from, Open);
      entities := entities[id := e.(pos := to)];
      SetCell(to, e.symbol);
      assert cells == w.cells[from := Open][to := w.entities[id].symbol];
      assert entities == w.entities[id := w.entities[id].(pos := to)];
    }

    /** `lost`: a capture when the two cells are the same. */
    method Lost(playerPos: Pos, enemyPos: Pos) returns (caught: bool)
      requires Valid()
      requires playerPos == enemyPos ==> playerId.Some? && InBounds(State(), playerPos)
      modifies this, grid
      ensures Valid() && caught == (playerPos == enemyPos)
      ensures State() == if caught then Catch(old(State()), playerPos) else old(State())
    {
      if playerPos != enemyPos {
        return false;
      }
      CatchKeepsOk(State(), playerPos);
      var pid := playerId.value;
      entities := entities[pid := entities[pid].(symbol := '!')];
      SetCell(playerPos, '!');
      return true;
    }

    /** `get_player`. */
    function GetPlayer(): (r: (Id, Entity))
      reads this, grid
      requires Valid() && playerId.Some?
      ensures playerId == Some(r.0) && r.0 in entities && r.1 == entities[r.0]
      ensures r.1.category == Player
    {
      (playerId.value, entities[playerId.value])
    }

    /** `won`. */
    method Won() returns (s: Config.Status)
      requires Valid() && playerId.Some?
      modifies this, grid
      ensures Valid() && s == Config.Won
      ensures State() == Win(old(State()))
    {
      WinKeepsOk(State());
      var pid := playerId.value;
      entities := entities[pid := entities[pid].(symbol := 'W')];
      var (_, player) := GetPlayer();
      SetCell(player.pos, 'W');
      s := Config.Won;
    }

    /** The loop at the end of `update_map`: every prize is drawn again. */
    method RestorePrizes()
      requires Valid()
      modifies this`cells, grid
      ensures Valid() && State() == Restore(old(State()))
    {
      var prizes := GetEntityCategory(Prize);
      for i := 0 to |prizes|
        invariant Mirrors() && cells == Paint(old(cells), prizes[..i], entities)
      {
        PaintStep(old(cells), prizes, entities, i);
        var prize := entities[prizes[i]];
        SetCell(prize.pos, prize.symbol);
      }
      assert prizes[..|prizes|] == prizes;
      RestoreKeepsOk(old(State()));
    }

    /** `update_map`. */
    method UpdateMap(id: Id, m: Move) returns (s: Config.Status)
      requires Valid() && id in entities
      requires Readable(State(), Step(entities[id].pos, m))
      requires Accepts(State(), Step(entities[id].pos, m)) && entities[id].category == Enemy ==> playerId.Some?
      modifies this, grid
      ensures Valid()
      ensures (s, State()) == Update(old(State()), id, m)
    {
      var (ok, np) := IsValid(id, m);
      if !ok {
        return Config.Ok;
      }
      var category := entities[id].category;
      if category == Enemy {
        s := EnemyStep(id, np);
      } else if category == Player {
        s := PlayerStep(id, np);
      } else {
        RestorePrizes();
        s := Config.Ok;
      }
    }

    /** The enemy branch of `update_map`, with the repaint that follows it. */
    method EnemyStep(id: Id, np: Pos) returns (s: Config.Status)
      requires Valid() && id in entities && playerId.Some? && InBounds(State(), np)
      modifies this, grid
      ensures Valid()
      ensures (s, State()) == EnemyTurn(old(State()), id, np)
    {
      var playerPos := entities[playerId.value].pos;
      var caught := Lost(playerPos, np);
      if caught {
        return Config.Lost;
      }
      Move(id, entities[id].pos, np);
      RestorePrizes();
      s := Config.Ok;
    }

    /** The player branch of `update_map`. */
    method PlayerStep(id: Id, np: Pos) returns (s: Config.Status)
      requires Valid() && id in entities && entities[id].category == Player
      requires InBounds(State(), np)
      modifies this, grid
      ensures Valid()
      ensures (s, State()) == PlayerTurn(old(State()), id, np)
    {
      var enemies := GetEntityCategory(Enemy);
      for i := 0 to |enemies|
        invariant Valid() && State() == old(State())
        invariant forall j :: 0 <= j < i ==> old(entities)[enemies[j]].pos != np
      {
        var enemy := entities[enemies[i]];
        if np == enemy.pos {
          PlayerTurnCaught(State(), id, np, i);
        }
        var caught := Lost(np, enemy.pos);
        if caught {
          return Config.Lost;
        }
      }
      PlayerTurnFree(State(), id, np);
      Move(id, entities[id].pos, np);
      s := CollectPrize(np);
    }

    /** The rest of `update_map` once the player has moved to `np`: the prize
        loop, and the repaint when no prize is on `np`. */
    method CollectPrize(np: Pos) returns (s: Config.Status)
      requires Valid() && playerId.Some?
      modifies this, grid
      ensures Valid()
      ensures (s, State()) == Collect(old(State()), np)
    {
      var prizes := GetEntityCategory(Prize);
      for i := 0 to |prizes|
        invariant Valid() && State() == old(State())
        invariant forall j :: 0 <= j < i ==> entities[prizes[j]].pos != np
      {
        var prize := entities[prizes[i]];
        if np == prize.pos {
          CollectFound(State(), np, i);
          DeletePrize(prizes[i]);
          var left := GetEntityCategory(Prize);
          if left == [] {
            s := Won();
            return;
          }
          return Config.Score;
        }
      }
      CollectNone(State(), np);
      RestorePrizes();
      s := Config.Ok;
    }

    /** `del self.entities[k]`. */
    method DeletePrize(k: Id)
      requires Valid() && k in entities && entities[k].category == Prize
      modifies this
      ensures Valid() && State() == Delete(old(State()), k)
    {
      DeleteKeepsOk(State(), k);
      entities := entities - {k};
      order := Without(order, k);
    }

    /** `closest_prize`: the prize nearest to the player, the first one in
        registry order among equally near ones. */
    method ClosestPrize() returns (index: Id, closest: Entity)
      requires Valid() && playerId.Some? && Ids(State(), Prize) != []
      ensures closest.category == Prize
      ensures exists i :: ClosestTo(entities[playerId.value], Ids(State(), Prize), entities, i, index, closest)
    {
      var player := entities[playerId.value];
      var prizeIds := GetEntityCategory(Prize);
      index, closest := ClosestOf(player, prizeIds, entities);
      ghost var i :| ClosestTo(player, prizeIds, entities, i, index, closest);
      assert ClosestTo(entities[playerId.value], Ids(State(), Prize), entities, i, index, closest);
    }
  }

  /** The loop of `closest_prize` over the ids `ids`: a running minimum that
      only moves on a strictly smaller distance. */
  method ClosestOf(player: Entity, ids: seq<Id>, ents: map<Id, Entity>)
    returns (index: Id, closest: Entity)
    requires AllIn(ids, ents) && ids != []
    ensures index in ids && closest == ents[index]
    ensures exists i :: ClosestTo(player, ids, ents, i, index, closest)
  {
    index := ids[0];
    closest := ents[index];
    ghost var at := 0;
    for i := 0 to |ids|
      invariant 0 <= at < |ids| && at <= i
      invariant ids[at] == index && closest == ents[index]
      invariant forall j :: 0 <= j < i ==> player.Dist(closest) <= player.Dist(ents[ids[j]])
      invariant forall j :: 0 <= j < at ==> player.Dist(ents[ids[j]]) > player.Dist(closest)
    {
      var prize := ents[ids[i]];
      if player.Dist(prize) < player.Dist(closest) {
        index := ids[i];
        closest := prize;
        at := i;
      }
    }
    assert ClosestTo(player, ids, ents, at, index, closest);
  }
}
