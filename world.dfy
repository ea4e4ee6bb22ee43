/** The world state of `map.py` as a value: the cell grid, the entity registry
    (a dict from ids to entities, kept in insertion order), the id counter and
    the player's id; and each of its state changes as a function from the old
    world to the new one. The class `GameMap.Map` performs these changes in
    place and is proved against these functions. */
module WorldState {
  import opened Seqs
  import opened Grid
  import Config

  /** Registry keys are the decimal strings of the id counter. */
  type Id = string

  /** The entity categories the map logic tells apart; `Other` stands for any
      other label (power-ups, for one), which the map never branches on. */
  datatype Category = Player | Enemy | Prize | Other(name: string)

  datatype Entity = Entity(pos: Pos, symbol: char, category: Category)
  {
    /** `Entity.__eq__`: entities compare equal when they stand on the same cell. */
    predicate SameCell(other: Entity)
      ensures SameCell(other) <==> other.pos.x == pos.x && other.pos.y == pos.y
    {
      pos == other.pos
    }

    /** `Entity.dist`: squared distance between the two cells. */
    function Dist(other: Entity): (d: int)
      ensures d >= 0
    {
      SqDist(pos, other.pos)
    }
  }

  /** Two entities are at distance zero exactly when they are equal in the sense
      of `Entity.__eq__`, and distance is symmetric. */
  lemma DistZero(a: Entity, b: Entity)
    ensures a.Dist(b) == 0 <==> a.SameCell(b)
    ensures a.Dist(b) == b.Dist(a)
  {
    SqDistZero(a.pos, b.pos);
  }

  // ---------------------------------------------------------------------------
  // Ids: `str(entities_counter)`

  function DigitChar(d: nat): char
    requires d < 10
  {
    ('0' as int + d) as char
  }

  /** The decimal rendering of `n`, as Python's `str` gives it. */
  function Decimal(n: nat): (s: string)
    ensures |s| >= 1
    ensures n >= 10 ==> |s| >= 2
    ensures n < 10 ==> |s| == 1
  {
    if n < 10 then [DigitChar(n)] else Decimal(n / 10) + [DigitChar(n % 10)]
  }

  /** Distinct counter values give distinct ids. */
  lemma {:induction false} DecimalInjective(a: nat, b: nat)
    requires Decimal(a) == Decimal(b)
    ensures a == b
  {
    if a >= 10 && b >= 10 {
      var sa, sb := Decimal(a), Decimal(b);
      assert sa[|sa| - 1] == DigitChar(a % 10) && sb[|sb| - 1] == DigitChar(b % 10);
      assert a % 10 == b % 10;
      assert sa[..|sa| - 1] == Decimal(a / 10) && sb[..|sb| - 1] == Decimal(b / 10);
      DecimalInjective(a / 10, b / 10);
    } else if a < 10 && b < 10 {
      assert Decimal(a)[0] == DigitChar(a) && Decimal(b)[0] == DigitChar(b);
    }
  }

  // ---------------------------------------------------------------------------
  // The world and its invariant

  datatype World = World(
    width: int,
    height: int,
    cells: map<Pos, char>,
    entities: map<Id, Entity>,
    order: seq<Id>,
    counter: nat,
    playerId: Option<Id>)

  predicate InBounds(w: World, p: Pos)
  {
    0 <= p.x < w.width && 0 <= p.y < w.height
  }

  /** Every id of `s` is registered in `ents`. */
  predicate AllIn(s: seq<Id>, ents: map<Id, Entity>)
  {
    forall k :: k in s ==> k in ents
  }

  /** The grid is a non-empty rectangle with one glyph per cell. */
  ghost predicate CellsOk(w: World)
  {
    && w.width > 0 && w.height > 0
    && (forall p :: p in w.cells <==> InBounds(w, p))
  }

  /** The registry keeps each id once, in insertion order; every entity stands in
      the grid; every id the counter will still produce is unused; and
      `player_id` names a registered player whenever a player was added. */
  ghost predicate RegistryOk(w: World)
  {
    && Distinct(w.order)
    && (forall k :: k in w.entities <==> k in w.order)
    && (forall k :: k in w.entities ==> InBounds(w, w.entities[k].pos))
    && (forall n: nat :: Decimal(n) in w.entities ==> n < w.counter)
    && (w.playerId.Some? ==>
          w.playerId.value in w.entities && w.entities[w.playerId.value].category == Player)
    && (forall k :: k in w.entities && w.entities[k].category == Player ==> w.playerId.Some?)
  }

  ghost predicate WorldOk(w: World)
  {
    CellsOk(w) && RegistryOk(w)
  }

  /** The rows of a map file: at least one non-empty row, all of one length. */
  predicate Rectangular(rows: seq<seq<char>>)
  {
    |rows| > 0 && |rows[0]| > 0 && forall y :: 0 <= y < |rows| ==> |rows[y]| == |rows[0]|
  }

  /** The world after `Map.__init__`: the glyphs of the rows, no entities, the
      counter at zero and no player. */
  function Initial(rows: seq<seq<char>>): (w: World)
    requires Rectangular(rows)
    ensures w.width == |rows[0]| && w.height == |rows|
    ensures forall p :: p in w.cells <==> InBounds(w, p)
    ensures forall p :: p in w.cells ==> w.cells[p] == Glyph(rows, p)
    ensures w.entities == map[] && w.order == [] && w.counter == 0 && w.playerId == None
  {
    var width, height := |rows[0]|, |rows|;
    World(width, height, map p | p in Box(width, height) :: Glyph(rows, p), map[], [], 0, None)
  }

  /** The glyph at `p` of the rows, where there is one. */
  function Glyph(rows: seq<seq<char>>, p: Pos): char
  {
    if 0 <= p.y < |rows| && 0 <= p.x < |rows[p.y]| then rows[p.y][p.x] else Open
  }

  /** A freshly loaded map satisfies the invariant. */
  lemma InitialOk(rows: seq<seq<char>>)
    requires Rectangular(rows)
    ensures WorldOk(Initial(rows))
  {
  }

  // ---------------------------------------------------------------------------
  // Category lists: `get_entity_category`

  /** The ids of `s` whose entity has category `cat`, in the order of `s`. */
  function OfCategory(s: seq<Id>, ents: map<Id, Entity>, cat: Category): (r: seq<Id>)
    requires AllIn(s, ents)
    ensures forall k :: k in r <==> k in s && ents[k].category == cat
    ensures Subsequence(r, s)
    decreases |s|
  {
    if s == [] then []
    else
      var k := s[|s| - 1];
      var rest := OfCategory(s[..|s| - 1], ents, cat);
      if ents[k].category == cat then rest + [k] else rest
  }

  /** Scanning one more id of `s` appends it to the list when its category matches. */
  lemma OfCategoryStep(s: seq<Id>, ents: map<Id, Entity>, cat: Category, i: nat)
    requires AllIn(s, ents) && i < |s|
    ensures AllIn(s[..i + 1], ents)
    ensures OfCategory(s[..i + 1], ents, cat)
         == OfCategory(s[..i], ents, cat) + (if ents[s[i]].category == cat then [s[i]] else [])
  {
    assert s[..i + 1][..i] == s[..i];
  }

  /** `get_entity_category(cat)` on world `w`. */
  function Ids(w: World, cat: Category): seq<Id>
    requires AllIn(w.order, w.entities)
  {
    OfCategory(w.order, w.entities, cat)
  }

  /** The category lists only depend on the categories of the listed ids. */
  lemma {:induction false} OfCategorySameCategories(s: seq<Id>, e1: map<Id, Entity>, e2: map<Id, Entity>, cat: Category)
    requires AllIn(s, e1) && AllIn(s, e2)
    requires forall k :: k in s ==> e1[k].category == e2[k].category
    ensures OfCategory(s, e1, cat) == OfCategory(s, e2, cat)
    decreases |s|
  {
    if s != [] {
      OfCategorySameCategories(s[..|s| - 1], e1, e2, cat);
    }
  }

  /** Deleting an id from the order deletes it from every category list. */
  lemma {:induction false} OfCategoryWithout(s: seq<Id>, ents: map<Id, Entity>, cat: Category, x: Id)
    requires AllIn(s, ents)
    ensures OfCategory(Without(s, x), ents, cat) == Without(OfCategory(s, ents, cat), x)
    decreases |s|
  {
    if s != [] {
      var s' := s[..|s| - 1];
      OfCategoryWithout(s', ents, cat, x);
      var r' := OfCategory(s', ents, cat);
      var k := s[|s| - 1];
      if ents[k].category == cat {
        assert (r' + [k])[..|r' + [k]| - 1] == r';
      }
      if k != x {
        assert (Without(s', x) + [k])[..|Without(s', x) + [k]| - 1] == Without(s', x);
      }
    }
  }

  /** Appending an id to the order appends it to the list of its category only. */
  lemma OfCategoryAppend(s: seq<Id>, ents: map<Id, Entity>, cat: Category, k: Id)
    requires AllIn(s, ents) && k in ents
    ensures OfCategory(s + [k], ents, cat)
         == OfCategory(s, ents, cat) + (if ents[k].category == cat then [k] else [])
  {
    assert (s + [k])[..|s + [k]| - 1] == s;
  }

  /** Registering a new id at the end of the order lists it at the end of its
      category and nowhere else. */
  lemma OfCategoryExtend(s: seq<Id>, ents: map<Id, Entity>, k: Id, e: Entity, cat: Category)
    requires AllIn(s, ents) && k !in s
    ensures AllIn(s + [k], ents[k := e])
    ensures OfCategory(s + [k], ents[k := e], cat)
         == OfCategory(s, ents, cat) + (if e.category == cat then [k] else [])
  {
    var ents' := ents[k := e];
    OfCategoryAppend(s, ents', cat, k);
    OfCategorySameCategories(s, ents, ents', cat);
  }

  // ---------------------------------------------------------------------------
  // The nearest entity: `closest_prize`

  /** `ids[i]` is `index`, its entity is `closest`, no entity of `ids` is nearer
      to `player`, and every earlier one is strictly farther. */
  ghost predicate ClosestTo(player: Entity, ids: seq<Id>, ents: map<Id, Entity>, i: int, index: Id, closest: Entity)
    requires AllIn(ids, ents)
  {
    && 0 <= i < |ids| && ids[i] == index && ents[index] == closest
    && (forall j :: 0 <= j < |ids| ==> player.Dist(closest) <= player.Dist(ents[ids[j]]))
    && (forall j :: 0 <= j < i ==> player.Dist(ents[ids[j]]) > player.Dist(closest))
  }

  /** The nearest entity, earliest among ties, is unique. */
  lemma ClosestUnique(player: Entity, ids: seq<Id>, ents: map<Id, Entity>,
                      i: int, index: Id, closest: Entity, i': int, index': Id, closest': Entity)
    requires AllIn(ids, ents)
    requires ClosestTo(player, ids, ents, i, index, closest)
    requires ClosestTo(player, ids, ents, i', index', closest')
    ensures i == i' && index == index' && closest == closest'
  {
  }

  // ---------------------------------------------------------------------------
  // First match in a list, as the `for index in ...: if ...: return` loops find it

  /** The first index `i >= from` of `s` whose entity stands on `p`. */
  function FirstFrom(s: seq<Id>, ents: map<Id, Entity>, p: Pos, from: nat): (r: Option<nat>)
    requires AllIn(s, ents)
    ensures r.None? ==> forall j :: from <= j < |s| ==> ents[s[j]].pos != p
    ensures r.Some? ==> from <= r.value < |s| && ents[s[r.value]].pos == p
    ensures r.Some? ==> forall j :: from <= j < r.value ==> ents[s[j]].pos != p
    decreases |s| - from
  {
    if from >= |s| then None
    else if ents[s[from]].pos == p then Some(from)
    else FirstFrom(s, ents, p, from + 1)
  }

  // ---------------------------------------------------------------------------
  // Grid repainting: the prize loop at the end of `update_map`

  /** Writes the symbol of every entity of `s` on its cell, in the order of `s`. */
  function Paint(c: map<Pos, char>, s: seq<Id>, ents: map<Id, Entity>): (r: map<Pos, char>)
    requires AllIn(s, ents)
    ensures forall p :: p in c ==> p in r
    ensures forall i :: 0 <= i < |s| ==> ents[s[i]].pos in r
    ensures (forall i :: 0 <= i < |s| ==> ents[s[i]].pos in c) ==> r.Keys == c.Keys
    decreases |s|
  {
    if s == [] then c
    else
      var k := s[|s| - 1];
      Paint(c, s[..|s| - 1], ents)[ents[k].pos := ents[k].symbol]
  }

  /** Painting one more entity of `s` draws its symbol over the earlier ones. */
  lemma PaintStep(c: map<Pos, char>, s: seq<Id>, ents: map<Id, Entity>, i: nat)
    requires AllIn(s, ents) && i < |s|
    ensures AllIn(s[..i + 1], ents)
    ensures Paint(c, s[..i + 1], ents) == Paint(c, s[..i], ents)[ents[s[i]].pos := ents[s[i]].symbol]
  {
    assert s[..i + 1][..i] == s[..i];
  }

  /** A cell on which no painted entity stands keeps its glyph. */
  lemma {:induction false} PaintElsewhere(c: map<Pos, char>, s: seq<Id>, ents: map<Id, Entity>, p: Pos)
    requires AllIn(s, ents) && p in c
    requires forall i :: 0 <= i < |s| ==> ents[s[i]].pos != p
    ensures Paint(c, s, ents)[p] == c[p]
    decreases |s|
  {
    if s != [] {
      var s' := s[..|s| - 1];
      assert ents[s[|s| - 1]].pos != p;
      assert forall i :: 0 <= i < |s'| ==> s'[i] == s[i];
      PaintElsewhere(c, s', ents, p);
    }
  }

  /** The cell of `s[i]` shows, in `c`, the symbol of the last entity of `s`
      that stands on that cell. */
  ghost predicate ShowsLast(c: map<Pos, char>, s: seq<Id>, ents: map<Id, Entity>, i: nat)
    requires AllIn(s, ents) && i < |s|
  {
    var p := ents[s[i]].pos;
    p in c &&
    exists j :: i <= j < |s| && ents[s[j]].pos == p && c[p] == ents[s[j]].symbol
      && forall j' :: j < j' < |s| ==> ents[s[j']].pos != p
  }

  /** Painting in order leaves the last writer of each cell visible. */
  lemma {:induction false} PaintLastWins(c: map<Pos, char>, s: seq<Id>, ents: map<Id, Entity>, i: nat)
    requires AllIn(s, ents) && i < |s|
    ensures ShowsLast(Paint(c, s, ents), s, ents, i)
    decreases |s|
  {
    var p := ents[s[i]].pos;
    var n := |s| - 1;
    var r := Paint(c, s, ents);
    if ents[s[n]].pos == p {
      assert r[p] == ents[s[n]].symbol;
      assert i <= n < |s| && ents[s[n]].pos == p && r[p] == ents[s[n]].symbol;
    } else {
      var s' := s[..n];
      assert s'[i] == s[i];
      PaintLastWins(c, s', ents, i);
      var r' := Paint(c, s', ents);
      assert r == r'[ents[s[n]].pos := ents[s[n]].symbol];
      var j :| i <= j < |s'| && ents[s'[j]].pos == p && r'[p] == ents[s'[j]].symbol
        && forall j' :: j < j' < |s'| ==> ents[s'[j']].pos != p;
      assert r[p] == r'[p];
      assert s[j] == s'[j];
      forall j' | j < j' < |s| ensures ents[s[j']].pos != p {
        if j' < n {
          assert s[j'] == s'[j'];
        }
      }
    }
  }

  // ---------------------------------------------------------------------------
  // The state changes

  /** The bounds test and wall test of `is_valid`: strictly inside the border and
      not a wall. */
  predicate Accepts(w: World, np: Pos)
  {
    0 < np.x < w.width && 0 < np.y < w.height && np in w.cells && w.cells[np] != Wall
  }

  /** `is_valid` reads `self.map[y, x]` before it knows the bounds hold: numpy
      raises beyond the array and wraps negative indices, so the read succeeds
      exactly inside this range. */
  predicate Readable(w: World, np: Pos)
  {
    -w.width <= np.x < w.width && -w.height <= np.y < w.height
  }

  /** `w'` has the grid size, id counter and player id of `w`, and no entity
      that `w` does not have: none of the changes an update makes touches them. */
  ghost predicate Keeps(w: World, w': World)
  {
    && w'.width == w.width && w'.height == w.height
    && w'.counter == w.counter && w'.playerId == w.playerId
    && w'.entities.Keys <= w.entities.Keys
  }

  /** `move`: the old cell becomes open, the entity moves and its symbol is drawn
      on the new cell. */
  function MoveEntity(w: World, id: Id, from: Pos, to: Pos): (w': World)
    requires id in w.entities
    ensures Keeps(w, w') && w'.entities.Keys == w.entities.Keys && w'.order == w.order
    ensures w'.entities[id].pos == to && w'.entities[id].symbol == w.entities[id].symbol
    ensures forall p :: p in w'.cells <==> p in w.cells || p == from || p == to
  {
    w.(cells := w.cells[from := Open][to := w.entities[id].symbol],
       entities := w.entities[id := w.entities[id].(pos := to)])
  }

  /** The capture side of `lost`: the player's symbol and the given cell become `!`. */
  function Catch(w: World, at: Pos): (w': World)
    requires w.playerId.Some? && w.playerId.value in w.entities
    ensures Keeps(w, w') && w'.entities.Keys == w.entities.Keys && w'.order == w.order
    ensures var pid := w.playerId.value;
      w'.entities[pid].pos == w.entities[pid].pos && w'.entities[pid].category == w.entities[pid].category
    ensures forall p :: p in w'.cells <==> p in w.cells || p == at
  {
    var pid := w.playerId.value;
    w.(cells := w.cells[at := '!'],
       entities := w.entities[pid := w.entities[pid].(symbol := '!')])
  }

  /** `won`: the player's symbol and cell become `W`. */
  function Win(w: World): (w': World)
    requires w.playerId.Some? && w.playerId.value in w.entities
    ensures Keeps(w, w') && w'.entities.Keys == w.entities.Keys && w'.order == w.order
    ensures var pid := w.playerId.value;
      w'.entities[pid].pos == w.entities[pid].pos
      && w'.entities[pid].pos in w'.cells && w'.cells[w'.entities[pid].pos] == 'W'
  {
    var pid := w.playerId.value;
    w.(cells := w.cells[w.entities[pid].pos := 'W'],
       entities := w.entities[pid := w.entities[pid].(symbol := 'W')])
  }

  /** `del self.entities[k]`. */
  function Delete(w: World, k: Id): (w': World)
    ensures Keeps(w, w') && w'.cells == w.cells
    ensures w'.entities.Keys == w.entities.Keys - {k}
    ensures forall j :: j in w'.entities ==> w'.entities[j] == w.entities[j]
    ensures forall j :: j in w'.order <==> j in w.order && j != k
  {
    w.(entities := w.entities - {k}, order := Without(w.order, k))
  }

  /** The repaint loop: every prize's symbol is drawn on its cell again. */
  function Restore(w: World): (w': World)
    requires AllIn(w.order, w.entities)
    ensures Keeps(w, w') && w'.entities == w.entities && w'.order == w.order
    ensures forall p :: p in w.cells ==> p in w'.cells
  {
    w.(cells := Paint(w.cells, Ids(w, Prize), w.entities))
  }

  /** `add_entity` at a given open cell. */
  function Add(w: World, cat: Category, symbol: char, pos: Pos): (w': World)
    requires pos in w.cells && w.cells[pos] == Open
    ensures w'.entities.Keys == w.entities.Keys + {Decimal(w.counter)}
    ensures w'.entities[Decimal(w.counter)] == Entity(pos, symbol, cat)
    ensures w'.cells.Keys == w.cells.Keys && w'.cells[pos] == symbol
    ensures w'.counter == w.counter + 1
  {
    var id := Decimal(w.counter);
    w.(cells := w.cells[pos := symbol],
       entities := w.entities[id := Entity(pos, symbol, cat)],
       order := w.order + [id],
       counter := w.counter + 1,
       playerId := if cat == Player then Some(id) else w.playerId)
  }

  /** The end of the player's turn in `update_map`, after it has moved to `np`:
      the first prize on `np`, in registry order, is collected, and otherwise
      the prizes are drawn again. */
  function Collect(w1: World, np: Pos): (r: (Config.Status, World))
    requires WorldOk(w1) && w1.playerId.Some?
    ensures r.0 == Config.Ok || r.0 == Config.Score || r.0 == Config.Won
    ensures Keeps(w1, r.1)
    ensures r.0 == Config.Ok ==> r.1.entities == w1.entities && r.1.order == w1.order
  {
    var prizes := Ids(w1, Prize);
    match FirstFrom(prizes, w1.entities, np, 0)
    case Some(i) =>
      var w2 := Delete(w1, prizes[i]);
      if Ids(w2, Prize) == [] then (Config.Won, Win(w2)) else (Config.Score, w2)
    case None => (Config.Ok, Restore(w1))
  }

  /** `Collect` when the first prize on `np` is the `i`-th one. */
  lemma CollectFound(w1: World, np: Pos, i: nat)
    requires WorldOk(w1) && w1.playerId.Some?
    requires i < |Ids(w1, Prize)| && w1.entities[Ids(w1, Prize)[i]].pos == np
    requires forall j :: 0 <= j < i ==> w1.entities[Ids(w1, Prize)[j]].pos != np
    ensures var k := Ids(w1, Prize)[i];
      && k in w1.entities && w1.entities[k].category == Prize
      && WorldOk(Delete(w1, k)) && Delete(w1, k).playerId.Some?
      && Collect(w1, np) ==
           (var w2 := Delete(w1, k);
            if Ids(w2, Prize) == [] then (Config.Won, Win(w2)) else (Config.Score, w2))
  {
    var k := Ids(w1, Prize)[i];
    DeleteKeepsOk(w1, k);
  }

  /** `Collect` when no prize is on `np`. */
  lemma CollectNone(w1: World, np: Pos)
    requires WorldOk(w1) && w1.playerId.Some?
    requires forall j :: 0 <= j < |Ids(w1, Prize)| ==> w1.entities[Ids(w1, Prize)[j]].pos != np
    ensures Collect(w1, np) == (Config.Ok, Restore(w1))
  {
  }

  /** An enemy's accepted step to `np`: it catches the player standing there, or
      it moves and the prizes are drawn again. */
  function EnemyTurn(w: World, id: Id, np: Pos): (r: (Config.Status, World))
    requires WorldOk(w) && id in w.entities && w.playerId.Some?
    ensures r.0 == Config.Ok || r.0 == Config.Lost
    ensures Keeps(w, r.1) && r.1.entities.Keys == w.entities.Keys && r.1.order == w.order
  {
    if w.entities[w.playerId.value].pos == np then (Config.Lost, Catch(w, np))
    else (Config.Ok, Restore(MoveEntity(w, id, w.entities[id].pos, np)))
  }

  /** The player's accepted step to `np`: an enemy there catches it before it
      moves; otherwise it moves and collects. */
  function PlayerTurn(w: World, id: Id, np: Pos): (r: (Config.Status, World))
    requires WorldOk(w) && id in w.entities && w.entities[id].category == Player
    requires InBounds(w, np)
    ensures r.0 != Config.Prize && r.0 != Config.Power && r.0 != Config.Normal && r.0 != Config.Eat
    ensures Keeps(w, r.1)
    ensures r.0 == Config.Lost ==> id in r.1.entities && r.1.entities[id].pos == w.entities[id].pos
  {
    if FirstFrom(Ids(w, Enemy), w.entities, np, 0).Some? then (Config.Lost, Catch(w, np))
    else
      MoveKeepsOk(w, id, w.entities[id].pos, np);
      Collect(MoveEntity(w, id, w.entities[id].pos, np), np)
  }

  /** `PlayerTurn` when the `i`-th enemy stands on `np`. */
  lemma PlayerTurnCaught(w: World, id: Id, np: Pos, i: nat)
    requires WorldOk(w) && id in w.entities && w.entities[id].category == Player
    requires InBounds(w, np)
    requires i < |Ids(w, Enemy)| && w.entities[Ids(w, Enemy)[i]].pos == np
    ensures PlayerTurn(w, id, np) == (Config.Lost, Catch(w, np))
  {
  }

  /** `PlayerTurn` when no enemy stands on `np`. */
  lemma PlayerTurnFree(w: World, id: Id, np: Pos)
    requires WorldOk(w) && id in w.entities && w.entities[id].category == Player
    requires InBounds(w, np)
    requires forall j :: 0 <= j < |Ids(w, Enemy)| ==> w.entities[Ids(w, Enemy)[j]].pos != np
    ensures WorldOk(MoveEntity(w, id, w.entities[id].pos, np))
    ensures MoveEntity(w, id, w.entities[id].pos, np).playerId.Some?
    ensures PlayerTurn(w, id, np) == Collect(MoveEntity(w, id, w.entities[id].pos, np), np)
  {
    MoveKeepsOk(w, id, w.entities[id].pos, np);
  }

  /** `update_map(id, m)`: the status it returns and the world it leaves. */
  function Update(w: World, id: Id, m: Move): (r: (Config.Status, World))
    requires WorldOk(w) && id in w.entities
    requires Readable(w, Step(w.entities[id].pos, m))
    requires Accepts(w, Step(w.entities[id].pos, m)) && w.entities[id].category == Enemy ==> w.playerId.Some?
    ensures r.0 == Config.Ok || r.0 == Config.Lost || r.0 == Config.Score || r.0 == Config.Won
    ensures Keeps(w, r.1)
    ensures r.0 == Config.Ok || r.0 == Config.Lost ==> r.1.entities.Keys == w.entities.Keys && r.1.order == w.order
  {
    var e := w.entities[id];
    var np := Step(e.pos, m);
    if !Accepts(w, np) then (Config.Ok, w)
    else if e.category == Enemy then EnemyTurn(w, id, np)
    else if e.category == Player then PlayerTurn(w, id, np)
    else (Config.Ok, Restore(w))
  }

  // ---------------------------------------------------------------------------
  // The invariant is kept by every state change

  lemma MoveKeepsOk(w: World, id: Id, from: Pos, to: Pos)
    requires WorldOk(w) && id in w.entities && InBounds(w, from) && InBounds(w, to)
    ensures WorldOk(MoveEntity(w, id, from, to))
  {
  }

  lemma CatchKeepsOk(w: World, at: Pos)
    requires WorldOk(w) && w.playerId.Some? && InBounds(w, at)
    ensures WorldOk(Catch(w, at))
  {
  }

  lemma WinKeepsOk(w: World)
    requires WorldOk(w) && w.playerId.Some?
    ensures WorldOk(Win(w))
  {
  }

  lemma RestoreKeepsOk(w: World)
    requires WorldOk(w)
    ensures WorldOk(Restore(w))
  {
    var P := Ids(w, Prize);
    assert forall i :: 0 <= i < |P| ==> w.entities[P[i]].pos in w.cells;
  }

  /** Deleting a registered non-player entity keeps the invariant. */
  lemma DeleteKeepsOk(w: World, k: Id)
    requires WorldOk(w) && k in w.entities && w.entities[k].category != Player
    ensures WorldOk(Delete(w, k))
  {
    WithoutDistinct(w.order, k);
    var w' := Delete(w, k);
    forall k' ensures k' in w'.entities <==> k' in w'.order {
      if k' in w'.order {
        var i :| 0 <= i < |w'.order| && w'.order[i] == k';
      }
      if k' in w'.entities {
        var i :| 0 <= i < |w.order| && w.order[i] == k';
      }
    }
  }

  /** `add_entity` keeps the invariant: the new id was unused. */
  lemma AddKeepsOk(w: World, cat: Category, symbol: char, pos: Pos)
    requires WorldOk(w) && pos in w.cells && w.cells[pos] == Open
    ensures Decimal(w.counter) !in w.entities
    ensures WorldOk(Add(w, cat, symbol, pos))
  {
    var id := Decimal(w.counter);
    var w' := Add(w, cat, symbol, pos);
    assert id !in w.order;
    forall i, j | 0 <= i < j < |w'.order| ensures Differ(w'.order, i, j) {
      if j == |w.order| {
        assert w'.order[i] == w.order[i];
        assert w.order[i] in w.entities;
      } else {
        assert Differ(w.order, i, j);
      }
    }
    forall n: nat | Decimal(n) in w'.entities ensures n < w'.counter {
      if Decimal(n) == id {
        DecimalInjective(n, w.counter);
      }
    }
  }

  /** `update_map` keeps the invariant. */
  lemma UpdateKeepsOk(w: World, id: Id, m: Move)
    requires WorldOk(w) && id in w.entities
    requires Readable(w, Step(w.entities[id].pos, m))
    requires Accepts(w, Step(w.entities[id].pos, m)) && w.entities[id].category == Enemy ==> w.playerId.Some?
    ensures WorldOk(Update(w, id, m).1)
  {
    var e := w.entities[id];
    var np := Step(e.pos, m);
    if Accepts(w, np) {
      if e.category == Enemy {
        if w.entities[w.playerId.value].pos == np {
          CatchKeepsOk(w, np);
        } else {
          MoveKeepsOk(w, id, e.pos, np);
          RestoreKeepsOk(MoveEntity(w, id, e.pos, np));
        }
      } else if e.category == Player {
        if FirstFrom(Ids(w, Enemy), w.entities, np, 0).Some? {
          CatchKeepsOk(w, np);
        } else {
          var w1 := MoveEntity(w, id, e.pos, np);
          MoveKeepsOk(w, id, e.pos, np);
          var prizes := Ids(w1, Prize);
          match FirstFrom(prizes, w1.entities, np, 0)
          case Some(i) =>
            DeleteKeepsOk(w1, prizes[i]);
            var w2 := Delete(w1, prizes[i]);
            if Ids(w2, Prize) == [] {
              WinKeepsOk(w2);
            }
          case None =>
            RestoreKeepsOk(w1);
        }
      } else {
        RestoreKeepsOk(w);
      }
    }
  }

  // ---------------------------------------------------------------------------
  // What `update_map` does, case by case

  /** A step off the strict interior, or onto a wall, changes nothing and reports OK. */
  lemma RejectedStep(w: World, id: Id, m: Move)
    requires WorldOk(w) && id in w.entities
    requires Readable(w, Step(w.entities[id].pos, m))
    requires var np := Step(w.entities[id].pos, m);
      !(0 < np.x < w.width && 0 < np.y < w.height && w.cells[np] != Wall)
    ensures Update(w, id, m) == (Config.Ok, w)
  {
  }

  /** `move`: the mover's old cell becomes open, its position and symbol go to the
      new cell, and no other entity or cell changes. */
  lemma MoveFrame(w: World, id: Id, from: Pos, to: Pos)
    requires id in w.entities
    ensures var w' := MoveEntity(w, id, from, to);
      && w'.entities.Keys == w.entities.Keys && w'.order == w.order
      && w'.entities[id] == w.entities[id].(pos := to)
      && w'.cells[to] == w.entities[id].symbol
      && (from != to ==> w'.cells[from] == Open)
      && (forall k :: k in w.entities && k != id ==> w'.entities[k] == w.entities[k])
      && (forall p :: p in w.cells && p != from && p != to ==> w'.cells[p] == w.cells[p])
  {
  }

  /** An enemy stepping onto the player's cell loses the game for the player: the
      enemy stays where it is, the player's symbol and cell become `!`, and nothing
      else changes. */
  lemma {:induction false} EnemyReachesPlayer(w: World, id: Id, m: Move)
    requires WorldOk(w) && id in w.entities
    requires Readable(w, Step(w.entities[id].pos, m))
    requires w.entities[id].category == Enemy && w.playerId.Some?
    requires Accepts(w, Step(w.entities[id].pos, m))
    requires w.entities[w.playerId.value].pos == Step(w.entities[id].pos, m)
    ensures var (s, w') := Update(w, id, m);
      var np := Step(w.entities[id].pos, m);
      var pid := w.playerId.value;
      && s == Config.Lost
      && w'.entities.Keys == w.entities.Keys && w'.order == w.order
      && w'.entities[id] == w.entities[id]
      && w'.entities[pid] == w.entities[pid].(symbol := '!')
      && w'.cells[np] == '!'
      && (forall k :: k in w.entities && k != pid ==> w'.entities[k] == w.entities[k])
      && (forall p :: p in w.cells && p != np ==> w'.cells[p] == w.cells[p])
  {
    assert id != w.playerId.value;
  }

  /** A player stepping onto an enemy's cell loses before it moves: its position is
      unchanged, its symbol and the enemy's cell become `!`, nothing else changes. */
  lemma {:induction false} PlayerRunsIntoEnemy(w: World, id: Id, m: Move, enemy: Id)
    requires WorldOk(w) && id in w.entities
    requires Readable(w, Step(w.entities[id].pos, m))
    requires w.entities[id].category == Player
    requires Accepts(w, Step(w.entities[id].pos, m))
    requires enemy in w.entities && w.entities[enemy].category == Enemy
    requires w.entities[enemy].pos == Step(w.entities[id].pos, m)
    ensures w.playerId.Some?
    ensures var (s, w') := Update(w, id, m);
      var np := Step(w.entities[id].pos, m);
      var pid := w.playerId.value;
      && s == Config.Lost
      && w'.entities.Keys == w.entities.Keys && w'.order == w.order
      && w'.entities[id].pos == w.entities[id].pos
      && w'.entities[pid] == w.entities[pid].(symbol := '!')
      && w'.cells[np] == '!'
      && (forall k :: k in w.entities && k != pid ==> w'.entities[k] == w.entities[k])
      && (forall p :: p in w.cells && p != np ==> w'.cells[p] == w.cells[p])
  {
    var np := Step(w.entities[id].pos, m);
    var enemies := Ids(w, Enemy);
    assert enemy in enemies by {
      var i :| 0 <= i < |w.order| && w.order[i] == enemy;
    }
    var j :| 0 <= j < |enemies| && enemies[j] == enemy;
    assert FirstFrom(enemies, w.entities, np, 0).Some?;
  }

  /** Deleting a prize removes exactly it from the prize list. */
  lemma DeleteOnePrize(w: World, k: Id)
    requires WorldOk(w) && k in w.entities && w.entities[k].category == Prize
    ensures WorldOk(Delete(w, k))
    ensures Ids(Delete(w, k), Prize) == Without(Ids(w, Prize), k)
    ensures |Ids(Delete(w, k), Prize)| == |Ids(w, Prize)| - 1
  {
    DeleteKeepsOk(w, k);
    var w' := Delete(w, k);
    var P := Ids(w, Prize);
    OfCategoryWithout(w.order, w.entities, Prize, k);
    OfCategorySameCategories(w'.order, w.entities, w'.entities, Prize);
    SubsequenceDistinct(P, w.order);
    assert k in P by {
      var i :| 0 <= i < |w.order| && w.order[i] == k;
    }
    WithoutLength(P, k);
  }

  /** The player's step onto a prize's cell, spelled out: the first prize on that
      cell, in registry order, is deleted after the move. */
  lemma {:induction false} PrizeStepResult(w: World, id: Id, m: Move, prize: Id)
    requires WorldOk(w) && id in w.entities
    requires Readable(w, Step(w.entities[id].pos, m))
    requires w.entities[id].category == Player
    requires Accepts(w, Step(w.entities[id].pos, m))
    requires forall k :: k in w.entities && w.entities[k].category == Enemy
               ==> w.entities[k].pos != Step(w.entities[id].pos, m)
    requires prize in w.entities && w.entities[prize].category == Prize
    requires w.entities[prize].pos == Step(w.entities[id].pos, m)
    ensures var e := w.entities[id];
      var np := Step(e.pos, m);
      var w1 := MoveEntity(w, id, e.pos, np);
      var f := FirstFrom(Ids(w1, Prize), w1.entities, np, 0);
      && WorldOk(w1) && f.Some?
      && var k := Ids(w1, Prize)[f.value];
      && k in w1.entities && w1.entities[k].category == Prize
      && Update(w, id, m) ==
           (var w2 := Delete(w1, k);
            if Ids(w2, Prize) == [] then (Config.Won, Win(w2)) else (Config.Score, w2))
  {
    var e := w.entities[id];
    var np := Step(e.pos, m);
    assert FirstFrom(Ids(w, Enemy), w.entities, np, 0).None?;
    var w1 := MoveEntity(w, id, e.pos, np);
    MoveKeepsOk(w, id, e.pos, np);
    var prizes := Ids(w1, Prize);
    assert prize in prizes by {
      var i :| 0 <= i < |w1.order| && w1.order[i] == prize;
    }
    var j :| 0 <= j < |prizes| && prizes[j] == prize;
    assert FirstFrom(prizes, w1.entities, np, 0).Some?;
  }

  /** What is left after the player, already moved, collects prize `k`. */
  lemma PrizeOutcome(w1: World, id: Id, k: Id)
    requires WorldOk(w1) && id in w1.entities && w1.entities[id].category == Player
    requires k in w1.entities && w1.entities[k].category == Prize
    ensures var w2 := Delete(w1, k);
      var (s, w') := if Ids(w2, Prize) == [] then (Config.Won, Win(w2)) else (Config.Score, w2);
      && WorldOk(w') && w1.playerId.Some? && id in w'.entities
      && (s == Config.Won || s == Config.Score)
      && w'.entities[id].pos == w1.entities[id].pos
      && |Ids(w', Prize)| == |Ids(w1, Prize)| - 1
      && (s == Config.Won <==> Ids(w', Prize) == [])
      && (s == Config.Won ==>
            var pid := w1.playerId.value;
            w'.entities[pid].symbol == 'W' && w'.cells[w'.entities[pid].pos] == 'W')
  {
    DeleteOnePrize(w1, k);
    var w2 := Delete(w1, k);
    if Ids(w2, Prize) == [] {
      WinKeepsOk(w2);
      OfCategorySameCategories(w2.order, w2.entities, Win(w2).entities, Prize);
    }
  }

  /** A player stepping onto a prize's cell (with no enemy there) moves onto it and
      the first such prize leaves the registry: the prize count drops by exactly
      one, the result is WON when none is left, with the player's symbol and cell
      set to `W`, and SCORE otherwise. */
  lemma {:induction false} PlayerTakesPrize(w: World, id: Id, m: Move, prize: Id)
    requires WorldOk(w) && id in w.entities
    requires Readable(w, Step(w.entities[id].pos, m))
    requires w.entities[id].category == Player
    requires Accepts(w, Step(w.entities[id].pos, m))
    requires forall k :: k in w.entities && w.entities[k].category == Enemy
               ==> w.entities[k].pos != Step(w.entities[id].pos, m)
    requires prize in w.entities && w.entities[prize].category == Prize
    requires w.entities[prize].pos == Step(w.entities[id].pos, m)
    ensures var (s, w') := Update(w, id, m);
      && WorldOk(w') && w.playerId.Some? && id in w'.entities
      && (s == Config.Won || s == Config.Score)
      && w'.entities[id].pos == Step(w.entities[id].pos, m)
      && |Ids(w', Prize)| == |Ids(w, Prize)| - 1
      && (s == Config.Won <==> Ids(w', Prize) == [])
      && (s == Config.Won ==>
            var pid := w.playerId.value;
            w'.entities[pid].symbol == 'W' && w'.cells[w'.entities[pid].pos] == 'W')
  {
    PrizeStepResult(w, id, m, prize);
    var e := w.entities[id];
    var np := Step(e.pos, m);
    var w1 := MoveEntity(w, id, e.pos, np);
    var k := Ids(w1, Prize)[FirstFrom(Ids(w1, Prize), w1.entities, np, 0).value];
    OfCategorySameCategories(w.order, w.entities, w1.entities, Prize);
    PrizeOutcome(w1, id, k);
  }

  /** The world that the repaint at the end of `update_map` starts from: the mover
      has moved if it is an enemy or the player, and nothing else has changed. */
  function Settled(w: World, id: Id, m: Move): World
    requires id in w.entities
  {
    var e := w.entities[id];
    if e.category == Enemy || e.category == Player then MoveEntity(w, id, e.pos, Step(e.pos, m))
    else w
  }

  /** An accepted step that returns OK returns through the repaint. */
  lemma FinalReturn(w: World, id: Id, m: Move)
    requires WorldOk(w) && id in w.entities
    requires Readable(w, Step(w.entities[id].pos, m))
    requires Accepts(w, Step(w.entities[id].pos, m)) && w.entities[id].category == Enemy ==> w.playerId.Some?
    requires Accepts(w, Step(w.entities[id].pos, m))
    requires Update(w, id, m).0 == Config.Ok
    ensures WorldOk(Settled(w, id, m))
    ensures Update(w, id, m).1 == Restore(Settled(w, id, m))
  {
    var e := w.entities[id];
    var np := Step(e.pos, m);
    MoveKeepsOk(w, id, e.pos, np);
    if e.category == Player {
      assert PlayerTurn(w, id, np).0 == Config.Ok;
      var w1 := MoveEntity(w, id, e.pos, np);
      assert Collect(w1, np).0 == Config.Ok;
      assert FirstFrom(Ids(w1, Prize), w1.entities, np, 0).None?;
    }
  }

  /** When `update_map` reaches its final return, the cell of every prize shows
      the symbol of the last prize, in registry order, that stands on that cell. */
  lemma {:induction false} PrizesRepainted(w: World, id: Id, m: Move)
    requires WorldOk(w) && id in w.entities
    requires Readable(w, Step(w.entities[id].pos, m))
    requires Accepts(w, Step(w.entities[id].pos, m)) && w.entities[id].category == Enemy ==> w.playerId.Some?
    requires Accepts(w, Step(w.entities[id].pos, m))
    requires Update(w, id, m).0 == Config.Ok
    ensures WorldOk(Update(w, id, m).1)
    ensures var w' := Update(w, id, m).1;
      forall i :: 0 <= i < |Ids(w', Prize)| ==> ShowsLast(w'.cells, Ids(w', Prize), w'.entities, i)
  {
    FinalReturn(w, id, m);
    var before := Settled(w, id, m);
    RestoreKeepsOk(before);
    var w' := Restore(before);
    var P := Ids(w', Prize);
    forall i | 0 <= i < |P| ensures ShowsLast(w'.cells, P, w'.entities, i) {
      PaintLastWins(before.cells, P, before.entities, i);
    }
  }

  /** No two prizes of `w` share a cell. */
  ghost predicate PrizesApart(w: World)
  {
    forall a, b :: a in w.entities && b in w.entities && a != b
      && w.entities[a].category == Prize && w.entities[b].category == Prize
      ==> w.entities[a].pos != w.entities[b].pos
  }

  /** The mover is not a prize when it moves, so the prizes stay where they are. */
  lemma SettledKeepsPrizesApart(w: World, id: Id, m: Move)
    requires id in w.entities && PrizesApart(w)
    ensures PrizesApart(Settled(w, id, m))
  {
    var w' := Settled(w, id, m);
    assert w'.entities.Keys == w.entities.Keys;
    assert forall k :: k in w.entities && w'.entities[k].category == Prize ==>
                       w'.entities[k] == w.entities[k];
  }

  /** When no two entities of `s` share a cell, painting shows each one's own
      symbol on its cell. */
  lemma PaintShowsOwn(c: map<Pos, char>, s: seq<Id>, ents: map<Id, Entity>, i: nat)
    requires AllIn(s, ents) && i < |s|
    requires forall a, b :: 0 <= a < b < |s| ==> ents[s[a]].pos != ents[s[b]].pos
    ensures Paint(c, s, ents)[ents[s[i]].pos] == ents[s[i]].symbol
  {
    PaintLastWins(c, s, ents, i);
    var p := ents[s[i]].pos;
    var j :| i <= j < |s| && ents[s[j]].pos == p && Paint(c, s, ents)[p] == ents[s[j]].symbol;
  }

  /** With no two prizes on one cell, the repaint leaves prize `k`'s own symbol
      on its cell. */
  lemma RestoreShowsPrize(w: World, k: Id)
    requires WorldOk(w) && PrizesApart(w)
    requires k in w.entities && w.entities[k].category == Prize
    ensures Restore(w).cells[w.entities[k].pos] == w.entities[k].symbol
  {
    var P := Ids(w, Prize);
    SubsequenceDistinct(P, w.order);
    assert k in P;
    var i :| 0 <= i < |P| && P[i] == k;
    forall a, b | 0 <= a < b < |P| ensures w.entities[P[a]].pos != w.entities[P[b]].pos {
      assert Differ(P, a, b);
    }
    PaintShowsOwn(w.cells, P, w.entities, i);
  }

  /** With no two prizes on one cell, the repaint leaves every prize's own symbol
      on its cell. */
  lemma RestoreShowsPrizes(w: World)
    requires WorldOk(w) && PrizesApart(w)
    ensures forall k :: k in w.entities && w.entities[k].category == Prize ==>
              Restore(w).cells[w.entities[k].pos] == w.entities[k].symbol
  {
    forall k | k in w.entities && w.entities[k].category == Prize
      ensures Restore(w).cells[w.entities[k].pos] == w.entities[k].symbol
    {
      RestoreShowsPrize(w, k);
    }
  }

  /** With no two prizes on one cell, when `update_map` reaches its final return
      every prize's cell shows that prize's symbol, even where an enemy passed. */
  lemma {:induction false} PrizeCellsShowPrizes(w: World, id: Id, m: Move)
    requires WorldOk(w) && id in w.entities
    requires Readable(w, Step(w.entities[id].pos, m))
    requires Accepts(w, Step(w.entities[id].pos, m)) && w.entities[id].category == Enemy ==> w.playerId.Some?
    requires Accepts(w, Step(w.entities[id].pos, m))
    requires Update(w, id, m).0 == Config.Ok
    requires PrizesApart(w)
    ensures WorldOk(Update(w, id, m).1)
    ensures var w' := Update(w, id, m).1;
      forall k :: k in w'.entities && w'.entities[k].category == Prize
        ==> w'.cells[w'.entities[k].pos] == w'.entities[k].symbol
  {
    FinalReturn(w, id, m);
    RestoreKeepsOk(Settled(w, id, m));
    SettledKeepsPrizesApart(w, id, m);
    RestoreShowsPrizes(Settled(w, id, m));
  }

  /** `add_entity` appends the new id to the list of its category and to no other. */
  lemma AddAppendsId(w: World, cat: Category, symbol: char, pos: Pos, c: Category)
    requires WorldOk(w) && pos in w.cells && w.cells[pos] == Open
    ensures AllIn(Add(w, cat, symbol, pos).order, Add(w, cat, symbol, pos).entities)
    ensures Ids(Add(w, cat, symbol, pos), c)
         == Ids(w, c) + (if c == cat then [Decimal(w.counter)] else [])
  {
    AddKeepsOk(w, cat, symbol, pos);
    OfCategoryExtend(w.order, w.entities, Decimal(w.counter), Entity(pos, symbol, cat), c);
  }

  /** `add_entity` registers a fresh id at the end of the insertion order, draws
      the symbol on the chosen open cell, advances the counter, and names the new
      entity as the player exactly when its category is `player`. */
  lemma AddRegisters(w: World, cat: Category, symbol: char, pos: Pos)
    requires WorldOk(w) && pos in w.cells && w.cells[pos] == Open
    ensures var w' := Add(w, cat, symbol, pos);
      var id := Decimal(w.counter);
      && id !in w.entities
      && WorldOk(w')
      && w'.entities == w.entities[id := Entity(pos, symbol, cat)]
      && w'.order == w.order + [id]
      && w'.cells == w.cells[pos := symbol]
      && w'.counter == w.counter + 1
      && (w'.playerId == Some(id) <==> cat == Player)
      && (cat != Player ==> w'.playerId == w.playerId)
  {
    AddKeepsOk(w, cat, symbol, pos);
  }
}
