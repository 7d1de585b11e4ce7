/** The randomised board: a floor/outer-wall background over the board plus a
    one-cell ring, and objects scattered on cells drawn from the position
    list. Every `Random.Range` result is a caller-supplied roll, constrained
    to the half-open range the script passes to the engine.
 */
module RandomBoard {
  import opened BoardTypes
  import opened GridPool

  /** `p` is on the outer ring of the columns x rows board. */
  predicate OnRing(p: Pos, columns: int, rows: int)
  {
    p.x == -1 || p.x == columns || p.y == -1 || p.y == rows
  }

  /** The rolls made at one background cell: a floor tile index is drawn at
      every cell; an outer-wall tile index is drawn only on the ring (and is
      ignored elsewhere). */
  datatype CellRoll = CellRoll(floor: nat, outer: nat)

  /** The tile a background cell receives: the outer-wall tile picked by the
      ring roll on the ring, the floor tile picked by the floor roll inside. */
  predicate TileFor(pl: Placement, columns: int, rows: int, tiles: TileConfig, roll: CellRoll)
  {
    if OnRing(pl.pos, columns, rows)
    then pl.category == OuterWall && roll.outer < |tiles.outerWall| && pl.handle == tiles.outerWall[roll.outer]
    else pl.category == Floor && roll.floor < |tiles.floor| && pl.handle == tiles.floor[roll.floor]
  }

  /** Emits one tile per cell of [-1, columns] x [-1, rows], column by
      column: an outer-wall tile on the ring and a floor tile elsewhere.
      `rolls[n]` holds the rolls made at the n-th cell visited. */
  method BoardSetup(columns: int, rows: int, tiles: TileConfig, rolls: seq<CellRoll>)
    returns (placed: seq<Placement>)
    requires |rolls| == Span(-1, columns + 1) * Span(-1, rows + 1)
    requires forall n :: 0 <= n < |rolls| ==>
      rolls[n].floor < |tiles.floor| && rolls[n].outer < |tiles.outerWall|
    ensures |placed| == Span(-1, columns + 1) * Span(-1, rows + 1)
    ensures forall n :: 0 <= n < |placed| ==> InRect(placed[n].pos, -1, columns + 1, -1, rows + 1)
    ensures forall p :: InRect(p, -1, columns + 1, -1, rows + 1) ==> p in Positions(placed)
    ensures StrictlyOrdered(Positions(placed))
    ensures forall n :: 0 <= n < |placed| ==> TileFor(placed[n], columns, rows, tiles, rolls[n])
    ensures CountCat(placed, Floor) == Span(0, columns) * Span(0, rows)
    ensures CountCat(placed, OuterWall) == |placed| - Span(0, columns) * Span(0, rows)
  {
    var width, height := Span(-1, columns + 1), Span(-1, rows + 1);
    placed := [];
    var x := -1;
    assert Span(0, Min(x, columns)) == 0;
    while x < columns + 1
      invariant -1 <= x && x + 1 <= width
      invariant |placed| == (x + 1) * height <= |rolls|
      invariant forall n :: 0 <= n < |placed| ==> InRect(placed[n].pos, -1, x, -1, rows + 1)
      invariant forall p :: InRect(p, -1, x, -1, rows + 1) ==> p in Positions(placed)
      invariant forall m, n :: 0 <= m < n < |placed| ==> Before(placed[m].pos, placed[n].pos)
      invariant forall n :: 0 <= n < |placed| ==> TileFor(placed[n], columns, rows, tiles, rolls[n])
      invariant CountCat(placed, Floor) == Span(0, Min(x, columns)) * Span(0, rows)
      invariant CountCat(placed, Floor) + CountCat(placed, OuterWall) == |placed|
    {
      ColumnFits(x, height, width, |rolls|);
      var before := placed;
      placed := SetupColumn(x, columns, rows, tiles, rolls, before);
      ColumnAppended(before, placed, x, rows);
      NextColumnFloors(x, columns, rows);
      x := x + 1;
    }
    assert x + 1 == width && Span(0, Min(x, columns)) == Span(0, columns);
  }

  /** Appends the tiles of column x, from y = -1 up to y = rows; the n-th
      tile overall uses `rolls[n]`. */
  method SetupColumn(x: int, columns: int, rows: int, tiles: TileConfig, rolls: seq<CellRoll>,
                     before: seq<Placement>)
    returns (placed: seq<Placement>)
    requires -1 <= x <= columns
    requires |before| + Span(-1, rows + 1) <= |rolls|
    requires forall n :: 0 <= n < |rolls| ==>
      rolls[n].floor < |tiles.floor| && rolls[n].outer < |tiles.outerWall|
    ensures && |placed| == |before| + Span(-1, rows + 1)
            && placed[..|before|] == before
            && forall n :: |before| <= n < |placed| ==>
                 placed[n].pos == Pos(x, n - |before| - 1) && TileFor(placed[n], columns, rows, tiles, rolls[n])
    ensures CountCat(placed, Floor) ==
      CountCat(before, Floor) + (if 0 <= x < columns then Span(0, rows) else 0)
    ensures CountCat(placed, Floor) + CountCat(placed, OuterWall) ==
      CountCat(before, Floor) + CountCat(before, OuterWall) + Span(-1, rows + 1)
  {
    placed := before;
    var y := -1;
    while y < rows + 1
      invariant -1 <= y <= -1 + Span(-1, rows + 1)
      invariant |placed| == |before| + (y + 1)
      invariant placed[..|before|] == before
      invariant forall n :: |before| <= n < |placed| ==>
        placed[n].pos == Pos(x, n - |before| - 1) && TileFor(placed[n], columns, rows, tiles, rolls[n])
      invariant CountCat(placed, Floor) ==
        CountCat(before, Floor) + (if 0 <= x < columns then Span(0, Min(y, rows)) else 0)
      invariant CountCat(placed, Floor) + CountCat(placed, OuterWall) ==
        CountCat(before, Floor) + CountCat(before, OuterWall) + (y + 1)
    {
      var n := |placed|;
      var toInstantiate := Placement(Floor, tiles.floor[rolls[n].floor], Pos(x, y));
      if x == -1 || x == columns || y == -1 || y == rows {
        toInstantiate := Placement(OuterWall, tiles.outerWall[rolls[n].outer], Pos(x, y));
      }
      assert (placed + [toInstantiate])[..|placed|] == placed;
      placed := placed + [toInstantiate];
      y := y + 1;
    }
  }

  /** Appending column x to the columns before it keeps every earlier tile,
      covers every cell up to column x, and keeps column-major order. */
  lemma ColumnAppended(before: seq<Placement>, placed: seq<Placement>, x: int, rows: int)
    requires -1 <= x
    requires |placed| == |before| + Span(-1, rows + 1)
    requires placed[..|before|] == before
    requires forall n :: |before| <= n < |placed| ==> placed[n].pos == Pos(x, n - |before| - 1)
    requires forall n :: 0 <= n < |before| ==> InRect(before[n].pos, -1, x, -1, rows + 1)
    requires forall p :: InRect(p, -1, x, -1, rows + 1) ==> p in Positions(before)
    requires forall m, n :: 0 <= m < n < |before| ==> Before(before[m].pos, before[n].pos)
    ensures forall n :: 0 <= n < |before| ==> placed[n] == before[n]
    ensures forall n :: 0 <= n < |placed| ==> InRect(placed[n].pos, -1, x + 1, -1, rows + 1)
    ensures forall p :: InRect(p, -1, x + 1, -1, rows + 1) ==> p in Positions(placed)
    ensures forall m, n :: 0 <= m < n < |placed| ==> Before(placed[m].pos, placed[n].pos)
  {
    forall n | 0 <= n < |before|
      ensures placed[n] == before[n]
    {
      assert placed[..|before|][n] == before[n];
    }
    forall n | |before| <= n < |placed|
      ensures InRect(placed[n].pos, -1, x + 1, -1, rows + 1)
    {
      assert n - |before| < Span(-1, rows + 1);
    }
    forall p | InRect(p, -1, x + 1, -1, rows + 1)
      ensures p in Positions(placed)
    {
      if p.x < x {
        assert p in Positions(before);
        var i :| 0 <= i < |before| && Positions(before)[i] == p;
        assert Positions(placed)[i] == p;
      } else {
        var i := |before| + p.y + 1;
        assert Positions(placed)[i] == p;
      }
    }
    forall m, n | 0 <= m < n < |placed|
      ensures Before(placed[m].pos, placed[n].pos)
    {
      if n < |before| {
        assert placed[m] == before[m] && placed[n] == before[n];
      } else if m < |before| {
        assert placed[m] == before[m];
      }
    }
  }

  function Min(a: int, b: int): int
  {
    if a < b then a else b
  }

  /** The cells of column x are numbered below the total when x is a board column. */
  lemma ColumnFits(x: int, height: nat, width: nat, cells: nat)
    requires -1 <= x && x + 1 < width
    requires cells == width * height
    ensures (x + 1) * height + height == (x + 2) * height <= cells
  {
  }

  /** Passing column x adds one column of floor cells exactly when x is an interior column. */
  lemma NextColumnFloors(x: int, columns: int, rows: int)
    requires -1 <= x
    ensures Span(0, Min(x + 1, columns)) * Span(0, rows)
      == Span(0, Min(x, columns)) * Span(0, rows) + (if 0 <= x < columns then Span(0, rows) else 0)
  {
    if 0 <= x < columns {
      assert Span(0, Min(x + 1, columns)) == Span(0, Min(x, columns)) + 1;
    }
  }

  /** The rolls made for one scattered object: first the index into the
      remaining position list, then the index into the tile array. */
  datatype ObjectRoll = ObjectRoll(slot: nat, tile: nat)

  /** The ranges of the rolls of a run of draws from a list of `poolSize`
      cells: the i-th slot roll is below the size the list has at that draw,
      and every tile roll indexes the tile array. */
  predicate DrawRollsFit(poolSize: nat, tileCount: nat, rolls: seq<ObjectRoll>)
  {
    forall i :: 0 <= i < |rolls| ==>
      rolls[i].tile < tileCount && (i < poolSize ==> rolls[i].slot < poolSize - i)
  }

  /** The objects placed by a run of draws and the list that remains. */
  datatype Scattered = Scattered(placed: seq<Placement>, pool: seq<Pos>)

  /** Places one object per roll, each on a cell removed from the list; fails
      as soon as a draw finds the list empty. */
  function Scatter(pool: seq<Pos>, tiles: seq<Handle>, category: Category, rolls: seq<ObjectRoll>)
    : (r: Result<Scattered>)
    requires DrawRollsFit(|pool|, |tiles|, rolls)
    ensures r.Ok? <==> |rolls| <= |pool|
    ensures r.Err? ==> r.error == PoolExhausted
    ensures r.Ok? ==> |r.value.placed| == |rolls| && |r.value.pool| == |pool| - |rolls|
    ensures r.Ok? ==> forall i :: 0 <= i < |rolls| ==>
      r.value.placed[i].category == category && r.value.placed[i].handle == tiles[rolls[i].tile]
    ensures r.Ok? && 0 < |rolls| ==> r.value.placed[0].pos == pool[rolls[0].slot]
    decreases |rolls|
  {
    if |rolls| == 0 then Ok(Scattered([], pool))
    else if |pool| == 0 then Err(PoolExhausted)
    else
      var d := RandomPosition(pool, rolls[0].slot).value;
      var later := Scatter(d.rest, tiles, category, rolls[1..]);
      if later.Err? then later
      else
        var first := Placement(category, tiles[rolls[0].tile], d.pos);
        Ok(Scattered([first] + later.value.placed, later.value.pool))
  }

  /** Places `objectCount` objects of one category, where `objectCount` is the
      roll of `Random.Range(minimum, maximum + 1)`: the exclusive upper bound
      `maximum + 1` makes `maximum` itself reachable. A negative count places
      nothing. */
  function LayoutObjectAtRandom(pool: seq<Pos>, tileArray: seq<Handle>, category: Category,
                                minimum: int, maximum: int, objectCount: int, rolls: seq<ObjectRoll>)
    : (r: Result<Scattered>)
    requires minimum <= objectCount < maximum + 1
    requires |rolls| == Span(0, objectCount)
    requires DrawRollsFit(|pool|, |tileArray|, rolls)
    ensures r.Ok? <==> objectCount <= |pool|
    ensures r.Err? ==> r.error == PoolExhausted
    ensures r.Ok? ==> Span(0, minimum) <= |r.value.placed| <= Span(0, maximum)
    ensures r.Ok? ==> |r.value.placed| == Span(0, objectCount)
    ensures r.Ok? ==> |r.value.pool| == |pool| - |r.value.placed|
    ensures r.Ok? ==> forall i :: 0 <= i < |r.value.placed| ==>
      r.value.placed[i].category == category && r.value.placed[i].handle == tileArray[rolls[i].tile]
    ensures r.Ok? ==> multiset(Positions(r.value.placed)) + multiset(r.value.pool) == multiset(pool)
    ensures r.Ok? ==> forall p :: p in Positions(r.value.placed) ==> p in pool
    ensures r.Ok? && Distinct(pool) ==>
      Distinct(Positions(r.value.placed)) && forall p :: p in Positions(r.value.placed) ==> p !in r.value.pool
  {
    var r := Scatter(pool, tileArray, category, rolls);
    if r.Ok? then
      ScatterMultiset(pool, tileArray, category, rolls);
      MultisetParts(Positions(r.value.placed), r.value.pool, pool);
      r
    else r
  }

  /** The cells drawn by a run of draws plus the list that remains make up
      the list before the run, as a multiset. */
  lemma {:induction false} ScatterMultiset(pool: seq<Pos>, tiles: seq<Handle>, category: Category,
                                           rolls: seq<ObjectRoll>)
    requires DrawRollsFit(|pool|, |tiles|, rolls)
    requires |rolls| <= |pool|
    ensures var s := Scatter(pool, tiles, category, rolls).value;
      multiset(Positions(s.placed)) + multiset(s.pool) == multiset(pool)
    decreases |rolls|
  {
    if |rolls| > 0 {
      var d := RandomPosition(pool, rolls[0].slot).value;
      DrawRollsFitTail(|pool|, |tiles|, rolls);
      ScatterMultiset(d.rest, tiles, category, rolls[1..]);
      ScatterFirst(pool, tiles, category, rolls);
      var later := Scatter(d.rest, tiles, category, rolls[1..]).value;
      RandomPositionConserves(pool, rolls[0].slot);
      MultisetCons(d.pos, Positions(later.placed), later.pool, d.rest, pool);
    }
  }

  /** A cell drawn in front of a run that conserves what the draw left
      conserves the whole list. */
  lemma MultisetCons(first: Pos, drawn: seq<Pos>, left: seq<Pos>, rest: seq<Pos>, pool: seq<Pos>)
    requires multiset(drawn) + multiset(left) == multiset(rest)
    requires multiset(rest) + multiset{first} == multiset(pool)
    ensures multiset([first] + drawn) + multiset(left) == multiset(pool)
  {
    assert multiset([first] + drawn) == multiset{first} + multiset(drawn);
  }

  /** The rolls after the first fit the list the first draw leaves. */
  lemma DrawRollsFitTail(poolSize: nat, tileCount: nat, rolls: seq<ObjectRoll>)
    requires DrawRollsFit(poolSize, tileCount, rolls)
    requires 0 < |rolls| && 0 < poolSize
    ensures DrawRollsFit(poolSize - 1, tileCount, rolls[1..])
  {
    forall i | 0 <= i < |rolls| - 1
      ensures rolls[1..][i].tile < tileCount && (i < poolSize - 1 ==> rolls[1..][i].slot < poolSize - 1 - i)
    {
      assert rolls[1..][i] == rolls[i + 1];
    }
  }

  /** One step of a run of draws: the first object stands on the first drawn
      cell, and the rest of the run continues from the list that draw leaves. */
  lemma ScatterFirst(pool: seq<Pos>, tiles: seq<Handle>, category: Category, rolls: seq<ObjectRoll>)
    requires DrawRollsFit(|pool|, |tiles|, rolls)
    requires 0 < |rolls| <= |pool|
    ensures var d := RandomPosition(pool, rolls[0].slot).value;
      var later := Scatter(d.rest, tiles, category, rolls[1..]).value;
      var s := Scatter(pool, tiles, category, rolls).value;
      && s.pool == later.pool
      && Positions(s.placed) == [d.pos] + Positions(later.placed)
  {
    var d := RandomPosition(pool, rolls[0].slot).value;
    var later := Scatter(d.rest, tiles, category, rolls[1..]).value;
    var first := Placement(category, tiles[rolls[0].tile], d.pos);
    var s := Scatter(pool, tiles, category, rolls).value;
    assert s.placed == [first] + later.placed && s.pool == later.pool;
    PositionsCons(first, later.placed);
  }

  /** Drawing from an initialised list never places two objects on one cell,
      places them only on interior cells, and leaves a list that still
      satisfies the pool invariant. */
  lemma ScatterFromPool(pool: seq<Pos>, columns: int, rows: int, tiles: seq<Handle>,
                        category: Category, rolls: seq<ObjectRoll>)
    requires PoolInvariant(pool, columns, rows)
    requires DrawRollsFit(|pool|, |tiles|, rolls)
    requires |rolls| <= |pool|
    ensures var r := Scatter(pool, tiles, category, rolls);
      && r.Ok?
      && Distinct(Positions(r.value.placed))
      && (forall p :: p in Positions(r.value.placed) ==> IsInterior(p, columns, rows))
      && PoolInvariant(r.value.pool, columns, rows)
  {
    ScatterMultiset(pool, tiles, category, rolls);
    var s := Scatter(pool, tiles, category, rolls).value;
    MultisetParts(Positions(s.placed), s.pool, pool);
    forall p | p in Positions(s.placed)
      ensures IsInterior(p, columns, rows)
    {
      assert p in pool;
    }
    forall i | 0 <= i < |s.pool|
      ensures IsInterior(s.pool[i], columns, rows)
    {
      assert s.pool[i] in pool;
    }
  }

  /** Two passes sharing one list (walls, then food) never use a cell twice:
      every object of both passes stands on its own interior cell. */
  lemma WallsThenFood(pool: seq<Pos>, columns: int, rows: int,
                      wallTiles: seq<Handle>, wallRolls: seq<ObjectRoll>,
                      foodTiles: seq<Handle>, foodRolls: seq<ObjectRoll>)
    requires PoolInvariant(pool, columns, rows)
    requires |wallRolls| + |foodRolls| <= |pool|
    requires DrawRollsFit(|pool|, |wallTiles|, wallRolls)
    requires DrawRollsFit(|pool| - |wallRolls|, |foodTiles|, foodRolls)
    ensures var walls := Scatter(pool, wallTiles, Wall, wallRolls);
      && walls.Ok?
      && var food := Scatter(walls.value.pool, foodTiles, Food, foodRolls);
      && food.Ok?
      && Distinct(Positions(walls.value.placed + food.value.placed))
      && forall p :: p in Positions(walls.value.placed + food.value.placed) ==> IsInterior(p, columns, rows)
  {
    ScatterFromPool(pool, columns, rows, wallTiles, Wall, wallRolls);
    var walls := Scatter(pool, wallTiles, Wall, wallRolls).value;
    ScatterMultiset(pool, wallTiles, Wall, wallRolls);
    MultisetParts(Positions(walls.placed), walls.pool, pool);
    assert |walls.pool| == |pool| - |wallRolls|;
    ScatterFromPool(walls.pool, columns, rows, foodTiles, Food, foodRolls);
    var food := Scatter(walls.pool, foodTiles, Food, foodRolls).value;
    ScatterMultiset(walls.pool, foodTiles, Food, foodRolls);
    MultisetParts(Positions(food.placed), food.pool, walls.pool);
    PositionsAppend(walls.placed, food.placed);
    DistinctConcat(Positions(walls.placed), Positions(food.placed));
  }

  /** With the default board and counts, the position list always has room:
      whatever counts the two rolls give, both passes succeed and every wall
      and food item gets its own interior cell. */
  lemma DefaultBoardHasRoom(pool: seq<Pos>,
                            wallTiles: seq<Handle>, wallCount: int, wallRolls: seq<ObjectRoll>,
                            foodTiles: seq<Handle>, foodCount: int, foodRolls: seq<ObjectRoll>)
    requires PoolInvariant(pool, DefaultColumns, DefaultRows)
    requires |pool| == Span(1, DefaultColumns - 1) * Span(1, DefaultRows - 1)
    requires DefaultWallCount.minimum <= wallCount < DefaultWallCount.maximum + 1
    requires |wallRolls| == Span(0, wallCount) && DrawRollsFit(|pool|, |wallTiles|, wallRolls)
    requires DefaultFoodCount.minimum <= foodCount < DefaultFoodCount.maximum + 1
    requires |foodRolls| == Span(0, foodCount) && DrawRollsFit(|pool| - wallCount, |foodTiles|, foodRolls)
    ensures
      var walls := LayoutObjectAtRandom(pool, wallTiles, Wall,
                     DefaultWallCount.minimum, DefaultWallCount.maximum, wallCount, wallRolls);
      && walls.Ok?
      && var food := LayoutObjectAtRandom(walls.value.pool, foodTiles, Food,
                       DefaultFoodCount.minimum, DefaultFoodCount.maximum, foodCount, foodRolls);
      && food.Ok?
      && Distinct(Positions(walls.value.placed + food.value.placed))
      && forall p :: p in Positions(walls.value.placed + food.value.placed) ==>
           IsInterior(p, DefaultColumns, DefaultRows)
  {
    assert |pool| == 36;
    WallsThenFood(pool, DefaultColumns, DefaultRows, wallTiles, wallRolls, foodTiles, foodRolls);
  }

  /** Two duplicate-free sequences with no common element concatenate to a duplicate-free one. */
  lemma DistinctConcat<T>(a: seq<T>, b: seq<T>)
    requires Distinct(a) && Distinct(b)
    requires forall x :: x in b ==> x !in a
    ensures Distinct(a + b)
  {
    forall i, j | 0 <= i < j < |a + b|
      ensures (a + b)[i] != (a + b)[j]
    {
      if i < |a| <= j {
        assert (a + b)[j] in b;
      }
    }
  }
}
