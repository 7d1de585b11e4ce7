/** Shared records of the board layout: cells, tile categories, placements,
    the error outcomes of a layout call, and small facts about sequences of
    cells that every generator relies on.
 */
module BoardTypes {

  /** A board cell. The engine's z coordinate is always 0 and is not kept. */
  datatype Pos = Pos(x: int, y: int)

  /** The kinds of tile the board manager instantiates. */
  datatype Category = Floor | OuterWall | Wall | Food | Enemy | Exit

  /** Opaque identity of a prefab; only its equality matters to the layout. */
  type Handle = nat

  /** One request to the engine: instantiate `handle` (of kind `category`) at `pos`. */
  datatype Placement = Placement(category: Category, handle: Handle, pos: Pos)

  /** The prefab arrays of the board manager, plus the single exit prefab. */
  datatype TileConfig = TileConfig(
    floor: seq<Handle>,
    wall: seq<Handle>,
    food: seq<Handle>,
    enemy: seq<Handle>,
    outerWall: seq<Handle>,
    exit: Handle)

  /** An inclusive range for a random object count. */
  datatype Count = Count(minimum: int, maximum: int)

  /** The board manager's defaults: an 8 x 8 board, 5 to 9 walls, 1 to 5 food items. */
  const DefaultColumns: int := 8
  const DefaultRows: int := 8
  const DefaultWallCount: Count := Count(5, 9)
  const DefaultFoodCount: Count := Count(1, 5)

  datatype Option<+T> = None | Some(value: T)

  /** Why a layout call stops without a result. */
  datatype BoardError =
    | PoolExhausted   // a draw from an empty position list (index out of range)
    | LevelNotFound   // the level asset could not be loaded (null asset)

  datatype Result<+T> = Ok(value: T) | Err(error: BoardError)

  /** Number of integers in the half-open interval [lo, hi). */
  function Span(lo: int, hi: int): nat
  {
    if lo < hi then hi - lo else 0
  }

  /** `p` lies in the half-open rectangle [xLo, xHi) x [yLo, yHi). */
  predicate InRect(p: Pos, xLo: int, xHi: int, yLo: int, yHi: int)
  {
    xLo <= p.x < xHi && yLo <= p.y < yHi
  }

  /** Column-major order: the order in which the board loops visit cells. */
  predicate Before(p: Pos, q: Pos)
  {
    p.x < q.x || (p.x == q.x && p.y < q.y)
  }

  predicate StrictlyOrdered(s: seq<Pos>)
  {
    forall i, j :: 0 <= i < j < |s| ==> Before(s[i], s[j])
  }

  predicate Distinct<T(==)>(s: seq<T>)
  {
    forall i, j :: 0 <= i < j < |s| ==> s[i] != s[j]
  }

  /** The cells of a sequence of placements, in emission order. */
  function Positions(s: seq<Placement>): (r: seq<Pos>)
    ensures |r| == |s|
    ensures forall i :: 0 <= i < |s| ==> r[i] == s[i].pos
  {
    seq(|s|, i requires 0 <= i < |s| => s[i].pos)
  }

  lemma PositionsAppend(s: seq<Placement>, t: seq<Placement>)
    ensures Positions(s + t) == Positions(s) + Positions(t)
  {
  }

  lemma PositionsCons(first: Placement, t: seq<Placement>)
    ensures Positions([first] + t) == [first.pos] + Positions(t)
  {
    assert Positions([first] + t)[0] == first.pos;
  }

  /** Number of placements of category `c`. */
  function CountCat(s: seq<Placement>, c: Category): nat
  {
    if |s| == 0 then 0
    else CountCat(s[..|s| - 1], c) + (if s[|s| - 1].category == c then 1 else 0)
  }

  /** Counting placements distributes over concatenation. */
  lemma {:induction false} CountCatConcat(s: seq<Placement>, t: seq<Placement>, c: Category)
    ensures CountCat(s + t, c) == CountCat(s, c) + CountCat(t, c)
    decreases |t|
  {
    if |t| == 0 {
      assert s + t == s;
    } else {
      var t' := t[..|t| - 1];
      assert (s + t)[..|s + t| - 1] == s + t';
      CountCatConcat(s, t', c);
    }
  }

  /** A column-major strictly ordered sequence repeats no cell. */
  lemma OrderedIsDistinct(s: seq<Pos>)
    requires StrictlyOrdered(s)
    ensures Distinct(s)
  {
    forall i, j | 0 <= i < j < |s|
      ensures s[i] != s[j]
    {
      assert Before(s[i], s[j]);
    }
  }

  /** A sequence repeats nothing exactly when no value occurs twice in its multiset. */
  lemma {:induction false} DistinctMultiplicity<T>(s: seq<T>)
    ensures Distinct(s) <==> forall x :: multiset(s)[x] <= 1
  {
    if |s| > 0 {
      var t := s[1..];
      assert s == [s[0]] + t;
      DistinctMultiplicity(t);
      if forall x :: multiset(s)[x] <= 1 {
        assert multiset(s) == multiset{s[0]} + multiset(t);
        assert multiset(s)[s[0]] <= 1;
        assert forall x :: multiset(t)[x] <= multiset(s)[x];
        forall i, j | 0 <= i < j < |s|
          ensures s[i] != s[j]
        {
          if i == 0 {
            assert s[j] in t;
          } else {
            assert t[i - 1] != t[j - 1];
          }
        }
      }
      if Distinct(s) {
        forall j | 0 <= j < |t|
          ensures t[j] != s[0]
        {
          assert t[j] == s[j + 1];
        }
        assert Distinct(t) by {
          forall i, j | 0 <= i < j < |t|
            ensures t[i] != t[j]
          {
            assert t[i] == s[i + 1] && t[j] == s[j + 1];
          }
        }
      }
    }
  }

  /** If two sequences together hold exactly the elements of a third, an
      element is in the third iff it is in one of the two; if the third is
      duplicate-free, so is each of the two and they share nothing. */
  lemma MultisetParts<T>(a: seq<T>, b: seq<T>, p: seq<T>)
    requires multiset(a) + multiset(b) == multiset(p)
    ensures forall x :: x in p <==> x in a || x in b
    ensures Distinct(p) ==> Distinct(a) && Distinct(b) && forall x :: x in a ==> x !in b
  {
    forall x
      ensures x in p <==> x in a || x in b
    {
      assert multiset(p)[x] == multiset(a)[x] + multiset(b)[x];
    }
    if Distinct(p) {
      DistinctMultiplicity(p);
      forall x
        ensures multiset(a)[x] <= 1 && multiset(b)[x] <= 1
      {
        assert multiset(p)[x] == multiset(a)[x] + multiset(b)[x];
      }
      DistinctMultiplicity(a);
      DistinctMultiplicity(b);
      forall x | x in a
        ensures x !in b
      {
        assert multiset(p)[x] == multiset(a)[x] + multiset(b)[x];
      }
    }
  }
}
