/** The list of free interior cells of the randomised board: it is filled
    once per board and shrinks by one cell on every draw, so no cell is
    handed out twice.
 */
module GridPool {
  import opened BoardTypes

  /** `p` is an interior cell: one cell of margin inside the columns x rows board. */
  predicate IsInterior(p: Pos, columns: int, rows: int)
  {
    InRect(p, 1, columns - 1, 1, rows - 1)
  }

  /** What a freshly initialised pool satisfies and every draw keeps. */
  predicate PoolInvariant(pool: seq<Pos>, columns: int, rows: int)
  {
    && Distinct(pool)
    && forall i :: 0 <= i < |pool| ==> IsInterior(pool[i], columns, rows)
  }

  /** Builds the position list from scratch: every interior cell exactly
      once, in the column-major order of the two nested loops. Nothing of a
      previous list survives, since the list is cleared first. */
  method InitialiseList(columns: int, rows: int) returns (pool: seq<Pos>)
    ensures |pool| == Span(1, columns - 1) * Span(1, rows - 1)
    ensures forall i :: 0 <= i < |pool| ==> IsInterior(pool[i], columns, rows)
    ensures forall p :: IsInterior(p, columns, rows) ==> p in pool
    ensures StrictlyOrdered(pool)
    ensures PoolInvariant(pool, columns, rows)
  {
    pool := [];
    var x := 1;
    while x < columns - 1
      invariant 1 <= x <= 1 + Span(1, columns - 1)
      invariant |pool| == (x - 1) * Span(1, rows - 1)
      invariant forall i :: 0 <= i < |pool| ==> InRect(pool[i], 1, x, 1, rows - 1)
      invariant forall p :: InRect(p, 1, x, 1, rows - 1) ==> p in pool
      invariant StrictlyOrdered(pool)
    {
      var y := 1;
      while y < rows - 1
        invariant 1 <= y <= 1 + Span(1, rows - 1)
        invariant |pool| == (x - 1) * Span(1, rows - 1) + (y - 1)
        invariant forall i :: 0 <= i < |pool| ==>
          InRect(pool[i], 1, x, 1, rows - 1) || (pool[i].x == x && 1 <= pool[i].y < y)
        invariant forall p :: InRect(p, 1, x, 1, rows - 1) || (p.x == x && 1 <= p.y < y) ==> p in pool
        invariant StrictlyOrdered(pool)
      {
        pool := pool + [Pos(x, y)];
        y := y + 1;
      }
      x := x + 1;
    }
    OrderedIsDistinct(pool);
  }

  /** A drawn cell together with the list that remains. */
  datatype Drawn = Drawn(pos: Pos, rest: seq<Pos>)

  /** Removes and returns the entry at index `k`, the value `Random.Range(0, Count)`
      produced. On an empty list the engine's draw yields 0 and indexing fails. */
  function RandomPosition(pool: seq<Pos>, k: nat): (r: Result<Drawn>)
    requires |pool| > 0 ==> k < |pool|
    ensures r.Ok? <==> |pool| > 0
    ensures r.Err? ==> r.error == PoolExhausted
    ensures r.Ok? ==> r.value.pos == pool[k] && |r.value.rest| == |pool| - 1
    ensures r.Ok? ==> forall i :: 0 <= i < |r.value.rest| ==>
      r.value.rest[i] == pool[if i < k then i else i + 1]
    ensures r.Ok? ==> forall p :: p in pool <==> p == r.value.pos || p in r.value.rest
  {
    if |pool| == 0 then Err(PoolExhausted)
    else
      var rest := pool[..k] + pool[k + 1..];
      assert pool == pool[..k] + [pool[k]] + pool[k + 1..];
      Ok(Drawn(pool[k], rest))
  }

  /** A draw conserves the list: the remaining list plus the drawn cell make
      up the old list, as a multiset. */
  lemma RandomPositionConserves(pool: seq<Pos>, k: nat)
    requires k < |pool|
    ensures var d := RandomPosition(pool, k).value;
      multiset(d.rest) + multiset{d.pos} == multiset(pool)
  {
    assert pool == pool[..k] + [pool[k]] + pool[k + 1..];
  }

  /** A draw keeps the pool invariant and hands out an interior cell that is
      no longer in the pool. */
  lemma RandomPositionKeepsInvariant(pool: seq<Pos>, k: nat, columns: int, rows: int)
    requires PoolInvariant(pool, columns, rows)
    requires k < |pool|
    ensures IsInterior(RandomPosition(pool, k).value.pos, columns, rows)
    ensures PoolInvariant(RandomPosition(pool, k).value.rest, columns, rows)
    ensures RandomPosition(pool, k).value.pos !in RandomPosition(pool, k).value.rest
  {
    var d := RandomPosition(pool, k).value;
    forall i | 0 <= i < |d.rest|
      ensures IsInterior(d.rest[i], columns, rows) && d.rest[i] != d.pos
    {
      var i' := if i < k then i else i + 1;
      assert d.rest[i] == pool[i'];
    }
    forall i, j | 0 <= i < j < |d.rest|
      ensures d.rest[i] != d.rest[j]
    {
      var i', j' := if i < k then i else i + 1, if j < k then j else j + 1;
      assert d.rest[i] == pool[i'] && d.rest[j] == pool[j'];
    }
  }
}
