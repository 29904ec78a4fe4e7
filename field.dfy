/**
 * The occupancy grid (the `Field` and `Location` classes, which are not part of this
 * model and are specified here abstractly): a depth x width rectangle of cells, each
 * holding at most one occupant id, with 8-neighbour adjacency clipped to the edges.
 * The shuffle that the field applies to an adjacency list is an input: a permutation
 * of the eight neighbour offsets.
 */
module Field {
  import opened Wrappers

  type Id = nat

  datatype Loc = Loc(row: int, col: int)

  /** A cell not in `cells` is empty. */
  datatype Grid = Grid(depth: int, width: int, cells: map<Loc, Id>)

  predicate InBounds(g: Grid, l: Loc) {
    0 <= l.row < g.depth && 0 <= l.col < g.width
  }

  /** Two cells are adjacent when they differ by at most one in each coordinate and are not the same cell. */
  predicate Adjacent(a: Loc, b: Loc) {
    -1 <= b.row - a.row <= 1 && -1 <= b.col - a.col <= 1 && a != b
  }

  function ObjectAt(g: Grid, l: Loc): (r: Option<Id>)
    requires InBounds(g, l)
    ensures r.Some? <==> l in g.cells
    ensures r.Some? ==> g.cells[l] == r.value
  {
    if l in g.cells then Some(g.cells[l]) else None
  }

  /** `place`: the cell now holds `id`; an occupant it held before is overwritten. */
  function Place(g: Grid, id: Id, l: Loc): (r: Grid)
    requires InBounds(g, l)
    ensures r.depth == g.depth && r.width == g.width
    ensures l in r.cells && r.cells[l] == id
  {
    g.(cells := g.cells[l := id])
  }

  /** `clear`: the cell becomes empty (already empty: no change). */
  function Clear(g: Grid, l: Loc): (r: Grid)
    ensures r.depth == g.depth && r.width == g.width
    ensures l !in r.cells
  {
    g.(cells := g.cells - {l})
  }

  /** After `place`, the cell holds exactly that occupant and every other cell is as before. */
  lemma PlaceThenGet(g: Grid, id: Id, l: Loc)
    requires InBounds(g, l)
    ensures var r := Place(g, id, l);
      && r.depth == g.depth && r.width == g.width
      && ObjectAt(r, l) == Some(id)
      && forall m :: InBounds(g, m) && m != l ==> ObjectAt(r, m) == ObjectAt(g, m)
  {
  }

  /** After `clear`, the cell is empty and every other cell is as before. */
  lemma ClearThenGet(g: Grid, l: Loc)
    requires InBounds(g, l)
    ensures var r := Clear(g, l);
      && r.depth == g.depth && r.width == g.width
      && ObjectAt(r, l) == None
      && forall m :: InBounds(g, m) && m != l ==> ObjectAt(r, m) == ObjectAt(g, m)
  {
  }

  /** `clearAll`: every cell becomes empty; the dimensions stay. */
  function ClearAll(g: Grid): (r: Grid)
    ensures r.depth == g.depth && r.width == g.width
    ensures forall m :: InBounds(r, m) ==> ObjectAt(r, m) == None
  {
    g.(cells := map[])
  }

  /** The eight neighbour offsets, in the field's unshuffled order. */
  const Offsets: seq<(int, int)> := [(-1, -1), (-1, 0), (-1, 1), (0, -1), (0, 1), (1, -1), (1, 0), (1, 1)]

  function Neighbour(l: Loc, k: nat): (n: Loc)
    requires k < 8
    ensures Adjacent(l, n)
  {
    Loc(l.row + Offsets[k].0, l.col + Offsets[k].1)
  }

  /** Every cell adjacent to `l` is the neighbour at exactly one offset. */
  lemma NeighbourOnto(l: Loc, m: Loc) returns (k: nat)
    requires Adjacent(l, m)
    ensures k < 8 && Neighbour(l, k) == m
  {
    var dr, dc := m.row - l.row, m.col - l.col;
    k := if dr == -1 then (if dc == -1 then 0 else if dc == 0 then 1 else 2)
         else if dr == 0 then (if dc == -1 then 3 else 4)
         else (if dc == -1 then 5 else if dc == 0 then 6 else 7);
  }

  lemma NeighbourInjective(l: Loc, j: nat, k: nat)
    requires j < 8 && k < 8 && j != k
    ensures Neighbour(l, j) != Neighbour(l, k)
  {
  }

  predicate Offsets8(order: seq<nat>) {
    forall i :: 0 <= i < |order| ==> order[i] < 8
  }

  /** A shuffle of the eight offsets: each offset exactly once. */
  predicate IsShuffle(order: seq<nat>) {
    && |order| == 8
    && Offsets8(order)
    && (forall i, j :: 0 <= i < j < |order| ==> order[i] != order[j])
    && (forall k: nat :: k < 8 ==> k in order)
  }

  /** `adjacentLocations`: the in-bounds neighbours of `l`, enumerated in the shuffled order. */
  function AdjacentLocations(g: Grid, l: Loc, order: seq<nat>): (r: seq<Loc>)
    requires Offsets8(order)
    ensures |r| <= |order|
    ensures forall m :: m in r ==> InBounds(g, m) && Adjacent(l, m)
  {
    if order == [] then []
    else
      var n := Neighbour(l, order[0]);
      (if InBounds(g, n) then [n] else []) + AdjacentLocations(g, l, order[1..])
  }

  predicate Distinct<T(==)>(s: seq<T>) {
    forall i, j :: 0 <= i < j < |s| ==> s[i] != s[j]
  }

  /** With distinct offsets the enumeration has no repeated cell. */
  lemma {:induction false} AdjacentDistinct(g: Grid, l: Loc, order: seq<nat>)
    requires Offsets8(order) && Distinct(order)
    ensures Distinct(AdjacentLocations(g, l, order))
  {
    if order != [] {
      var n := Neighbour(l, order[0]);
      var rest := AdjacentLocations(g, l, order[1..]);
      AdjacentDistinct(g, l, order[1..]);
      AdjacentMembers(g, l, order[1..]);
      if n in rest {
        var k :| k in order[1..] && Neighbour(l, k) == n;
        NeighbourInjective(l, order[0], k);
      }
    }
  }

  /** A cell is enumerated exactly when it is the in-bounds neighbour at some offset of the order. */
  lemma {:induction false} AdjacentMembers(g: Grid, l: Loc, order: seq<nat>)
    requires Offsets8(order)
    ensures forall m :: m in AdjacentLocations(g, l, order) <==>
      InBounds(g, m) && exists k :: k in order && Neighbour(l, k) == m
  {
    if order != [] {
      AdjacentMembers(g, l, order[1..]);
      var n := Neighbour(l, order[0]);
      forall m | InBounds(g, m) && (exists k :: k in order && Neighbour(l, k) == m)
        ensures m in AdjacentLocations(g, l, order)
      {
        var k :| k in order && Neighbour(l, k) == m;
        if k != order[0] {
          assert k in order[1..];
        }
      }
    }
  }

  /** Adjacency is complete: under a shuffle every in-bounds neighbour is enumerated, exactly once. */
  lemma AdjacentComplete(g: Grid, l: Loc, order: seq<nat>)
    requires IsShuffle(order)
    ensures Distinct(AdjacentLocations(g, l, order))
    ensures forall m :: m in AdjacentLocations(g, l, order) <==> InBounds(g, m) && Adjacent(l, m)
  {
    AdjacentDistinct(g, l, order);
    AdjacentMembers(g, l, order);
    forall m | InBounds(g, m) && Adjacent(l, m)
      ensures m in AdjacentLocations(g, l, order)
    {
      var k := NeighbourOnto(l, m);
      assert k in order;
    }
  }

  /** A cell away from every edge has all eight neighbours. */
  lemma {:induction false} InteriorHasEight(g: Grid, l: Loc, order: seq<nat>)
    requires Offsets8(order)
    requires 1 <= l.row < g.depth - 1 && 1 <= l.col < g.width - 1
    ensures |AdjacentLocations(g, l, order)| == |order|
  {
    if order != [] {
      InteriorHasEight(g, l, order[1..]);
    }
  }

  /** The offsets, among those of `order`, that lead from `l` to a cell inside the grid. */
  function InsideOffsets(g: Grid, l: Loc, order: seq<nat>): set<nat> {
    set k: nat | k < 8 && k in order && InBounds(g, Neighbour(l, k))
  }

  /** With distinct offsets the adjacency list has one cell per offset that stays inside the grid. */
  lemma {:induction false} AdjacentCount(g: Grid, l: Loc, order: seq<nat>)
    requires Offsets8(order) && Distinct(order)
    ensures |AdjacentLocations(g, l, order)| == |InsideOffsets(g, l, order)|
  {
    if order != [] {
      var rest := order[1..];
      assert Distinct(rest) by {
        forall i, j | 0 <= i < j < |rest| ensures rest[i] != rest[j] {
          assert rest[i] == order[i + 1] && rest[j] == order[j + 1];
        }
      }
      AdjacentCount(g, l, rest);
      assert order[0] !in rest by {
        forall i | 0 <= i < |rest| ensures rest[i] != order[0] {
          assert rest[i] == order[i + 1];
        }
      }
      var n := Neighbour(l, order[0]);
      if InBounds(g, n) {
        assert InsideOffsets(g, l, order) == InsideOffsets(g, l, rest) + {order[0]};
      } else {
        assert InsideOffsets(g, l, order) == InsideOffsets(g, l, rest);
      }
    }
  }

  /** A corner cell of a grid at least two cells deep and wide has three neighbours. */
  lemma CornerHasThree(g: Grid, order: seq<nat>)
    requires IsShuffle(order) && g.depth >= 2 && g.width >= 2
    ensures |AdjacentLocations(g, Loc(0, 0), order)| == 3
  {
    AdjacentCount(g, Loc(0, 0), order);
    assert InsideOffsets(g, Loc(0, 0), order) == {4, 6, 7};
  }

  /** A cell on the top edge, away from the corners, has five neighbours. */
  lemma EdgeHasFive(g: Grid, col: int, order: seq<nat>)
    requires IsShuffle(order) && g.depth >= 2 && 1 <= col < g.width - 1
    ensures |AdjacentLocations(g, Loc(0, col), order)| == 5
  {
    AdjacentCount(g, Loc(0, col), order);
    assert InsideOffsets(g, Loc(0, col), order) == {3, 4, 5, 6, 7};
  }

  /** Keeps the empty cells of `locs`, in order (the filter behind `getFreeAdjacentLocations`). */
  function FreeOf(g: Grid, locs: seq<Loc>): (r: seq<Loc>)
    ensures |r| <= |locs|
    ensures forall m :: m in r <==> m in locs && m !in g.cells
    ensures Distinct(locs) ==> Distinct(r)
  {
    if locs == [] then []
    else (if locs[0] !in g.cells then [locs[0]] else []) + FreeOf(g, locs[1..])
  }

  /** `getFreeAdjacentLocations`. */
  function FreeAdjacentLocations(g: Grid, l: Loc, order: seq<nat>): (r: seq<Loc>)
    requires Offsets8(order)
    ensures forall m :: m in r ==> InBounds(g, m) && Adjacent(l, m) && m !in g.cells
  {
    FreeOf(g, AdjacentLocations(g, l, order))
  }

  /** Under a shuffle the free list holds each empty in-bounds neighbour exactly once. */
  lemma FreeAdjacentComplete(g: Grid, l: Loc, order: seq<nat>)
    requires IsShuffle(order)
    ensures Distinct(FreeAdjacentLocations(g, l, order))
    ensures forall m :: m in FreeAdjacentLocations(g, l, order) <==>
      InBounds(g, m) && Adjacent(l, m) && m !in g.cells
  {
    AdjacentComplete(g, l, order);
  }

  /** `freeAdjacentLocation`: the first free neighbour, or none when every neighbour is occupied. */
  function FreeAdjacentLocation(g: Grid, l: Loc, order: seq<nat>): (r: Option<Loc>)
    requires Offsets8(order)
    ensures r.Some? ==> InBounds(g, r.value) && Adjacent(l, r.value) && r.value !in g.cells
    ensures r.None? <==> FreeAdjacentLocations(g, l, order) == []
  {
    var free := FreeAdjacentLocations(g, l, order);
    if |free| > 0 then Some(free[0]) else None
  }

  /** Under a shuffle, no free neighbour is reported only when every in-bounds neighbour is occupied. */
  lemma NoFreeMeansCrowded(g: Grid, l: Loc, order: seq<nat>)
    requires IsShuffle(order)
    ensures FreeAdjacentLocation(g, l, order).None? <==>
      forall m :: InBounds(g, m) && Adjacent(l, m) ==> m in g.cells
  {
    FreeAdjacentComplete(g, l, order);
    if FreeAdjacentLocation(g, l, order).Some? {
      var m := FreeAdjacentLocation(g, l, order).value;
      assert InBounds(g, m) && Adjacent(l, m) && m !in g.cells;
    }
  }
}
