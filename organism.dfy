/**
 * One organism's life: creation, aging, hunger, breeding, foraging, moving and death,
 * for all four species (`Grass.run`, `Deer.hunt`, `Tree.hunt`, `Fire.spread` share one
 * shape). The state is the grid plus a table of organism records indexed by id, and the
 * central invariant `Valid` ties the two together: a live organism's location is L
 * exactly when the grid holds that organism at L, and a dead organism has neither.
 */
module Organism {
  import opened Wrappers
  import opened Field
  import opened Species

  datatype Agent = Agent(species: Species, age: int, food: int, alive: bool, loc: Option<Loc>)

  /** The grid, the organisms, and the id the next organism will get. */
  datatype Eco = Eco(field: Grid, agents: map<Id, Agent>, nextId: nat)

  /** The random draws one update consumes; each `nextDouble() <= p` is a boolean. */
  datatype Draws = Draws(
    freeOrder: seq<nat>,     // shuffle behind `getFreeAdjacentLocations` in `giveBirth`
    breedRoll: bool,         // nextDouble() <= BREEDING_PROBABILITY
    litterRoll: nat,         // nextInt(MAX_LITTER_SIZE)
    newbornAge: seq<nat>,    // nextInt(MAX_AGE), per newborn created with randomAge
    newbornFood: seq<nat>,   // nextInt(GRASS_FOOD_VALUE), per newborn
    foodOrder: seq<nat>,     // shuffle behind `adjacentLocations` in `findFood`
    fireRolls: seq<bool>,    // nextDouble() <= FIRE_DEATH_PROBABILITY, per adjacent position
    moveOrder: seq<nat>)     // shuffle behind `freeAdjacentLocation`

  /** The draws have the ranges `java.util.Random` gives them (the shuffles: see `Shuffled`). */
  predicate DrawsOk(s: Species, d: Draws) {
    && Offsets8(d.freeOrder) && Offsets8(d.foodOrder) && Offsets8(d.moveOrder)
    && d.litterRoll < MaxLitter(s)
    && |d.newbornAge| >= MaxLitter(s) && |d.newbornFood| >= MaxLitter(s)
    && (forall i :: 0 <= i < |d.newbornAge| ==> d.newbornAge[i] < MaxAge(s))
    && (forall i :: 0 <= i < |d.newbornFood| ==> d.newbornFood[i] < FoodValue)
    && |d.fireRolls| == 8
  }

  /** The three adjacency orders are permutations of the eight offsets, as `Collections.shuffle` makes them. */
  predicate Shuffled(d: Draws) {
    IsShuffle(d.freeOrder) && IsShuffle(d.foodOrder) && IsShuffle(d.moveOrder)
  }


  /** The grid cell `l` holds a live organism that records `l` as its location. */
  predicate Holds(e: Eco, l: Loc)
    requires l in e.field.cells
  {
    var id := e.field.cells[l];
    id in e.agents && e.agents[id].alive && e.agents[id].loc == Some(l)
  }

  /** Organism `id` is alive exactly when it has a location, and the grid agrees with it. */
  predicate Placed(e: Eco, id: Id)
    requires id in e.agents
  {
    var a := e.agents[id];
    && a.age >= 0
    && a.alive == a.loc.Some?
    && (a.loc.Some? ==> a.loc.value in e.field.cells && e.field.cells[a.loc.value] == id)
  }

  /**
   * The link between the grid and the organisms: every occupied cell is in bounds and
   * holds a live organism located there; a live organism stands on the cell that holds
   * it; a dead one has no location; every id was handed out before.
   */
  ghost predicate Valid(e: Eco) {
    && e.field.depth > 0 && e.field.width > 0
    && (forall l :: l in e.field.cells ==> InBounds(e.field, l) && Holds(e, l))
    && (forall id :: id in e.agents ==> id < e.nextId && Placed(e, id))
  }

  /** The species occupying a cell, if any. */
  function SpeciesAt(e: Eco, l: Loc): (r: Option<Species>)
    ensures r.Some? ==> l in e.field.cells
  {
    if l in e.field.cells && e.field.cells[l] in e.agents then Some(e.agents[e.field.cells[l]].species) else None
  }

  /**
   * The constructor of each species: age 0, or a random age below MAX_AGE when
   * `randomAge`; a food level `nextInt(GRASS_FOOD_VALUE)` in both branches (Grass has none).
   */
  function Create(s: Species, randomAge: bool, ageRoll: nat, foodRoll: nat, l: Loc): (a: Agent)
    requires randomAge ==> ageRoll < MaxAge(s)
    requires HasHunger(s) ==> foodRoll < FoodValue
    ensures a.species == s && a.alive && a.loc == Some(l)
    ensures randomAge ==> 0 <= a.age < MaxAge(s)
    ensures !randomAge ==> a.age == 0
    ensures HasHunger(s) ==> 0 <= a.food < FoodValue
    ensures !HasHunger(s) ==> a.food == 0
  {
    Agent(s, if randomAge then ageRoll else 0, if HasHunger(s) then foodRoll else 0, true, Some(l))
  }

  /** Registers a new organism and places it on the cell it records (the constructor's `setLocation`). */
  function AddAgent(e: Eco, a: Agent): (r: Eco)
    requires a.loc.Some? && InBounds(e.field, a.loc.value)
  {
    Eco(Place(e.field, e.nextId, a.loc.value), e.agents[e.nextId := a], e.nextId + 1)
  }

  /** A new organism gets the next id, which is then used up, and stands on its cell. */
  lemma AddAgentRecords(e: Eco, a: Agent)
    requires a.loc.Some? && InBounds(e.field, a.loc.value)
    ensures var r := AddAgent(e, a);
      && r.nextId == e.nextId + 1 && e.nextId in r.agents && r.agents[e.nextId] == a
      && (forall x :: x in e.agents && x != e.nextId ==> x in r.agents && r.agents[x] == e.agents[x])
      && ObjectAt(r.field, a.loc.value) == Some(e.nextId)
      && r.field.depth == e.field.depth && r.field.width == e.field.width
  {
  }

  /** A live organism added on an empty cell keeps the grid and the organisms linked. */
  lemma AddAgentValid(e: Eco, a: Agent)
    requires Valid(e) && a.alive && a.age >= 0 && a.loc.Some?
    requires InBounds(e.field, a.loc.value) && a.loc.value !in e.field.cells
    ensures Valid(AddAgent(e, a)) && e.nextId !in e.agents
  {
    var r := AddAgent(e, a);
    forall id | id in r.agents ensures id < r.nextId && Placed(r, id) {
      if id != e.nextId {
        assert Placed(e, id);
      }
    }
    forall l | l in r.field.cells ensures InBounds(r.field, l) && Holds(r, l) {
      if l != a.loc.value {
        assert Holds(e, l);
      }
    }
  }

  /** `setDead`: the organism is no longer alive and its cell, if it had one, is emptied. */
  function SetDead(e: Eco, id: Id): (r: Eco)
    requires id in e.agents
    ensures r.agents == e.agents[id := e.agents[id].(alive := false, loc := None)]
    ensures r.nextId == e.nextId && r.field.depth == e.field.depth && r.field.width == e.field.width
  {
    var a := e.agents[id];
    var g := if a.loc.Some? then Clear(e.field, a.loc.value) else e.field;
    Eco(g, e.agents[id := a.(alive := false, loc := None)], e.nextId)
  }

  /** After `setDead` the grid has lost exactly the cell the organism held, and nothing else. */
  lemma SetDeadValid(e: Eco, id: Id)
    requires Valid(e) && id in e.agents
    ensures var r := SetDead(e, id);
      && Valid(r)
      && (forall m :: m in r.field.cells <==> m in e.field.cells && e.field.cells[m] != id)
      && (forall m :: m in r.field.cells ==> r.field.cells[m] == e.field.cells[m])
  {
    var r := SetDead(e, id);
    forall x | x in r.agents ensures x < r.nextId && Placed(r, x) {
      if x != id {
        assert Placed(e, x);
      }
    }
    forall l | l in r.field.cells ensures InBounds(r.field, l) && Holds(r, l) {
      assert Holds(e, l);
    }
  }

  /** A second `setDead` leaves the grid and the table as the first one left them. */
  lemma SetDeadTwice(e: Eco, id: Id)
    requires id in e.agents
    ensures SetDead(SetDead(e, id), id) == SetDead(e, id)
  {
  }

  /** `setLocation`: clear the old cell, then place the organism at the new one. */
  function SetLocation(e: Eco, id: Id, l: Loc): (r: Eco)
    requires id in e.agents && InBounds(e.field, l)
    ensures r.agents == e.agents[id := e.agents[id].(loc := Some(l))]
    ensures r.nextId == e.nextId && r.field.depth == e.field.depth && r.field.width == e.field.width
  {
    var a := e.agents[id];
    var g := if a.loc.Some? then Clear(e.field, a.loc.value) else e.field;
    Eco(Place(g, id, l), e.agents[id := a.(loc := Some(l))], e.nextId)
  }

  /** After moving to an empty cell the organism occupies exactly that cell; no other cell changes. */
  lemma SetLocationValid(e: Eco, id: Id, l: Loc)
    requires Valid(e) && id in e.agents && e.agents[id].alive
    requires InBounds(e.field, l) && l !in e.field.cells
    ensures var r := SetLocation(e, id, l);
      && Valid(r)
      && (forall m :: m in r.field.cells && r.field.cells[m] == id <==> m == l)
      && (forall m :: m != l ==> (m in r.field.cells <==> m in e.field.cells && e.field.cells[m] != id))
      && (forall m :: m != l && m in r.field.cells ==> r.field.cells[m] == e.field.cells[m])
  {
    var r := SetLocation(e, id, l);
    assert Placed(e, id);
    forall x | x in r.agents ensures x < r.nextId && Placed(r, x) {
      if x != id {
        assert Placed(e, x);
      }
    }
    forall m | m in r.field.cells ensures InBounds(r.field, m) && Holds(r, m) {
      if m != l {
        assert Holds(e, m);
      }
    }
  }

  /** `incrementAge`: one year older; death exactly when the age now exceeds MAX_AGE. */
  function IncrementAge(e: Eco, id: Id): (r: Eco)
    requires id in e.agents
    ensures r.nextId == e.nextId && r.agents.Keys == e.agents.Keys
    ensures var a, b := e.agents[id], r.agents[id];
      && b.age == a.age + 1 && b.species == a.species && b.food == a.food
      && (b.alive <==> a.alive && a.age + 1 <= MaxAge(a.species))
      && (b.loc == a.loc || (!b.alive && b.loc.None?))
    ensures forall x :: x in e.agents && x != id ==> r.agents[x] == e.agents[x]
    ensures r.agents[id].alive ==> r.field == e.field
  {
    var a := e.agents[id];
    var e1 := e.(agents := e.agents[id := a.(age := a.age + 1)]);
    if a.age + 1 > MaxAge(a.species) then SetDead(e1, id) else e1
  }

  /** `incrementHunger`: the food level drops by one; death exactly when it reaches zero or below. */
  function IncrementHunger(e: Eco, id: Id): (r: Eco)
    requires id in e.agents
    ensures r.nextId == e.nextId && r.agents.Keys == e.agents.Keys
    ensures var a, b := e.agents[id], r.agents[id];
      && b.food == a.food - 1 && b.species == a.species && b.age == a.age
      && (b.alive <==> a.alive && a.food - 1 > 0)
      && (b.loc == a.loc || (!b.alive && b.loc.None?))
    ensures forall x :: x in e.agents && x != id ==> r.agents[x] == e.agents[x]
    ensures r.agents[id].alive ==> r.field == e.field
  {
    var a := e.agents[id];
    var e1 := e.(agents := e.agents[id := a.(food := a.food - 1)]);
    if a.food - 1 <= 0 then SetDead(e1, id) else e1
  }

  /** Changing an organism's age or food level leaves the grid and the links untouched. */
  lemma RetouchValid(e: Eco, id: Id, a: Agent)
    requires Valid(e) && id in e.agents && a.age >= 0
    requires a.alive == e.agents[id].alive && a.loc == e.agents[id].loc
    ensures Valid(e.(agents := e.agents[id := a]))
  {
    var r := e.(agents := e.agents[id := a]);
    forall x | x in r.agents ensures x < r.nextId && Placed(r, x) {
      assert Placed(e, x);
    }
    forall m | m in r.field.cells ensures InBounds(r.field, m) && Holds(r, m) {
      assert Holds(e, m);
    }
  }

  lemma IncrementAgeValid(e: Eco, id: Id)
    requires Valid(e) && id in e.agents
    ensures Valid(IncrementAge(e, id))
  {
    var a := e.agents[id];
    assert Placed(e, id);
    RetouchValid(e, id, a.(age := a.age + 1));
    var e1 := e.(agents := e.agents[id := a.(age := a.age + 1)]);
    if a.age + 1 > MaxAge(a.species) {
      SetDeadValid(e1, id);
    }
  }

  lemma IncrementHungerValid(e: Eco, id: Id)
    requires Valid(e) && id in e.agents
    ensures Valid(IncrementHunger(e, id))
  {
    var a := e.agents[id];
    assert Placed(e, id);
    RetouchValid(e, id, a.(food := a.food - 1));
    var e1 := e.(agents := e.agents[id := a.(food := a.food - 1)]);
    if a.food - 1 <= 0 {
      SetDeadValid(e1, id);
    }
  }

  /** `canBreed`: the breeding age has been reached. */
  predicate CanBreed(s: Species, age: int): (ok: bool)
    ensures ok ==> age >= 0
    ensures age >= 15 ==> ok
  {
    age >= BreedingAge(s)
  }

  /**
   * `breed`: the number of births, `nextInt(MAX_LITTER_SIZE) + 1` when the organism can
   * breed and the breeding draw succeeds, otherwise 0.
   */
  function Breed(s: Species, age: int, breedRoll: bool, litterRoll: nat): (births: nat)
    requires litterRoll < MaxLitter(s)
    ensures births <= MaxLitter(s)
    ensures !CanBreed(s, age) ==> births == 0
    ensures CanBreed(s, age) && (AlwaysBreeds(s) || breedRoll) ==> births == litterRoll + 1
    ensures CanBreed(s, age) && !AlwaysBreeds(s) ==> (births > 0 <==> breedRoll)
  {
    if CanBreed(s, age) && (AlwaysBreeds(s) || breedRoll) then litterRoll + 1 else 0
  }

  /** The organism the `b`-th birth creates at `l`: `new X(false, ...)`, or `new Fire(true, ...)`. */
  function Newborn(s: Species, d: Draws, b: nat, l: Loc): (a: Agent)
    requires DrawsOk(s, d) && b < MaxLitter(s)
    ensures a.species == s && a.alive && a.loc == Some(l) && a.age >= 0
    ensures NewbornRandomAge(s) ==> a.age < MaxAge(s)
    ensures !NewbornRandomAge(s) ==> a.age == 0
  {
    Create(s, NewbornRandomAge(s), d.newbornAge[b], d.newbornFood[b], l)
  }

  predicate AllInBounds(g: Grid, locs: seq<Loc>) {
    forall m :: m in locs ==> InBounds(g, m)
  }

  datatype Outcome = Outcome(eco: Eco, born: seq<Id>)

  /** The first `n` rounds of the `giveBirth` loop, each taking the head of the free list. */
  function PlaceNewborns(e: Eco, s: Species, free: seq<Loc>, d: Draws, n: nat): (r: Outcome)
    requires AllInBounds(e.field, free) && DrawsOk(s, d)
    requires n <= |free| && n <= MaxLitter(s)
    ensures r.eco.nextId == e.nextId + n
    ensures r.eco.field.depth == e.field.depth && r.eco.field.width == e.field.width
    decreases n
  {
    if n == 0 then Outcome(e, [])
    else
      var p := PlaceNewborns(e, s, free, d, n - 1);
      assert free[n - 1] in free;
      Outcome(AddAgent(p.eco, Newborn(s, d, n - 1, free[n - 1])), p.born + [p.eco.nextId])
  }

  /** The `n` births get the next `n` ids, and those are the only new records. */
  lemma {:induction false} PlaceNewbornsIds(e: Eco, s: Species, free: seq<Loc>, d: Draws, n: nat)
    requires AllInBounds(e.field, free) && DrawsOk(s, d)
    requires n <= |free| && n <= MaxLitter(s)
    ensures var r := PlaceNewborns(e, s, free, d, n);
      && |r.born| == n && (forall i :: 0 <= i < n ==> r.born[i] == e.nextId + i)
      && (forall x :: x in r.eco.agents <==> x in e.agents || e.nextId <= x < e.nextId + n)
  {
    if n > 0 {
      PlaceNewbornsIds(e, s, free, d, n - 1);
    }
  }

  /** One more round of the birth loop on the table `p` of the first `n - 1` rounds. */
  lemma AddNewbornAgents(e: Eco, p: Eco, s: Species, free: seq<Loc>, d: Draws, n: nat)
    requires AllInBounds(p.field, free) && DrawsOk(s, d)
    requires 1 <= n <= |free| && n <= MaxLitter(s) && p.nextId == e.nextId + (n - 1)
    requires forall x :: e.nextId <= x < e.nextId + (n - 1) ==>
      x in p.agents && p.agents[x] == Newborn(s, d, x - e.nextId, free[x - e.nextId])
    requires forall x :: x in e.agents && x < e.nextId ==> x in p.agents && p.agents[x] == e.agents[x]
    ensures var r := AddAgent(p, Newborn(s, d, n - 1, free[n - 1]));
      && (forall x :: e.nextId <= x < e.nextId + n ==>
            x in r.agents && r.agents[x] == Newborn(s, d, x - e.nextId, free[x - e.nextId]))
      && (forall x :: x in e.agents && x < e.nextId ==> x in r.agents && r.agents[x] == e.agents[x])
  {
    assert free[n - 1] in free;
  }

  /** The birth with id `nextId + i` is a newborn on the `i`-th cell of the list; no old record changes. */
  lemma {:induction false} PlaceNewbornsAgents(e: Eco, s: Species, free: seq<Loc>, d: Draws, n: nat)
    requires AllInBounds(e.field, free) && DrawsOk(s, d)
    requires n <= |free| && n <= MaxLitter(s)
    ensures forall x :: e.nextId <= x < e.nextId + n ==>
      x in PlaceNewborns(e, s, free, d, n).eco.agents &&
      PlaceNewborns(e, s, free, d, n).eco.agents[x] == Newborn(s, d, x - e.nextId, free[x - e.nextId])
    ensures forall x :: x in e.agents && x < e.nextId ==>
      x in PlaceNewborns(e, s, free, d, n).eco.agents && PlaceNewborns(e, s, free, d, n).eco.agents[x] == e.agents[x]
  {
    if n > 0 {
      PlaceNewbornsAgents(e, s, free, d, n - 1);
      AddNewbornAgents(e, PlaceNewborns(e, s, free, d, n - 1).eco, s, free, d, n);
    }
  }

  /** The `n` births get the next `n` ids and the first `n` cells of the list; nobody else changes. */
  lemma PlaceNewbornsRecords(e: Eco, s: Species, free: seq<Loc>, d: Draws, n: nat)
    requires AllInBounds(e.field, free) && DrawsOk(s, d)
    requires n <= |free| && n <= MaxLitter(s)
    ensures var r := PlaceNewborns(e, s, free, d, n);
      && |r.born| == n && (forall i :: 0 <= i < n ==> r.born[i] == e.nextId + i)
      && (forall x :: x in r.eco.agents <==> x in e.agents || e.nextId <= x < e.nextId + n)
      && (forall i :: 0 <= i < n ==> r.eco.agents[e.nextId + i] == Newborn(s, d, i, free[i]))
      && (forall x :: x in e.agents && x < e.nextId ==> r.eco.agents[x] == e.agents[x])
  {
    PlaceNewbornsIds(e, s, free, d, n);
    PlaceNewbornsAgents(e, s, free, d, n);
    var r := PlaceNewborns(e, s, free, d, n);
    forall i | 0 <= i < n ensures r.eco.agents[e.nextId + i] == Newborn(s, d, i, free[i]) {
      var x := e.nextId + i;
      assert x in r.eco.agents && x - e.nextId == i;
    }
  }

  /** A list of cells that are empty and pairwise different. */
  predicate FreeCells(e: Eco, free: seq<Loc>) {
    Distinct(free) && forall m :: m in free ==> m !in e.field.cells
  }

  /** Newborns on distinct empty cells fill exactly those cells and leave every other cell as it was. */
  lemma {:induction false} PlaceNewbornsCells(e: Eco, s: Species, free: seq<Loc>, d: Draws, n: nat)
    requires AllInBounds(e.field, free) && FreeCells(e, free) && DrawsOk(s, d)
    requires n <= |free| && n <= MaxLitter(s)
    ensures var r := PlaceNewborns(e, s, free, d, n);
      && (forall m :: m in e.field.cells ==> m in r.eco.field.cells && r.eco.field.cells[m] == e.field.cells[m])
      && (forall i :: 0 <= i < n ==> free[i] in r.eco.field.cells)
      && (forall i :: n <= i < |free| ==> free[i] !in r.eco.field.cells)
      && (forall m :: m !in e.field.cells && m !in free ==> m !in r.eco.field.cells)
  {
    if n > 0 {
      PlaceNewbornsCells(e, s, free, d, n - 1);
      assert free[n - 1] in free;
      forall i | n <= i < |free| ensures free[i] != free[n - 1] {
      }
    }
  }

  /** Newborns on distinct empty cells keep the grid and the organisms linked; they fill exactly those cells. */
  lemma {:induction false} PlaceNewbornsValid(e: Eco, s: Species, free: seq<Loc>, d: Draws, n: nat)
    requires Valid(e) && AllInBounds(e.field, free) && FreeCells(e, free) && DrawsOk(s, d)
    requires n <= |free| && n <= MaxLitter(s)
    ensures var r := PlaceNewborns(e, s, free, d, n);
      && Valid(r.eco)
      && (forall m :: m in e.field.cells ==> m in r.eco.field.cells && r.eco.field.cells[m] == e.field.cells[m])
      && (forall i :: 0 <= i < n ==> free[i] in r.eco.field.cells)
      && (forall i :: n <= i < |free| ==> free[i] !in r.eco.field.cells)
      && (forall m :: m !in e.field.cells && m !in free ==> m !in r.eco.field.cells)
  {
    PlaceNewbornsCells(e, s, free, d, n);
    if n > 0 {
      PlaceNewbornsValid(e, s, free, d, n - 1);
      var p := PlaceNewborns(e, s, free, d, n - 1);
      assert free[n - 1] in free && free[n - 1] !in p.eco.field.cells;
      AddAgentValid(p.eco, Newborn(s, d, n - 1, free[n - 1]));
    }
  }

  /** The shuffled free neighbours that `giveBirth` fills. */
  function BirthCells(e: Eco, id: Id, d: Draws): (free: seq<Loc>)
    requires id in e.agents && e.agents[id].loc.Some? && Offsets8(d.freeOrder)
    ensures AllInBounds(e.field, free)
  {
    FreeAdjacentLocations(e.field, e.agents[id].loc.value, d.freeOrder)
  }

  /** The number of newborns `giveBirth` creates: `breed()` births, as long as free cells last. */
  function LitterSize(e: Eco, id: Id, d: Draws): (n: nat)
    requires id in e.agents && e.agents[id].loc.Some? && DrawsOk(e.agents[id].species, d)
    ensures n <= MaxLitter(e.agents[id].species) && n <= |BirthCells(e, id, d)|
  {
    var a := e.agents[id];
    Min(Breed(a.species, a.age, d.breedRoll, d.litterRoll), |BirthCells(e, id, d)|)
  }

  /** `giveBirth`. */
  function GiveBirth(e: Eco, id: Id, d: Draws): (r: Outcome)
    requires id in e.agents && id < e.nextId && e.agents[id].loc.Some? && DrawsOk(e.agents[id].species, d)
    ensures r.eco.nextId == e.nextId + LitterSize(e, id, d) && |r.born| == LitterSize(e, id, d)
    ensures r.eco.field.depth == e.field.depth && r.eco.field.width == e.field.width
    ensures id in r.eco.agents && r.eco.agents[id] == e.agents[id]
    ensures e.agents.Keys <= r.eco.agents.Keys
  {
    PlaceNewbornsRecords(e, e.agents[id].species, BirthCells(e, id, d), d, LitterSize(e, id, d));
    PlaceNewborns(e, e.agents[id].species, BirthCells(e, id, d), d, LitterSize(e, id, d))
  }

  /**
   * The candidate at position `k` of the adjacency list is food: a live organism of a
   * species this one eats, and, for Fire, the consumption draw succeeded.
   */
  predicate IsPrey(e: Eco, s: Species, adj: seq<Loc>, rolls: seq<bool>, k: nat)
    requires k < |adj|
  {
    var l := adj[k];
    && l in e.field.cells && e.field.cells[l] in e.agents
    && var p := e.agents[e.field.cells[l]];
       p.alive && Eats(s, p.species) && (!GatedByDraw(s) || (k < |rolls| && rolls[k]))
  }

  /** The iterator loop of `findFood` from position `i` on: the first food candidate, if any. */
  function FirstPrey(e: Eco, s: Species, adj: seq<Loc>, rolls: seq<bool>, i: nat): (r: Option<nat>)
    requires i <= |adj|
    ensures r.Some? ==> i <= r.value < |adj| && IsPrey(e, s, adj, rolls, r.value)
    ensures r.Some? ==> forall j :: i <= j < r.value ==> !IsPrey(e, s, adj, rolls, j)
    ensures r.None? ==> forall j :: i <= j < |adj| ==> !IsPrey(e, s, adj, rolls, j)
    decreases |adj| - i
  {
    if i == |adj| then None
    else if IsPrey(e, s, adj, rolls, i) then Some(i)
    else FirstPrey(e, s, adj, rolls, i + 1)
  }

  datatype FoodResult = FoodResult(eco: Eco, where: Option<Loc>)

  /** The neighbours `findFood` scans, in its shuffled order. */
  function FoodCells(e: Eco, id: Id, d: Draws): (adj: seq<Loc>)
    requires id in e.agents && e.agents[id].loc.Some? && Offsets8(d.foodOrder)
    ensures forall m :: m in adj ==> InBounds(e.field, m) && Adjacent(e.agents[id].loc.value, m)
  {
    AdjacentLocations(e.field, e.agents[id].loc.value, d.foodOrder)
  }

  /** `findFood`: eat the first food neighbour, reset the food level to the food value, and report that cell. */
  function FindFood(e: Eco, id: Id, d: Draws): (r: FoodResult)
    requires id in e.agents && e.agents[id].loc.Some? && DrawsOk(e.agents[id].species, d)
    ensures r.where.Some? ==> InBounds(e.field, r.where.value) && Adjacent(e.agents[id].loc.value, r.where.value)
    ensures r.eco.nextId == e.nextId && r.eco.agents.Keys == e.agents.Keys
    ensures r.eco.field.depth == e.field.depth && r.eco.field.width == e.field.width
    ensures r.eco.agents[id] == if r.where.Some? then e.agents[id].(food := FoodValue) else e.agents[id]
    ensures r.where.None? ==> r.eco == e
  {
    var a := e.agents[id];
    var adj := FoodCells(e, id, d);
    match FirstPrey(e, a.species, adj, d.fireRolls, 0)
    case None => FoodResult(e, None)
    case Some(k) =>
      assert adj[k] in adj;
      var prey := e.field.cells[adj[k]];
      var e1 := SetDead(e, prey);
      FoodResult(e1.(agents := e1.agents[id := e1.agents[id].(food := FoodValue)]), Some(adj[k]))
  }

  /**
   * `findFood` eats the first candidate, in the shuffled adjacency order, that is food (for
   * Fire: whose draw succeeded), and reports nothing exactly when no candidate is food.
   */
  lemma FindFoodFirst(e: Eco, id: Id, d: Draws)
    requires id in e.agents && e.agents[id].loc.Some? && DrawsOk(e.agents[id].species, d)
    ensures var r, adj, s := FindFood(e, id, d), FoodCells(e, id, d), e.agents[id].species;
      && (r.where.Some? ==>
            exists k :: 0 <= k < |adj| && adj[k] == r.where.value && IsPrey(e, s, adj, d.fireRolls, k)
              && forall j :: 0 <= j < k ==> !IsPrey(e, s, adj, d.fireRolls, j))
      && (r.where.None? <==> forall j :: 0 <= j < |adj| ==> !IsPrey(e, s, adj, d.fireRolls, j))
  {
    var adj := FoodCells(e, id, d);
    match FirstPrey(e, e.agents[id].species, adj, d.fireRolls, 0)
    case None =>
    case Some(k) =>
      assert adj[k] == FindFood(e, id, d).where.value;
  }

  /**
   * `findFood` changes no organism but the eater and its prey: a live organism of a
   * species the eater eats, on the reported cell, which is now dead and has no location.
   */
  lemma FindFoodFrame(e: Eco, id: Id, d: Draws)
    requires id in e.agents && e.agents[id].loc.Some? && DrawsOk(e.agents[id].species, d)
    ensures var r, s := FindFood(e, id, d), e.agents[id].species;
      forall x :: x in e.agents && x != id && r.eco.agents[x] != e.agents[x] ==>
        && r.where.Some? && r.where.value in e.field.cells && x == e.field.cells[r.where.value]
        && e.agents[x].alive && Eats(s, e.agents[x].species)
        && r.eco.agents[x] == e.agents[x].(alive := false, loc := None)
  {
    var a := e.agents[id];
    var adj := FoodCells(e, id, d);
    match FirstPrey(e, a.species, adj, d.fireRolls, 0)
    case None =>
    case Some(k) =>
      assert IsPrey(e, a.species, adj, d.fireRolls, k);
  }

  /** Relocate to the food cell, else to the first free neighbour; with neither, die of overcrowding. */
  function Move(e: Eco, id: Id, d: Draws, food: Option<Loc>): (r: Eco)
    requires id in e.agents && e.agents[id].loc.Some? && Offsets8(d.moveOrder)
    requires food.Some? ==> InBounds(e.field, food.value)
    ensures r.nextId == e.nextId && r.agents.Keys == e.agents.Keys
    ensures r.field.depth == e.field.depth && r.field.width == e.field.width
    ensures forall x :: x in e.agents && x != id ==> r.agents[x] == e.agents[x]
    ensures var a, b := e.agents[id], r.agents[id]; b.species == a.species && b.age == a.age && b.food == a.food
  {
    var target := if food.Some? then food else FreeAdjacentLocation(e.field, e.agents[id].loc.value, d.moveOrder);
    if target.Some? then SetLocation(e, id, target.value) else SetDead(e, id)
  }

  /** The state after aging and, for the species that have it, hunger. */
  function AgeAndHunger(e: Eco, id: Id): (r: Eco)
    requires id in e.agents
    ensures r.nextId == e.nextId && r.agents.Keys == e.agents.Keys
    ensures forall x :: x in e.agents && x != id ==> r.agents[x] == e.agents[x]
    ensures var a, b := e.agents[id], r.agents[id];
      && b.species == a.species && b.age == a.age + 1
      && b.food == (if HasHunger(a.species) then a.food - 1 else a.food)
      && (b.alive <==> a.alive && a.age + 1 <= MaxAge(a.species) && (HasHunger(a.species) ==> a.food - 1 > 0))
      && (b.alive ==> r.field == e.field)
      && (b.loc == a.loc || (!b.alive && b.loc.None?))
  {
    var e1 := IncrementAge(e, id);
    if HasHunger(e.agents[id].species) then IncrementHunger(e1, id) else e1
  }

  /**
   * One update of one organism (`Grass.run`, `Deer.hunt`, `Tree.hunt`, `Fire.spread`):
   * age, then hunger, then, if still alive, breed into free neighbours, forage (not
   * Grass), and move or die of overcrowding. Newborns are returned, not updated.
   */
  function Act(e: Eco, id: Id, d: Draws): (r: Outcome)
    requires id in e.agents && id < e.nextId && (e.agents[id].alive ==> e.agents[id].loc.Some?)
    requires DrawsOk(e.agents[id].species, d)
    ensures e.agents.Keys <= r.eco.agents.Keys
  {
    var s := e.agents[id].species;
    var e2 := AgeAndHunger(e, id);
    if !e2.agents[id].alive then Outcome(e2, [])
    else
      var g := GiveBirth(e2, id, d);
      var f := if s != Grass then FindFood(g.eco, id, d) else FoodResult(g.eco, None);
      Outcome(Move(f.eco, id, d, f.where), g.born)
  }

  /**
   * `giveBirth` creates exactly `min(births, free neighbours)` newborns, the i-th on the
   * i-th shuffled free neighbour; they get the next ids and no existing organism changes.
   */
  lemma GiveBirthRecords(e: Eco, id: Id, d: Draws)
    requires id in e.agents && id < e.nextId && e.agents[id].loc.Some? && DrawsOk(e.agents[id].species, d)
    ensures var r, a, free := GiveBirth(e, id, d), e.agents[id], BirthCells(e, id, d);
      && |r.born| == Min(Breed(a.species, a.age, d.breedRoll, d.litterRoll), |free|)
      && (forall i :: 0 <= i < |r.born| ==> r.born[i] == e.nextId + i)
      && (forall x :: x in r.eco.agents <==> x in e.agents || e.nextId <= x < r.eco.nextId)
      && (forall x :: x in e.agents && x < e.nextId ==> r.eco.agents[x] == e.agents[x])
      && (forall i :: 0 <= i < |r.born| ==> r.eco.agents[e.nextId + i] == Newborn(a.species, d, i, free[i]))
  {
    var a := e.agents[id];
    PlaceNewbornsRecords(e, a.species, BirthCells(e, id, d), d, LitterSize(e, id, d));
  }

  /** The cells newborns go to are pairwise different, empty beforehand and adjacent to the parent. */
  lemma GiveBirthCells(e: Eco, id: Id, d: Draws)
    requires id in e.agents && e.agents[id].loc.Some? && DrawsOk(e.agents[id].species, d)
    requires IsShuffle(d.freeOrder)
    ensures var a, free := e.agents[id], BirthCells(e, id, d);
      && Distinct(free)
      && forall i :: 0 <= i < |free| ==>
           InBounds(e.field, free[i]) && Adjacent(a.loc.value, free[i]) && free[i] !in e.field.cells
  {
    var a := e.agents[id];
    var free := BirthCells(e, id, d);
    FreeAdjacentComplete(e.field, a.loc.value, d.freeOrder);
    forall i | 0 <= i < |free|
      ensures InBounds(e.field, free[i]) && Adjacent(a.loc.value, free[i]) && free[i] !in e.field.cells
    {
      assert free[i] in free;
    }
  }

  /** Births keep the grid and the organisms linked: newborns fill unused cells, occupied cells keep their occupant. */
  lemma GiveBirthValid(e: Eco, id: Id, d: Draws)
    requires Valid(e) && id in e.agents && e.agents[id].alive
    requires DrawsOk(e.agents[id].species, d) && IsShuffle(d.freeOrder)
    ensures Placed(e, id)
    ensures var r, free := GiveBirth(e, id, d), BirthCells(e, id, d);
      && Valid(r.eco)
      && (forall m :: m in e.field.cells ==> m in r.eco.field.cells && r.eco.field.cells[m] == e.field.cells[m])
      && (forall i :: |r.born| <= i < |free| ==> free[i] !in r.eco.field.cells)
      && (forall m :: m !in e.field.cells && m !in free ==> m !in r.eco.field.cells)
  {
    assert Placed(e, id);
    var a := e.agents[id];
    var free := BirthCells(e, id, d);
    FreeAdjacentComplete(e.field, a.loc.value, d.freeOrder);
    PlaceNewbornsRecords(e, a.species, free, d, LitterSize(e, id, d));
    PlaceNewbornsValid(e, a.species, free, d, LitterSize(e, id, d));
  }

  /**
   * `findFood` under the invariant: on success the food cell held a live organism this
   * species eats, that organism is now dead, its cell is empty, and the eater's food level
   * is the food value; on failure nothing changes, and (without Fire's extra draw) no
   * neighbour holds food.
   */
  lemma FindFoodFacts(e: Eco, id: Id, d: Draws)
    requires Valid(e) && id in e.agents && e.agents[id].alive && DrawsOk(e.agents[id].species, d)
    ensures var r, a := FindFood(e, id, d), e.agents[id];
      && Valid(r.eco)
      && (r.where.Some? ==>
            var l := r.where.value;
            && l in e.field.cells
            && var prey := e.field.cells[l];
               && prey != id && e.agents[prey].alive && Eats(a.species, e.agents[prey].species)
               && r.eco.agents == e.agents[prey := e.agents[prey].(alive := false, loc := None)][id := a.(food := FoodValue)]
               && l !in r.eco.field.cells
               && (forall m :: m != l ==> (m in r.eco.field.cells <==> m in e.field.cells)))
      && (r.where.None? && IsShuffle(d.foodOrder) && !GatedByDraw(a.species) ==>
            forall m :: InBounds(e.field, m) && Adjacent(a.loc.value, m) && m in e.field.cells ==>
              !Eats(a.species, e.agents[e.field.cells[m]].species))
  {
    var a := e.agents[id];
    assert Placed(e, id);
    var adj := FoodCells(e, id, d);
    var r := FindFood(e, id, d);
    match FirstPrey(e, a.species, adj, d.fireRolls, 0)
    case None =>
      if IsShuffle(d.foodOrder) && !GatedByDraw(a.species) {
        AdjacentComplete(e.field, a.loc.value, d.foodOrder);
        forall m | InBounds(e.field, m) && Adjacent(a.loc.value, m) && m in e.field.cells
          ensures !Eats(a.species, e.agents[e.field.cells[m]].species)
        {
          assert m in adj;
          var j :| 0 <= j < |adj| && adj[j] == m;
          assert !IsPrey(e, a.species, adj, d.fireRolls, j);
          assert Holds(e, m);
        }
      }
    case Some(k) =>
      assert adj[k] in adj;
      var prey := e.field.cells[adj[k]];
      SetDeadValid(e, prey);
      var e1 := SetDead(e, prey);
      assert Holds(e, adj[k]);
      RetouchValid(e1, id, e1.agents[id].(food := FoodValue));
  }

  /** Moving to the food cell or a free neighbour keeps the invariant; only crowding kills. */
  lemma MoveFacts(e: Eco, id: Id, d: Draws, food: Option<Loc>)
    requires Valid(e) && id in e.agents && e.agents[id].alive && Offsets8(d.moveOrder)
    requires food.Some? ==> InBounds(e.field, food.value) && food.value !in e.field.cells
    ensures var r, a := Move(e, id, d, food), e.agents[id];
      && Valid(r)
      && (forall x :: x in e.agents && x != id ==> r.agents[x] == e.agents[x])
      && r.agents[id].species == a.species && r.agents[id].age == a.age && r.agents[id].food == a.food
      && (food.Some? ==> r.agents[id].alive && r.agents[id].loc == food)
      && (r.agents[id].alive ==>
            && r.agents[id].loc.Some? && r.agents[id].loc.value in r.field.cells
            && (food.None? ==> Adjacent(a.loc.value, r.agents[id].loc.value) && r.agents[id].loc.value !in e.field.cells))
      && (!r.agents[id].alive ==>
            && food.None? && FreeAdjacentLocation(e.field, a.loc.value, d.moveOrder).None?
            && r.agents[id].loc.None?)
  {
    assert Placed(e, id);
    var a := e.agents[id];
    var target := if food.Some? then food else FreeAdjacentLocation(e.field, a.loc.value, d.moveOrder);
    if target.Some? {
      SetLocationValid(e, id, target.value);
    } else {
      SetDeadValid(e, id);
    }
  }

  /** Under the invariant no two live organisms share a cell. */
  lemma OneOrganismPerCell(e: Eco, x: Id, y: Id)
    requires Valid(e) && x in e.agents && y in e.agents && x != y && e.agents[x].alive && e.agents[y].alive
    ensures e.agents[x].loc != e.agents[y].loc
  {
    assert Placed(e, x) && Placed(e, y);
  }
}
