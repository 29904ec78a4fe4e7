/**
 * The simulator as an object: the grid, the organisms' records, the four lists and the
 * step counter are fields that its methods update in place. Each method is proved to
 * leave exactly the state the functional model describes.
 */
module Machine {
  import opened Wrappers
  import opened Field
  import opened Species
  import opened Organism
  import opened Steps
  import opened Stats
  import opened Protocol
  import opened Setup

  class Simulator {
    var field: Grid
    var agents: map<Id, Agent>
    var nextId: nat
    var grass: seq<Id>
    var deer: seq<Id>
    var trees: seq<Id>
    var fires: seq<Id>
    var step: nat

    /**
     * `Simulator(depth, width)`: any non-positive dimension is replaced by the default
     * 12 x 12; the lists and the field start empty and `reset` populates them.
     */
    constructor (depth: int, width: int, plan: Plan)
      requires PlanOk(plan)
      ensures State() == NewWorld(depth, width, plan)
    {
      var dims := Dimensions(depth, width);
      field := Grid(dims.0, dims.1, map[]);
      agents := map[];
      nextId := 0;
      grass, deer, trees, fires := [], [], [], [];
      step := 0;
      new;
      Reset(plan);
    }

    /** The grid and the organisms. */
    function Now(): Eco
      reads this
    {
      Eco(field, agents, nextId)
    }

    /** The whole simulator state. */
    function State(): World
      reads this
    {
      World(Now(), Lists(grass, deer, trees, fires), step)
    }

    /** `setDead` of organism `id`. */
    method SetDead(id: Id)
      requires id in agents
      modifies this
      ensures Now() == Organism.SetDead(old(Now()), id)
      ensures grass == old(grass) && deer == old(deer) && trees == old(trees) && fires == old(fires) && step == old(step)
    {
      var a := agents[id];
      if a.loc.Some? {
        field := Clear(field, a.loc.value);
      }
      agents := agents[id := a.(alive := false, loc := None)];
    }

    /** `setLocation` of organism `id`. */
    method SetLocation(id: Id, l: Loc)
      requires id in agents && InBounds(field, l)
      modifies this
      ensures Now() == Organism.SetLocation(old(Now()), id, l)
      ensures grass == old(grass) && deer == old(deer) && trees == old(trees) && fires == old(fires) && step == old(step)
    {
      var a := agents[id];
      if a.loc.Some? {
        field := Clear(field, a.loc.value);
      }
      agents := agents[id := a.(loc := Some(l))];
      field := Place(field, id, l);
    }

    /** `incrementAge` of organism `id`. */
    method IncrementAge(id: Id)
      requires id in agents
      modifies this
      ensures Now() == Organism.IncrementAge(old(Now()), id)
      ensures grass == old(grass) && deer == old(deer) && trees == old(trees) && fires == old(fires) && step == old(step)
    {
      var a := agents[id];
      agents := agents[id := a.(age := a.age + 1)];
      if a.age + 1 > MaxAge(a.species) {
        SetDead(id);
      }
    }

    /** `incrementHunger` of organism `id`. */
    method IncrementHunger(id: Id)
      requires id in agents
      modifies this
      ensures Now() == Organism.IncrementHunger(old(Now()), id)
      ensures grass == old(grass) && deer == old(deer) && trees == old(trees) && fires == old(fires) && step == old(step)
    {
      var a := agents[id];
      agents := agents[id := a.(food := a.food - 1)];
      if a.food - 1 <= 0 {
        SetDead(id);
      }
    }

    /**
     * The loop of `giveBirth`: while `b < births && free.size() > 0`, the head of the free
     * list is removed and a newborn of species `s` is created there.
     */
    method PlaceLitter(s: Species, free0: seq<Loc>, births: nat, d: Draws) returns (born: seq<Id>)
      requires AllInBounds(field, free0) && DrawsOk(s, d) && births <= MaxLitter(s)
      modifies this
      ensures Outcome(Now(), born) == PlaceNewborns(old(Now()), s, free0, d, Min(births, |free0|))
      ensures grass == old(grass) && deer == old(deer) && trees == old(trees) && fires == old(fires) && step == old(step)
    {
      ghost var e := Now();
      var free := free0;
      var b := 0;
      born := [];
      while b < births && |free| > 0
        invariant b <= births && b <= |free0| && free == free0[b..]
        invariant Outcome(Now(), born) == PlaceNewborns(e, s, free0, d, b)
        invariant grass == old(grass) && deer == old(deer) && trees == old(trees) && fires == old(fires) && step == old(step)
        decreases births - b
      {
        var l := free[0];
        assert l == free0[b] && l in free0;
        var young := Newborn(s, d, b, l);
        field := Place(field, nextId, l);
        agents := agents[nextId := young];
        born := born + [nextId];
        nextId := nextId + 1;
        free := free[1..];
        b := b + 1;
      }
    }

    /** `giveBirth` of organism `id`: `breed()` births into the shuffled free neighbours. */
    method GiveBirth(id: Id, d: Draws) returns (born: seq<Id>)
      requires id in agents && id < nextId && agents[id].loc.Some? && DrawsOk(agents[id].species, d)
      modifies this
      ensures Outcome(Now(), born) == Organism.GiveBirth(old(Now()), id, d)
      ensures grass == old(grass) && deer == old(deer) && trees == old(trees) && fires == old(fires) && step == old(step)
    {
      var a := agents[id];
      var free := FreeAdjacentLocations(field, a.loc.value, d.freeOrder);
      assert free == BirthCells(Now(), id, d);
      var births := Breed(a.species, a.age, d.breedRoll, d.litterRoll);
      born := PlaceLitter(a.species, free, births, d);
    }

    /** `findFood` of organism `id`: the iterator loop over the shuffled neighbours. */
    method FindFood(id: Id, d: Draws) returns (where: Option<Loc>)
      requires id in agents && agents[id].loc.Some? && DrawsOk(agents[id].species, d)
      modifies this
      ensures FoodResult(Now(), where) == Organism.FindFood(old(Now()), id, d)
      ensures grass == old(grass) && deer == old(deer) && trees == old(trees) && fires == old(fires) && step == old(step)
    {
      ghost var e := Now();
      var s := agents[id].species;
      var adjacent := AdjacentLocations(field, agents[id].loc.value, d.foodOrder);
      assert adjacent == FoodCells(e, id, d);
      var i := 0;
      while i < |adjacent|
        invariant 0 <= i <= |adjacent| && Now() == e
        invariant FirstPrey(e, s, adjacent, d.fireRolls, 0) == FirstPrey(e, s, adjacent, d.fireRolls, i)
      {
        var l := adjacent[i];
        if l in field.cells && field.cells[l] in agents {
          var prey := field.cells[l];
          var p := agents[prey];
          if p.alive && Eats(s, p.species) && (!GatedByDraw(s) || (i < |d.fireRolls| && d.fireRolls[i])) {
            assert IsPrey(e, s, adjacent, d.fireRolls, i);
            SetDead(prey);
            agents := agents[id := agents[id].(food := FoodValue)];
            return Some(l);
          }
        }
        assert !IsPrey(e, s, adjacent, d.fireRolls, i);
        i := i + 1;
      }
      return None;
    }
 
    /**
     * One update of organism `id` (`run`, `hunt`, `spread`): age, hunger, and, while alive,
     * births, foraging and the move.
     */
    method Act(id: Id, d: Draws) returns (born: seq<Id>)
      requires id in agents && id < nextId && (agents[id].alive ==> agents[id].loc.Some?)
      requires DrawsOk(agents[id].species, d)
      modifies this
      ensures Outcome(Now(), born) == Organism.Act(old(Now()), id, d)
      ensures grass == old(grass) && deer == old(deer) && trees == old(trees) && fires == old(fires) && step == old(step)
    {
      ghost var e := Now();
      var s := agents[id].species;
      IncrementAge(id);
      if HasHunger(s) {
        IncrementHunger(id);
      }
      assert Now() == AgeAndHunger(e, id);
      if !agents[id].alive {
        return [];
      }
      born := GiveBirth(id, d);
      var where := None;
      if s != Grass {
        where := FindFood(id, d);
      }
      var target := if where.Some? then where else FreeAdjacentLocation(field, agents[id].loc.value, d.moveOrder);
      if target.Some? {
        SetLocation(id, target.value);
      } else {
        SetDead(id);
      }
    }

    /** The list of species `s` becomes `ids`. */
    method SetList(s: Species, ids: seq<Id>)
      modifies this
      ensures State() == old(State()).(lists := With(old(State()).lists, s, ids))
    {
      match s
      case Grass => grass := ids;
      case Deer => deer := ids;
      case Tree => trees := ids;
      case Fire => fires := ids;
    }

    /**
     * The body of one of the loops of `simulateOneStep`: organism `id` acts, its newborns are
     * collected, and it stays in the list only if it is still alive.
     */
    method Turn(id: Id, d: Draws, kept: seq<Id>, newborn: seq<Id>) returns (kept': seq<Id>, newborn': seq<Id>)
      modifies this
      ensures PassResult(Now(), kept', newborn') == Next(PassResult(old(Now()), kept, newborn), id, d)
      ensures grass == old(grass) && deer == old(deer) && trees == old(trees) && fires == old(fires) && step == old(step)
    {
      kept', newborn' := kept, newborn;
      if Ready(Now(), id, d) {
        var b := Act(id, d);
        newborn' := newborn + b;
        if agents[id].alive {
          kept' := kept + [id];
        }
      }
    }

    /**
     * One of the four loops of `simulateOneStep`: each organism of the list of species `s`
     * acts, and is removed from the list when it is no longer alive; then the newborns
     * collected meanwhile are appended.
     */
    method RunPass(s: Species, src: Source)
      modifies this
      ensures State() == Phase(old(State()), s, src)
    {
      ghost var w := State();
      var ids := ListOf(Lists(grass, deer, trees, fires), s);
      var kept: seq<Id> := [];
      var newborn: seq<Id> := [];
      var i := 0;
      while i < |ids|
        invariant 0 <= i <= |ids|
        invariant PassResult(Now(), kept, newborn) == Pass(w.eco, s, ids[..i], src, step)
        invariant Lists(grass, deer, trees, fires) == w.lists && step == w.step
      {
        assert ids[..i + 1][..i] == ids[..i];
        kept, newborn := Turn(ids[i], src(step, s, i), kept, newborn);
        i := i + 1;
      }
      assert ids[..|ids|] == ids;
      SetList(s, kept + newborn);
    }

    /** `simulateOneStep`: the counter, then the grass, deer, tree and fire loops. */
    method SimulateOneStep(src: Source)
      modifies this
      ensures State() == Step(old(State()), src)
    {
      StepUnfold(State(), src);
      step := step + 1;
      RunPass(Grass, src);
      RunPass(Deer, src);
      RunPass(Tree, src);
      RunPass(Fire, src);
    }

    /**
     * `simulate(numSteps)`: before each of at most `numSteps` steps the field's statistics
     * are recounted, and the loop stops once fewer than two species are present. A count
     * below one runs no step.
     */
    method Simulate(numSteps: int, src: Source)
      modifies this
      ensures State() == Run(old(State()), if numSteps < 0 then 0 else numSteps, src)
      ensures numSteps <= 0 ==> State() == old(State())
    {
      ghost var total: nat := if numSteps < 0 then 0 else numSteps;
      var stats := new FieldStats();
      var n := 1;
      while n <= numSteps
        invariant 1 <= n <= total + 1
        invariant Run(State(), total - (n - 1), src) == Run(old(State()), total, src)
        decreases numSteps - n
      {
        var viable := ViableAfterReset(stats, Now());
        if !viable {
          break;
        }
        ghost var before := State();
        ghost var left := total - (n - 1);
        SimulateOneStep(src);
        RunUnroll(before, left, src);
        assert Run(State(), left - 1, src) == Run(old(State()), total, src);
        n := n + 1;
      }
      assert numSteps <= 0 ==> State() == old(State()) && Run(State(), 0, src) == State();
    }

    /** `runLongSimulation`. */
    method RunLongSimulation(src: Source)
      modifies this
      ensures State() == Run(old(State()), LongRun, src)
    {
      Simulate(LongRun, src);
    }
 
    /** A new organism of species `s` with a random age is created on cell `l` and listed. */
    method Spawn(s: Species, l: Loc, c: CellDraw)
      requires InBounds(field, l) && CellDrawOk(c) && Choose(c) == Some(s)
      modifies this
      ensures State() == PopCell(old(State()), l, c)
    {
      var young := Create(s, true, c.ageRoll, c.foodRoll, l);
      var id := nextId;
      field := Place(field, id, l);
      agents := agents[id := young];
      nextId := id + 1;
      SetList(s, ListOf(Lists(grass, deer, trees, fires), s) + [id]);
    }

    /** One cell of `populate`: the creation draws are tried for deer, grass, tree and fire, in that order. */
    method PopulateCell(l: Loc, c: CellDraw)
      requires InBounds(field, l) && CellDrawOk(c)
      modifies this
      ensures State() == PopCell(old(State()), l, c)
    {
      if c.deerRoll {
        Spawn(Deer, l, c);
      } else if c.grassRoll {
        Spawn(Grass, l, c);
      } else if c.treeRoll {
        Spawn(Tree, l, c);
      } else if c.fireRoll {
        Spawn(Fire, l, c);
      }
    }

    /** The inner loop of `populate`: the cells of one row, left to right. */
    method PopulateRow(plan: Plan, row: int)
      requires PlanOk(plan) && 0 <= row < field.depth
      modifies this
      ensures State() == PopRow(old(State()), plan, row, Cols(old(field)))
    {
      ghost var base := State();
      var col := 0;
      while col < field.width
        invariant 0 <= col <= Cols(field)
        invariant field.depth == base.eco.field.depth && field.width == base.eco.field.width
        invariant State() == PopRow(base, plan, row, col)
      {
        assert CellDrawOk(plan(row, col));
        PopulateCell(Loc(row, col), plan(row, col));
        col := col + 1;
      }
    }

    /** `populate`: the field is cleared, then filled row by row, column by column. */
    method Populate(plan: Plan)
      requires PlanOk(plan)
      modifies this
      ensures State() == Setup.Populate(old(State()), plan)
    {
      ghost var start := World(Eco(ClearAll(field), map[], nextId), Lists(grass, deer, trees, fires), step);
      field := ClearAll(field);
      agents := map[];
      var row := 0;
      while row < field.depth
        invariant 0 <= row <= Rows(field)
        invariant field.depth == start.eco.field.depth && field.width == start.eco.field.width
        invariant State() == PopRows(start, plan, row)
      {
        PopulateRow(plan, row);
        row := row + 1;
      }
    }

    /** `reset`: step zero, the four lists cleared, and `populate`. */
    method Reset(plan: Plan)
      requires PlanOk(plan)
      modifies this
      ensures State() == Setup.Reset(old(State()), plan)
    {
      step := 0;
      grass, deer, trees, fires := [], [], [], [];
      Populate(plan);
    }
  }
}
