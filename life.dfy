/**
 * What one update of one organism (`Act`) does as a whole: it keeps the grid and the
 * organism table linked, it touches no organism but itself, its newborns and at most one
 * prey, and it ages, starves, breeds, feeds and moves the organism as the four species'
 * update methods do.
 */
module Life {
  import opened Wrappers
  import opened Field
  import opened Species
  import opened Organism

  lemma AgeAndHungerValid(e: Eco, id: Id)
    requires Valid(e) && id in e.agents
    ensures Valid(AgeAndHunger(e, id))
  {
    IncrementAgeValid(e, id);
    if HasHunger(e.agents[id].species) {
      IncrementHungerValid(IncrementAge(e, id), id);
    }
  }

  /** One update keeps the grid and the organism table linked. */
  lemma ActValid(e: Eco, id: Id, d: Draws)
    requires Valid(e) && id in e.agents && DrawsOk(e.agents[id].species, d) && IsShuffle(d.freeOrder)
    ensures Placed(e, id)
    ensures Valid(Act(e, id, d).eco)
  {
    assert Placed(e, id);
    var s := e.agents[id].species;
    AgeAndHungerValid(e, id);
    var e2 := AgeAndHunger(e, id);
    if e2.agents[id].alive {
      GiveBirthValid(e2, id, d);
      var g := GiveBirth(e2, id, d);
      if s != Grass {
        FindFoodFacts(g.eco, id, d);
        var f := FindFood(g.eco, id, d);
        MoveFacts(f.eco, id, d, f.where);
      } else {
        MoveFacts(g.eco, id, d, None);
      }
    }
  }

  /** The organisms an update adds: the next ids, one per newborn. */
  lemma ActKeys(e: Eco, id: Id, d: Draws)
    requires id in e.agents && id < e.nextId && (e.agents[id].alive ==> e.agents[id].loc.Some?)
    requires DrawsOk(e.agents[id].species, d)
    ensures var r := Act(e, id, d);
      && r.eco.nextId == e.nextId + |r.born|
      && (forall i :: 0 <= i < |r.born| ==> r.born[i] == e.nextId + i)
      && (forall x :: x in r.eco.agents <==> x in e.agents || e.nextId <= x < r.eco.nextId)
  {
    var e2 := AgeAndHunger(e, id);
    if e2.agents[id].alive {
      GiveBirthRecords(e2, id, d);
    }
  }

  /**
   * An update changes no organism except the actor, its newborns and at most one prey:
   * a live organism of a species the actor eats, which is now dead and off the grid.
   */
  lemma ActFrame(e: Eco, id: Id, d: Draws)
    requires Valid(e) && id in e.agents && DrawsOk(e.agents[id].species, d)
    ensures Placed(e, id)
    ensures var r, s := Act(e, id, d), e.agents[id].species;
      && (forall x :: x in e.agents && x != id && r.eco.agents[x] != e.agents[x] ==>
            && e.agents[x].alive && Eats(s, e.agents[x].species)
            && r.eco.agents[x] == e.agents[x].(alive := false, loc := None))
      && (forall x, y ::
            (&& x in e.agents && y in e.agents && x != id && y != id
             && r.eco.agents[x] != e.agents[x] && r.eco.agents[y] != e.agents[y])
            ==> x == y)
  {
    assert Placed(e, id);
    var s := e.agents[id].species;
    var r := Act(e, id, d);
    var e2 := AgeAndHunger(e, id);
    if e2.agents[id].alive {
      GiveBirthRecords(e2, id, d);
      var g := GiveBirth(e2, id, d);
      var f := if s != Grass then FindFood(g.eco, id, d) else FoodResult(g.eco, None);
      assert r.eco == Move(f.eco, id, d, f.where);
      if s != Grass {
        FindFoodFrame(g.eco, id, d);
      }
      forall x | x in e.agents && x != id
        ensures r.eco.agents[x] == f.eco.agents[x] && g.eco.agents[x] == e.agents[x]
      {
        assert x < e.nextId;
      }
    }
  }

  /**
   * A survivor of aging and hunger has `min(breed(), free neighbours)` young, the i-th on
   * the i-th shuffled free neighbour of its cell, with the age and food level the
   * constructor gives them; an organism that died of age or hunger has none. The young are
   * not eaten in the same update (no species eats its own kind).
   */
  lemma ActNewborns(e: Eco, id: Id, d: Draws)
    requires id in e.agents && id < e.nextId && (e.agents[id].alive ==> e.agents[id].loc.Some?)
    requires DrawsOk(e.agents[id].species, d)
    ensures var r, a, b := Act(e, id, d), e.agents[id], AgeAndHunger(e, id).agents[id];
      && (!b.alive ==> r.born == [])
      && (b.alive ==>
            var free := BirthCells(e, id, d);
            && |r.born| == Min(Breed(a.species, a.age + 1, d.breedRoll, d.litterRoll), |free|)
            && forall i :: 0 <= i < |r.born| ==>
                 r.born[i] in r.eco.agents && r.eco.agents[r.born[i]] == Newborn(a.species, d, i, free[i]))
  {
    var s := e.agents[id].species;
    var r := Act(e, id, d);
    var e2 := AgeAndHunger(e, id);
    if e2.agents[id].alive {
      var g := GiveBirth(e2, id, d);
      assert BirthCells(e2, id, d) == BirthCells(e, id, d);
      var f := if s != Grass then FindFood(g.eco, id, d) else FoodResult(g.eco, None);
      assert r.eco == Move(f.eco, id, d, f.where);
      assert r.born == g.born;
      forall i | 0 <= i < |r.born|
        ensures r.born[i] in r.eco.agents && r.eco.agents[r.born[i]] == Newborn(s, d, i, BirthCells(e, id, d)[i])
      {
        NewbornSurvives(e2, id, d, i);
      }
    }
  }

  /** `findFood` never kills an organism of the eater's own species. */
  lemma FindFoodSparesKin(e: Eco, id: Id, d: Draws, x: Id)
    requires id in e.agents && e.agents[id].loc.Some? && DrawsOk(e.agents[id].species, d)
    requires x in e.agents && x != id && e.agents[x].species == e.agents[id].species
    ensures FindFood(e, id, d).eco.agents[x] == e.agents[x]
  {
    FindFoodFrame(e, id, d);
    NoCannibals(e.agents[id].species);
  }

  /** The i-th newborn of `giveBirth`, one at a time. */
  lemma GiveBirthNewborn(e: Eco, id: Id, d: Draws, i: nat)
    requires id in e.agents && id < e.nextId && e.agents[id].loc.Some? && DrawsOk(e.agents[id].species, d)
    requires i < |GiveBirth(e, id, d).born|
    ensures var r := GiveBirth(e, id, d);
      && i < |BirthCells(e, id, d)| && i < MaxLitter(e.agents[id].species)
      && r.born[i] == e.nextId + i && r.born[i] in r.eco.agents && r.born[i] != id
      && r.eco.agents[r.born[i]] == Newborn(e.agents[id].species, d, i, BirthCells(e, id, d)[i])
      && r.eco.agents[r.born[i]].species == r.eco.agents[id].species
  {
    GiveBirthRecords(e, id, d);
  }

  /** The i-th newborn is neither eaten nor moved in the rest of its parent's update. */
  lemma NewbornSurvives(e: Eco, id: Id, d: Draws, i: nat)
    requires id in e.agents && id < e.nextId && e.agents[id].loc.Some? && DrawsOk(e.agents[id].species, d)
    requires i < |GiveBirth(e, id, d).born|
    ensures var s, g := e.agents[id].species, GiveBirth(e, id, d);
      var f := if s != Grass then FindFood(g.eco, id, d) else FoodResult(g.eco, None);
      var x, r := g.born[i], Move(f.eco, id, d, f.where);
      && i < |BirthCells(e, id, d)| && i < MaxLitter(s)
      && x in r.agents && r.agents[x] == Newborn(s, d, i, BirthCells(e, id, d)[i])
  {
    GiveBirthNewborn(e, id, d, i);
    var s, g := e.agents[id].species, GiveBirth(e, id, d);
    if s != Grass {
      FindFoodSparesKin(g.eco, id, d, g.born[i]);
    }
  }

  /**
   * What an update does to the organism itself: it is one step older; its food level drops
   * by one for the species that have hunger, or is the food value when it ate; it is alive
   * afterwards only if it was alive, not past its maximum age and not starved, and then it
   * is on a cell next to where it was; otherwise it has no location.
   */
  lemma ActSelf(e: Eco, id: Id, d: Draws)
    requires id in e.agents && id < e.nextId && Placed(e, id) && DrawsOk(e.agents[id].species, d)
    ensures var a, b := e.agents[id], Act(e, id, d).eco.agents[id];
      && b.species == a.species && b.age == a.age + 1
      && (b.food == (if HasHunger(a.species) then a.food - 1 else a.food)
          || (a.species != Grass && b.alive && b.food == FoodValue))
      && (b.alive ==> a.alive && a.age + 1 <= MaxAge(a.species) && (HasHunger(a.species) ==> a.food - 1 > 0))
      && (b.alive ==> b.loc.Some? && Adjacent(a.loc.value, b.loc.value))
      && (!b.alive ==> b.loc.None?)
  {
    var s := e.agents[id].species;
    var e2 := AgeAndHunger(e, id);
    if e2.agents[id].alive {
      var g := GiveBirth(e2, id, d);
      var f := if s != Grass then FindFood(g.eco, id, d) else FoodResult(g.eco, None);
      var target := if f.where.Some? then f.where else FreeAdjacentLocation(f.eco.field, e.agents[id].loc.value, d.moveOrder);
      assert f.eco.agents[id].loc == e.agents[id].loc;
    }
  }

  /**
   * Death by overcrowding: an organism that survived aging and hunger but is dead after its
   * update had every neighbouring cell in the grid occupied.
   */
  lemma ActCrowded(e: Eco, id: Id, d: Draws)
    requires Valid(e) && id in e.agents && DrawsOk(e.agents[id].species, d) && Shuffled(d)
    ensures Placed(e, id)
    ensures var a, r := e.agents[id], Act(e, id, d).eco;
      AgeAndHunger(e, id).agents[id].alive && !r.agents[id].alive ==>
        forall m :: InBounds(e.field, m) && Adjacent(a.loc.value, m) ==> m in r.field.cells
  {
    assert Placed(e, id);
    var s := e.agents[id].species;
    var e2 := AgeAndHunger(e, id);
    if e2.agents[id].alive {
      AgeAndHungerValid(e, id);
      GiveBirthValid(e2, id, d);
      var g := GiveBirth(e2, id, d);
      var f := if s != Grass then FindFood(g.eco, id, d) else FoodResult(g.eco, None);
      if s != Grass {
        FindFoodFacts(g.eco, id, d);
      }
      MoveCrowded(f.eco, id, d, f.where);
    }
  }

  /** Moving fails only when every neighbouring cell is occupied, and the organism's own cell is then cleared. */
  lemma MoveCrowded(e: Eco, id: Id, d: Draws, food: Option<Loc>)
    requires Valid(e) && id in e.agents && e.agents[id].alive && Offsets8(d.moveOrder) && IsShuffle(d.moveOrder)
    requires food.Some? ==> InBounds(e.field, food.value)
    ensures Placed(e, id)
    ensures var r := Move(e, id, d, food);
      !r.agents[id].alive ==>
        && food.None?
        && forall m :: InBounds(e.field, m) && Adjacent(e.agents[id].loc.value, m) ==> m in r.field.cells
  {
    assert Placed(e, id);
    var l := e.agents[id].loc.value;
    var r := Move(e, id, d, food);
    if !r.agents[id].alive {
      NoFreeMeansCrowded(e.field, l, d.moveOrder);
      SetDeadValid(e, id);
      forall m | InBounds(e.field, m) && Adjacent(l, m)
        ensures m in r.field.cells
      {
        assert Holds(e, m);
      }
    }
  }

  /** Aging changes the grid only by clearing the organism's own cell when it dies. */
  lemma IncrementAgeCells(e: Eco, id: Id)
    requires Valid(e) && id in e.agents
    ensures var r := IncrementAge(e, id);
      forall m :: && (m in r.field.cells <==> m in e.field.cells && (r.agents[id].alive || e.field.cells[m] != id))
                  && (m in r.field.cells ==> r.field.cells[m] == e.field.cells[m])
  {
    var a := e.agents[id];
    assert Placed(e, id);
    RetouchValid(e, id, a.(age := a.age + 1));
    var e1 := e.(agents := e.agents[id := a.(age := a.age + 1)]);
    if a.age + 1 > MaxAge(a.species) {
      SetDeadValid(e1, id);
    }
  }

  /** Hunger changes the grid only by clearing the organism's own cell when it starves. */
  lemma IncrementHungerCells(e: Eco, id: Id)
    requires Valid(e) && id in e.agents
    ensures var r := IncrementHunger(e, id);
      forall m :: && (m in r.field.cells <==> m in e.field.cells && (r.agents[id].alive || e.field.cells[m] != id))
                  && (m in r.field.cells ==> r.field.cells[m] == e.field.cells[m])
  {
    var a := e.agents[id];
    assert Placed(e, id);
    RetouchValid(e, id, a.(food := a.food - 1));
    var e1 := e.(agents := e.agents[id := a.(food := a.food - 1)]);
    if a.food - 1 <= 0 {
      SetDeadValid(e1, id);
    }
  }

  /**
   * An organism dead after aging and hunger neither breeds, eats nor moves: its update has
   * no newborns, changes no other organism, and the grid only loses the organism's cell.
   */
  lemma ActDeadEarly(e: Eco, id: Id, d: Draws)
    requires Valid(e) && id in e.agents && DrawsOk(e.agents[id].species, d)
    ensures Placed(e, id)
    ensures var r := Act(e, id, d);
      !AgeAndHunger(e, id).agents[id].alive ==>
        && r.born == [] && r.eco.nextId == e.nextId && !r.eco.agents[id].alive
        && (forall x :: x in e.agents && x != id ==> r.eco.agents[x] == e.agents[x])
        && (forall m :: m in r.eco.field.cells <==> m in e.field.cells && e.field.cells[m] != id)
        && (forall m :: m in r.eco.field.cells ==> r.eco.field.cells[m] == e.field.cells[m])
  {
    assert Placed(e, id);
    IncrementAgeCells(e, id);
    IncrementAgeValid(e, id);
    if HasHunger(e.agents[id].species) {
      IncrementHungerCells(IncrementAge(e, id), id);
    }
  }
}
