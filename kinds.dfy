/**
 * The four update methods one species at a time: what `Act` means for Grass (`run`),
 * Deer and Tree (`hunt`) and Fire (`spread`), with each species' constants filled in.
 */
module Kinds {
  import opened Wrappers
  import opened Field
  import opened Species
  import opened Organism
  import opened Life

  /**
   * `breed` per species: nothing below the breeding age (Grass 5, Deer 15, Fire 2, Tree 0);
   * above it Grass has 0 or 1..4 young and Deer 0 or 1..2, depending on the draw, while
   * Tree and Fire have exactly one.
   */
  lemma BreedBySpecies(s: Species, age: int, breedRoll: bool, litterRoll: nat)
    requires litterRoll < MaxLitter(s)
    ensures var b := Breed(s, age, breedRoll, litterRoll);
      && (s == Grass ==> (age < 5 ==> b == 0) && (age >= 5 ==> (b == 0 <==> !breedRoll) && b <= 4))
      && (s == Deer ==> (age < 15 ==> b == 0) && (age >= 15 ==> (b == 0 <==> !breedRoll) && b <= 2))
      && (s == Tree ==> (b == 1 <==> age >= 0) && (age < 0 ==> b == 0))
      && (s == Fire ==> (age < 2 ==> b == 0) && (age >= 2 ==> b == 1))
  {
  }

  /**
   * Newborns and the actor never share a cell: after an update every newborn and the actor,
   * if it is still alive, are on pairwise different cells. For Grass this is the promise
   * that the cell it moves to is never one its young were just born on.
   */
  lemma MoveAvoidsNewborns(e: Eco, id: Id, d: Draws)
    requires Valid(e) && id in e.agents && DrawsOk(e.agents[id].species, d) && IsShuffle(d.freeOrder)
    ensures Placed(e, id)
    ensures var r := Act(e, id, d);
      forall i :: 0 <= i < |r.born| ==>
        && r.born[i] in r.eco.agents && r.born[i] != id
        && (r.eco.agents[id].alive ==> r.eco.agents[r.born[i]].loc != r.eco.agents[id].loc)
  {
    assert Placed(e, id);
    var r := Act(e, id, d);
    ActValid(e, id, d);
    ActKeys(e, id, d);
    ActNewborns(e, id, d);
    forall i | 0 <= i < |r.born|
      ensures r.born[i] in r.eco.agents && r.born[i] != id
      ensures r.eco.agents[id].alive ==> r.eco.agents[r.born[i]].loc != r.eco.agents[id].loc
    {
      assert r.born[i] == e.nextId + i;
      if r.eco.agents[id].alive {
        OneOrganismPerCell(r.eco, r.born[i], id);
      }
    }
  }

  /**
   * `Grass.run`: grass has no hunger, so its food level never changes; a live grass dies in
   * its own update only of old age (past 40) or when every neighbouring cell is taken.
   */
  lemma GrassRun(e: Eco, id: Id, d: Draws)
    requires Valid(e) && id in e.agents && e.agents[id].species == Grass
    requires DrawsOk(Grass, d) && Shuffled(d)
    ensures Placed(e, id)
    ensures var a, r := e.agents[id], Act(e, id, d).eco;
      && r.agents[id].food == a.food && r.agents[id].age == a.age + 1
      && (a.alive && !r.agents[id].alive ==>
            || a.age + 1 > 40
            || forall m :: InBounds(e.field, m) && Adjacent(a.loc.value, m) ==> m in r.field.cells)
  {
    assert Placed(e, id);
    ActSelf(e, id, d);
    ActCrowded(e, id, d);
  }

  /**
   * `Tree.hunt`: a tree that survives aging and hunger has exactly one young, of age 0, when
   * it has a free neighbour and none otherwise; the young is on a neighbouring cell that was
   * empty.
   */
  lemma TreeHunt(e: Eco, id: Id, d: Draws)
    requires Valid(e) && id in e.agents && e.agents[id].species == Tree
    requires DrawsOk(Tree, d) && IsShuffle(d.freeOrder)
    ensures Placed(e, id)
    ensures var a, r := e.agents[id], Act(e, id, d);
      AgeAndHunger(e, id).agents[id].alive ==>
        && (|r.born| == 1 <==> BirthCells(e, id, d) != [])
        && |r.born| <= 1
        && (|r.born| == 1 ==>
              var y := r.eco.agents[r.born[0]];
              && y.species == Tree && y.age == 0 && y.alive && y.loc.Some?
              && Adjacent(a.loc.value, y.loc.value) && y.loc.value !in e.field.cells)
  {
    assert Placed(e, id);
    var a := e.agents[id];
    ActNewborns(e, id, d);
    if AgeAndHunger(e, id).agents[id].alive {
      GiveBirthCells(e, id, d);
      BreedBySpecies(Tree, a.age + 1, d.breedRoll, d.litterRoll);
    }
  }

  /**
   * `Fire.spread`: at most one young, none below age 2 (after aging), exactly one from then
   * on when a free neighbour exists; the young gets a random age below 4, not age 0.
   */
  lemma FireLitter(e: Eco, id: Id, d: Draws)
    requires Valid(e) && id in e.agents && e.agents[id].species == Fire && DrawsOk(Fire, d)
    ensures Placed(e, id)
    ensures var a, r := e.agents[id], Act(e, id, d);
      && |r.born| <= 1
      && (a.age + 1 < 2 ==> r.born == [])
      && (AgeAndHunger(e, id).agents[id].alive && a.age + 1 >= 2 ==> (|r.born| == 1 <==> BirthCells(e, id, d) != []))
      && (|r.born| == 1 ==>
            var y := r.eco.agents[r.born[0]];
            y.species == Fire && 0 <= y.age < 4 && 0 <= y.food < FoodValue && y.alive)
  {
    assert Placed(e, id);
    var a := e.agents[id];
    ActNewborns(e, id, d);
    BreedBySpecies(Fire, a.age + 1, d.breedRoll, d.litterRoll);
  }

  /** Fire's gate: when none of its consumption draws succeeds, `findFood` eats nothing and changes nothing. */
  lemma FireGate(e: Eco, id: Id, d: Draws)
    requires id in e.agents && e.agents[id].species == Fire && e.agents[id].loc.Some? && DrawsOk(Fire, d)
    requires forall k :: 0 <= k < |d.fireRolls| ==> !d.fireRolls[k]
    ensures var r := FindFood(e, id, d); r.where.None? && r.eco == e
  {
    var adj := FoodCells(e, id, d);
    assert FirstPrey(e, Fire, adj, d.fireRolls, 0).None?;
  }

  /**
   * So a whole `spread` whose consumption draws all fail leaves every organism other than
   * the fire itself exactly as it was.
   */
  lemma FireGateAct(e: Eco, id: Id, d: Draws)
    requires Valid(e) && id in e.agents && e.agents[id].species == Fire && DrawsOk(Fire, d)
    requires forall k :: 0 <= k < |d.fireRolls| ==> !d.fireRolls[k]
    ensures Placed(e, id)
    ensures var r := Act(e, id, d);
      forall x :: x in e.agents && x != id ==> r.eco.agents[x] == e.agents[x]
  {
    assert Placed(e, id);
    ActFrame(e, id, d);
    var e2 := AgeAndHunger(e, id);
    if e2.agents[id].alive {
      var g := GiveBirth(e2, id, d);
      FireGate(g.eco, id, d);
    }
  }
}
