/**
 * The simulator's step protocol (`simulateOneStep`): one pass per species over its list,
 * in the fixed order grass, deer, tree, fire. Each organism in the list acts once, in list
 * order; an organism dead after its own update is dropped from the list (the iterator's
 * `remove`). The source stages newborns and appends them only after all four passes; this
 * model appends each species' newborns at the end of that species' own pass
 * (`Protocol.Phase`). README.md explains why the two orders give the same lists.
 */
module Steps {
  import opened Wrappers
  import opened Field
  import opened Species
  import opened Organism
  import opened Life

  /** The draws of the organism at list position `i` of species `s`'s pass in step `k`. */
  type Source = (nat, Species, nat) -> Draws

  /** Every draw is in range and every adjacency order is a shuffle of the eight offsets. */
  ghost predicate SourceOk(src: Source) {
    forall k: nat, s: Species, i: nat :: DrawsOk(s, src(k, s, i)) && Shuffled(src(k, s, i))
  }

  /** What `Act` needs of the organism and its draws; always true under `Valid` (see `ReadyUnderValid`). */
  predicate Ready(e: Eco, id: Id, d: Draws) {
    && id in e.agents && id < e.nextId && (e.agents[id].alive ==> e.agents[id].loc.Some?)
    && DrawsOk(e.agents[id].species, d)
  }

  lemma ReadyUnderValid(e: Eco, id: Id, d: Draws)
    requires Valid(e) && id in e.agents && DrawsOk(e.agents[id].species, d)
    ensures Ready(e, id, d)
  {
    assert Placed(e, id);
  }

  /** The state after one pass, the organisms the iterator kept, and the staging list. */
  datatype PassResult = PassResult(eco: Eco, kept: seq<Id>, born: seq<Id>)

  /**
   * One turn of the iterator loop: the organism acts (its newborns join the staging list),
   * then stays in the list only if it is still alive.
   */
  function Next(p: PassResult, id: Id, d: Draws): (r: PassResult)
    ensures r.eco.field.depth == p.eco.field.depth && r.eco.field.width == p.eco.field.width
    ensures p.eco.agents.Keys <= r.eco.agents.Keys
  {
    if Ready(p.eco, id, d) then
      var o := Act(p.eco, id, d);
      PassResult(o.eco, p.kept + (if o.eco.agents[id].alive then [id] else []), p.born + o.born)
    else p
  }

  /** The iterator loop of one pass over `ids`, as far as its last element. */
  function Pass(e: Eco, s: Species, ids: seq<Id>, src: Source, k: nat): (r: PassResult)
    ensures r.eco.field.depth == e.field.depth && r.eco.field.width == e.field.width
    ensures e.agents.Keys <= r.eco.agents.Keys
    decreases |ids|
  {
    if |ids| == 0 then PassResult(e, [], [])
    else Next(Pass(e, s, ids[..|ids| - 1], src, k), ids[|ids| - 1], src(k, s, |ids| - 1))
  }

  /** The organisms of `ids` alive in `e`, in list order. */
  function Survivors(e: Eco, ids: seq<Id>): (r: seq<Id>)
    ensures forall x :: x in r <==> x in ids && x in e.agents && e.agents[x].alive
    ensures |r| <= |ids|
    decreases |ids|
  {
    if |ids| == 0 then []
    else
      var x := ids[|ids| - 1];
      Survivors(e, ids[..|ids| - 1]) + (if x in e.agents && e.agents[x].alive then [x] else [])
  }

  /** The position of the first occurrence of `x` in `ids`. */
  function IndexOf(ids: seq<Id>, x: Id): (i: nat)
    requires x in ids
    ensures i < |ids| && ids[i] == x && x !in ids[..i]
  {
    if ids[0] == x then 0 else assert ids[1..][..IndexOf(ids[1..], x)] == ids[1..1 + IndexOf(ids[1..], x)]; 1 + IndexOf(ids[1..], x)
  }

  /** In a list without repeats, an organism's only position is its `IndexOf`. */
  lemma IndexOfDistinct(ids: seq<Id>, i: nat)
    requires Distinct(ids) && i < |ids|
    ensures IndexOf(ids, ids[i]) == i
  {
  }

  /** Every element of `r` is in `ids`, and `r` lists them in the order they have in `ids`. */
  predicate InOrder(r: seq<Id>, ids: seq<Id>) {
    forall i, j :: 0 <= i < j < |r| ==> r[i] in ids && r[j] in ids && IndexOf(ids, r[i]) < IndexOf(ids, r[j])
  }

  /** The survivors keep the relative order they had in the list. */
  lemma {:induction false} SurvivorsInOrder(e: Eco, ids: seq<Id>)
    requires Distinct(ids)
    ensures InOrder(Survivors(e, ids), ids)
    decreases |ids|
  {
    if |ids| > 0 {
      var n := |ids| - 1;
      var pre := ids[..n];
      assert Distinct(pre);
      SurvivorsInOrder(e, pre);
      var r0 := Survivors(e, pre);
      var r := Survivors(e, ids);
      forall y | y in pre ensures IndexOf(ids, y) == IndexOf(pre, y) {
        var k := IndexOf(pre, y);
        assert ids[k] == y;
        IndexOfDistinct(ids, k);
      }
      var last := if ids[n] in e.agents && e.agents[ids[n]].alive then [ids[n]] else [];
      assert r == r0 + last;
      forall i, j | 0 <= i < j < |r| ensures r[i] in ids && r[j] in ids && IndexOf(ids, r[i]) < IndexOf(ids, r[j]) {
        assert r[i] == r0[i] && r0[i] in r0 && r0[i] in pre;
        if j < |r0| {
          assert r[j] == r0[j] && r0[j] in r0 && r0[j] in pre;
          assert IndexOf(pre, r0[i]) < IndexOf(pre, r0[j]);
          assert IndexOf(ids, r0[i]) == IndexOf(pre, r0[i]) && IndexOf(ids, r0[j]) == IndexOf(pre, r0[j]);
        } else {
          assert IndexOf(ids, r0[i]) == IndexOf(pre, r0[i]) < n;
          assert r[j] == ids[n];
          IndexOfDistinct(ids, n);
        }
      }
    }
  }

  lemma NextValid(p: PassResult, id: Id, d: Draws)
    requires Valid(p.eco) && IsShuffle(d.freeOrder)
    ensures Valid(Next(p, id, d).eco)
  {
    if Ready(p.eco, id, d) {
      ActValid(p.eco, id, d);
    }
  }

  lemma NextKeys(p: PassResult, id: Id, d: Draws)
    ensures var r := Next(p, id, d);
      && r.eco.nextId == p.eco.nextId + |r.born| - |p.born|
      && |r.born| >= |p.born| && r.born[..|p.born|] == p.born
      && (forall i :: |p.born| <= i < |r.born| ==> r.born[i] == p.eco.nextId + i - |p.born|)
      && (forall x :: x in r.eco.agents <==> x in p.eco.agents || p.eco.nextId <= x < r.eco.nextId)
  {
    if Ready(p.eco, id, d) {
      ActKeys(p.eco, id, d);
    }
  }

  /** One turn changes no species. */
  lemma NextSpecies(p: PassResult, id: Id, d: Draws)
    requires Valid(p.eco)
    ensures var r := Next(p, id, d);
      forall x :: x in p.eco.agents ==> r.eco.agents[x].species == p.eco.agents[x].species
  {
    if Ready(p.eco, id, d) {
      ActFrame(p.eco, id, d);
      ActSelf(p.eco, id, d);
    }
  }

  /**
   * One turn leaves every other organism alone unless the actor, of species `s`, eats it:
   * then it was alive, of a species `s` eats, and is now dead with no location.
   */
  lemma NextOther(p: PassResult, id: Id, d: Draws, s: Species)
    requires Valid(p.eco) && (id in p.eco.agents ==> p.eco.agents[id].species == s)
    ensures var r := Next(p, id, d);
      forall x :: x in p.eco.agents && x != id ==>
        || r.eco.agents[x] == p.eco.agents[x]
        || (p.eco.agents[x].alive && Eats(s, p.eco.agents[x].species)
            && r.eco.agents[x] == p.eco.agents[x].(alive := false, loc := None))
  {
    if Ready(p.eco, id, d) {
      ActFrame(p.eco, id, d);
    }
  }

  /** An organism born in this step: alive, of species `s`, and as old as its constructor made it. */
  predicate Infant(s: Species, a: Agent) {
    && a.species == s && a.alive
    && (if NewbornRandomAge(s) then 0 <= a.age < MaxAge(s) else a.age == 0)
  }

  /** The young of one turn are infants of the actor's species. */
  lemma NextNewborns(p: PassResult, id: Id, d: Draws, s: Species)
    requires id in p.eco.agents ==> p.eco.agents[id].species == s
    ensures var r := Next(p, id, d);
      forall x :: p.eco.nextId <= x < r.eco.nextId ==> x in r.eco.agents && Infant(s, r.eco.agents[x])
  {
    var r := Next(p, id, d);
    if Ready(p.eco, id, d) {
      ActKeys(p.eco, id, d);
      ActNewborns(p.eco, id, d);
      var o := Act(p.eco, id, d);
      forall x | p.eco.nextId <= x < r.eco.nextId
        ensures x in r.eco.agents && Infant(s, r.eco.agents[x])
      {
        assert o.born[x - p.eco.nextId] == x;
      }
    }
  }

  /** A turn whose actor is ready ages it by one and keeps it in the list exactly when it is still alive. */
  lemma NextSelf(p: PassResult, id: Id, d: Draws)
    requires Valid(p.eco) && id in p.eco.agents && DrawsOk(p.eco.agents[id].species, d)
    ensures var r := Next(p, id, d);
      && r.eco.agents[id].age == p.eco.agents[id].age + 1
      && r.kept == p.kept + (if r.eco.agents[id].alive then [id] else [])
      && (r.eco.agents[id].alive ==> p.eco.agents[id].alive)
  {
    ReadyUnderValid(p.eco, id, d);
    ActSelf(p.eco, id, d);
  }

  /** No turn brings a dead organism back to life. */
  lemma NextNoRevival(p: PassResult, id: Id, d: Draws)
    requires Valid(p.eco)
    ensures var r := Next(p, id, d);
      forall x :: x in p.eco.agents && r.eco.agents[x].alive ==> p.eco.agents[x].alive
  {
    if Ready(p.eco, id, d) {
      ActFrame(p.eco, id, d);
      ActSelf(p.eco, id, d);
    }
  }

  /** A pass keeps the grid and the organism table linked. */
  lemma {:induction false} PassValid(e: Eco, s: Species, ids: seq<Id>, src: Source, k: nat)
    requires Valid(e) && SourceOk(src)
    ensures Valid(Pass(e, s, ids, src, k).eco)
    decreases |ids|
  {
    if |ids| > 0 {
      PassValid(e, s, ids[..|ids| - 1], src, k);
      NextValid(Pass(e, s, ids[..|ids| - 1], src, k), ids[|ids| - 1], src(k, s, |ids| - 1));
    }
  }

  /** The newborns of a pass get the next ids, in order; no organism leaves the table. */
  lemma {:induction false} PassKeys(e: Eco, s: Species, ids: seq<Id>, src: Source, k: nat)
    ensures var r := Pass(e, s, ids, src, k);
      && r.eco.nextId == e.nextId + |r.born|
      && (forall i :: 0 <= i < |r.born| ==> r.born[i] == e.nextId + i)
      && (forall x :: x in r.eco.agents <==> x in e.agents || e.nextId <= x < r.eco.nextId)
    decreases |ids|
  {
    if |ids| > 0 {
      PassKeys(e, s, ids[..|ids| - 1], src, k);
      NextKeys(Pass(e, s, ids[..|ids| - 1], src, k), ids[|ids| - 1], src(k, s, |ids| - 1));
    }
  }

  /** Organisms never change species, and none leaves the table. */
  lemma {:induction false} PassSpecies(e: Eco, s: Species, ids: seq<Id>, src: Source, k: nat)
    requires Valid(e) && SourceOk(src)
    ensures var r := Pass(e, s, ids, src, k);
      forall x :: x in e.agents ==> x in r.eco.agents && r.eco.agents[x].species == e.agents[x].species
    decreases |ids|
  {
    if |ids| > 0 {
      PassSpecies(e, s, ids[..|ids| - 1], src, k);
      PassValid(e, s, ids[..|ids| - 1], src, k);
      NextSpecies(Pass(e, s, ids[..|ids| - 1], src, k), ids[|ids| - 1], src(k, s, |ids| - 1));
    }
  }

  /** All organisms of `ids` are in the table and of species `s`. */
  predicate AllOf(e: Eco, s: Species, ids: seq<Id>) {
    forall x :: x in ids ==> x in e.agents && e.agents[x].species == s
  }

  /**
   * An organism outside the list is left alone by the pass, except that it may be eaten:
   * then it was alive, of a species `s` eats, and is now dead with no location.
   */
  lemma {:induction false} PassOutsiders(e: Eco, s: Species, ids: seq<Id>, src: Source, k: nat)
    requires Valid(e) && SourceOk(src) && AllOf(e, s, ids)
    ensures var r := Pass(e, s, ids, src, k);
      forall x :: x in e.agents && x !in ids ==>
        || r.eco.agents[x] == e.agents[x]
        || (e.agents[x].alive && Eats(s, e.agents[x].species)
            && r.eco.agents[x] == e.agents[x].(alive := false, loc := None))
    decreases |ids|
  {
    PassSpecies(e, s, ids, src, k);
    if |ids| > 0 {
      var pre := ids[..|ids| - 1];
      assert forall x :: x in pre ==> x in ids;
      PassOutsiders(e, s, pre, src, k);
      PassSpecies(e, s, pre, src, k);
      PassValid(e, s, pre, src, k);
      NextOther(Pass(e, s, pre, src, k), ids[|ids| - 1], src(k, s, |ids| - 1), s);
    }
  }

  /** Every organism born during the pass is still an infant of species `s` at its end. */
  lemma {:induction false} PassNewborns(e: Eco, s: Species, ids: seq<Id>, src: Source, k: nat)
    requires Valid(e) && SourceOk(src) && AllOf(e, s, ids)
    ensures var r := Pass(e, s, ids, src, k);
      forall x :: e.nextId <= x < r.eco.nextId ==> x in r.eco.agents && Infant(s, r.eco.agents[x])
    decreases |ids|
  {
    if |ids| > 0 {
      var pre := ids[..|ids| - 1];
      assert forall x :: x in pre ==> x in ids;
      var id, d := ids[|ids| - 1], src(k, s, |ids| - 1);
      PassNewborns(e, s, pre, src, k);
      PassSpecies(e, s, pre, src, k);
      PassValid(e, s, pre, src, k);
      PassKeys(e, s, pre, src, k);
      var p := Pass(e, s, pre, src, k);
      assert id in e.agents && Placed(e, id);
      NextNewborns(p, id, d, s);
      NextOther(p, id, d, s);
      NoCannibals(s);
    }
  }

  /**
   * The newborns of a pass are already on the grid when it ends, so the next pass sees
   * them: each stands, alive, on the cell that holds it.
   */
  lemma PassNewbornsPlaced(e: Eco, s: Species, ids: seq<Id>, src: Source, k: nat)
    requires Valid(e) && SourceOk(src) && AllOf(e, s, ids)
    ensures var r := Pass(e, s, ids, src, k);
      forall x :: e.nextId <= x < r.eco.nextId ==> x in r.eco.agents && r.eco.agents[x].alive && Placed(r.eco, x)
  {
    PassNewborns(e, s, ids, src, k);
    PassValid(e, s, ids, src, k);
  }

  /** Each organism of a list without repeats acts exactly once: it is one step older. */
  lemma {:induction false} PassInsiders(e: Eco, s: Species, ids: seq<Id>, src: Source, k: nat)
    requires Valid(e) && SourceOk(src) && AllOf(e, s, ids) && Distinct(ids)
    ensures var r := Pass(e, s, ids, src, k);
      forall x :: x in ids ==> r.eco.agents[x].age == e.agents[x].age + 1
    decreases |ids|
  {
    if |ids| > 0 {
      var pre := ids[..|ids| - 1];
      assert forall x :: x in pre ==> x in ids;
      var id, d := ids[|ids| - 1], src(k, s, |ids| - 1);
      assert id !in pre;
      assert Distinct(pre);
      PassInsiders(e, s, pre, src, k);
      PassOutsiders(e, s, pre, src, k);
      PassSpecies(e, s, pre, src, k);
      PassValid(e, s, pre, src, k);
      var p := Pass(e, s, pre, src, k);
      assert p.eco.agents[id].species == s && DrawsOk(s, d);
      NextSelf(p, id, d);
      NextOther(p, id, d, s);
      var r := Next(p, id, d);
      forall x | x in ids
        ensures r.eco.agents[x].age == e.agents[x].age + 1
      {
        if x != id {
          var j :| 0 <= j < |ids| && ids[j] == x;
          assert pre[j] == x;
        }
      }
    }
  }

  lemma {:induction false} SurvivorsSame(e1: Eco, e2: Eco, ids: seq<Id>)
    requires forall x :: x in ids ==> (x in e1.agents && e1.agents[x].alive) == (x in e2.agents && e2.agents[x].alive)
    ensures Survivors(e1, ids) == Survivors(e2, ids)
    decreases |ids|
  {
    if |ids| > 0 {
      var pre := ids[..|ids| - 1];
      assert forall x :: x in pre ==> x in ids;
      SurvivorsSame(e1, e2, pre);
    }
  }

  /**
   * The list after a pass holds exactly the organisms of the old list that are alive after
   * their own update, in their old order: an organism of the pass's own species is never
   * killed by a later one of the same pass, so alive after its update means alive at the end.
   */
  lemma {:induction false} PassKept(e: Eco, s: Species, ids: seq<Id>, src: Source, k: nat)
    requires Valid(e) && SourceOk(src) && AllOf(e, s, ids) && Distinct(ids)
    ensures var r := Pass(e, s, ids, src, k); r.kept == Survivors(r.eco, ids)
    decreases |ids|
  {
    if |ids| > 0 {
      var pre := ids[..|ids| - 1];
      assert forall x :: x in pre ==> x in ids;
      var id, d := ids[|ids| - 1], src(k, s, |ids| - 1);
      assert Distinct(pre);
      PassKept(e, s, pre, src, k);
      PassSpecies(e, s, pre, src, k);
      PassValid(e, s, pre, src, k);
      var p := Pass(e, s, pre, src, k);
      assert p.eco.agents[id].species == s && DrawsOk(s, d);
      NextSelf(p, id, d);
      NextOther(p, id, d, s);
      NoCannibals(s);
      var r := Next(p, id, d);
      forall x | x in pre
        ensures (x in p.eco.agents && p.eco.agents[x].alive) == (x in r.eco.agents && r.eco.agents[x].alive)
      {
        var j :| 0 <= j < |pre| && pre[j] == x;
        assert ids[j] == x;
      }
      SurvivorsSame(p.eco, r.eco, pre);
    }
  }

  lemma {:induction false} PassNoRevival(e: Eco, s: Species, ids: seq<Id>, src: Source, k: nat)
    requires Valid(e) && SourceOk(src)
    ensures var r := Pass(e, s, ids, src, k);
      forall x :: x in e.agents && r.eco.agents[x].alive ==> e.agents[x].alive
    decreases |ids|
  {
    if |ids| > 0 {
      PassNoRevival(e, s, ids[..|ids| - 1], src, k);
      PassValid(e, s, ids[..|ids| - 1], src, k);
      NextNoRevival(Pass(e, s, ids[..|ids| - 1], src, k), ids[|ids| - 1], src(k, s, |ids| - 1));
    }
  }

  /** A list of organisms of species `s` without repeats. */
  predicate ListOk(e: Eco, s: Species, ids: seq<Id>) {
    AllOf(e, s, ids) && Distinct(ids)
  }

  /** The list of species `s`: no repeats, all of species `s`, and every live organism of that species in it. */
  predicate Tracks(e: Eco, s: Species, ids: seq<Id>) {
    && ListOk(e, s, ids)
    && forall x :: x in e.agents && e.agents[x].alive && e.agents[x].species == s ==> x in ids
  }

  lemma {:induction false} SurvivorsDistinct(e: Eco, ids: seq<Id>)
    requires Distinct(ids)
    ensures Distinct(Survivors(e, ids))
    decreases |ids|
  {
    if |ids| > 0 {
      var pre := ids[..|ids| - 1];
      assert Distinct(pre);
      SurvivorsDistinct(e, pre);
      var x := ids[|ids| - 1];
      assert x !in pre;
    }
  }

  /**
   * A pass over another species' list keeps this list tracking its species: the other
   * species' newborns are not of this species, and nobody comes back to life.
   */
  lemma PassTracksOther(e: Eco, s: Species, ids: seq<Id>, src: Source, k: nat, t: Species, list: seq<Id>)
    requires Valid(e) && SourceOk(src) && AllOf(e, s, ids) && s != t && Tracks(e, t, list)
    ensures Tracks(Pass(e, s, ids, src, k).eco, t, list)
  {
    var r := Pass(e, s, ids, src, k);
    PassSpecies(e, s, ids, src, k);
    PassNoRevival(e, s, ids, src, k);
    PassKeys(e, s, ids, src, k);
    PassNewborns(e, s, ids, src, k);
  }

  /**
   * A pass over a species' own list leaves `kept + born` tracking that species: the
   * survivors of the old list, then the newborns, with no repeats, and every live organism
   * of the species among them.
   */
  lemma PassTracksOwn(e: Eco, s: Species, ids: seq<Id>, src: Source, k: nat)
    requires Valid(e) && SourceOk(src) && Tracks(e, s, ids)
    ensures var r := Pass(e, s, ids, src, k); Tracks(r.eco, s, r.kept + r.born)
  {
    var r := Pass(e, s, ids, src, k);
    PassKept(e, s, ids, src, k);
    PassSpecies(e, s, ids, src, k);
    PassNoRevival(e, s, ids, src, k);
    PassKeys(e, s, ids, src, k);
    PassNewborns(e, s, ids, src, k);
    SurvivorsDistinct(r.eco, ids);
    var l := r.kept + r.born;
    forall x | x in l
      ensures x in r.eco.agents && r.eco.agents[x].species == s
    {
      if x in r.kept {
        assert x in ids;
      } else {
        var i :| 0 <= i < |r.born| && r.born[i] == x;
      }
    }
    forall i, j | 0 <= i < j < |l|
      ensures l[i] != l[j]
    {
      if j < |r.kept| {
        assert l[i] == r.kept[i] && l[j] == r.kept[j];
      } else if i < |r.kept| {
        assert l[i] in ids && l[i] in e.agents;
        assert l[j] == r.born[j - |r.kept|];
      } else {
        assert l[i] == r.born[i - |r.kept|] && l[j] == r.born[j - |r.kept|];
      }
    }
    forall x | x in r.eco.agents && r.eco.agents[x].alive && r.eco.agents[x].species == s
      ensures x in l
    {
      if x in e.agents {
        assert x in ids;
        assert x in r.kept;
      } else {
        assert r.born[x - e.nextId] == x;
      }
    }
  }
}
