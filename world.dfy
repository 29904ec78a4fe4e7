/**
 * The simulator as a whole (`Simulator`): the four organism lists, the step counter,
 * `simulateOneStep`, `simulate`, `reset`, `populate`, and the constructor's replacement of
 * bad dimensions by the 12 x 12 default.
 */
module Protocol {
  import opened Wrappers
  import opened Field
  import opened Species
  import opened Organism
  import opened Steps
  import opened Stats

  const DefaultDepth: int := 12
  const DefaultWidth: int := 12

  datatype Lists = Lists(grass: seq<Id>, deer: seq<Id>, trees: seq<Id>, fires: seq<Id>)

  datatype World = World(eco: Eco, lists: Lists, step: nat)

  /** Every list has no repeats, holds only its own species, and holds every live organism of it. */
  ghost predicate WorldOk(w: World) {
    && Valid(w.eco)
    && Tracks(w.eco, Grass, w.lists.grass) && Tracks(w.eco, Deer, w.lists.deer)
    && Tracks(w.eco, Tree, w.lists.trees) && Tracks(w.eco, Fire, w.lists.fires)
  }

  function ListOf(l: Lists, s: Species): seq<Id> {
    match s
    case Grass => l.grass
    case Deer => l.deer
    case Tree => l.trees
    case Fire => l.fires
  }

  /** The lists with the one of species `s` replaced by `ids`. */
  function With(l: Lists, s: Species, ids: seq<Id>): (r: Lists)
    ensures ListOf(r, s) == ids
    ensures forall t :: t != s ==> ListOf(r, t) == ListOf(l, t)
  {
    match s
    case Grass => l.(grass := ids)
    case Deer => l.(deer := ids)
    case Tree => l.(trees := ids)
    case Fire => l.(fires := ids)
  }

  /**
   * One of the four passes of a step: every organism of the species' list acts in list
   * order, and the list becomes its survivors followed by the newborns staged meanwhile.
   */
  function Phase(w: World, s: Species, src: Source): (r: World)
    ensures r.step == w.step
    ensures r.eco.field.depth == w.eco.field.depth && r.eco.field.width == w.eco.field.width
  {
    var p := Pass(w.eco, s, ListOf(w.lists, s), src, w.step);
    World(p.eco, With(w.lists, s, p.kept + p.born), w.step)
  }

  /** The order of the four passes of `simulateOneStep`. */
  const PassOrder: seq<Species> := [Grass, Deer, Tree, Fire]

  /** The first `k` passes of a step, each on the grid the previous one left. */
  function Phases(w: World, k: nat, src: Source): (r: World)
    requires k <= |PassOrder|
    ensures r.step == w.step
    ensures r.eco.field.depth == w.eco.field.depth && r.eco.field.width == w.eco.field.width
  {
    if k == 0 then w else Phase(Phases(w, k - 1, src), PassOrder[k - 1], src)
  }

  /**
   * `simulateOneStep`: the counter goes up by one; then the grass, deer, tree and fire
   * passes, in that order.
   */
  function Step(w: World, src: Source): (r: World)
    ensures r.step == w.step + 1
    ensures r.eco.field.depth == w.eco.field.depth && r.eco.field.width == w.eco.field.width
  {
    Phases(w.(step := w.step + 1), |PassOrder|, src)
  }

  /** A pass keeps the grid linked to the organisms and every list tracking its species. */
  lemma PhaseOk(w: World, s: Species, src: Source)
    requires WorldOk(w) && SourceOk(src)
    ensures WorldOk(Phase(w, s, src))
  {
    var ids := ListOf(w.lists, s);
    var p := Pass(w.eco, s, ids, src, w.step);
    assert Tracks(w.eco, s, ids) by { match s { case Grass => case Deer => case Tree => case Fire => } }
    PassValid(w.eco, s, ids, src, w.step);
    PassTracksOwn(w.eco, s, ids, src, w.step);
    var l := With(w.lists, s, p.kept + p.born);
    forall t | t != s
      ensures Tracks(p.eco, t, ListOf(l, t))
    {
      assert Tracks(w.eco, t, ListOf(w.lists, t)) by { match t { case Grass => case Deer => case Tree => case Fire => } }
      PassTracksOther(w.eco, s, ids, src, w.step, t, ListOf(w.lists, t));
    }
    assert Tracks(p.eco, s, ListOf(l, s));
    assert Tracks(p.eco, Grass, ListOf(l, Grass));
    assert Tracks(p.eco, Deer, ListOf(l, Deer));
    assert Tracks(p.eco, Tree, ListOf(l, Tree));
    assert Tracks(p.eco, Fire, ListOf(l, Fire));
  }

  /** A step is the counter's increment followed by the grass, deer, tree and fire passes. */
  lemma StepUnfold(w: World, src: Source)
    ensures var w0 := w.(step := w.step + 1);
      Step(w, src) == Phase(Phase(Phase(Phase(w0, Grass, src), Deer, src), Tree, src), Fire, src)
  {
    var w0 := w.(step := w.step + 1);
    assert Phases(w0, 1, src) == Phase(w0, Grass, src);
    assert Phases(w0, 2, src) == Phase(Phases(w0, 1, src), Deer, src);
    assert Phases(w0, 3, src) == Phase(Phases(w0, 2, src), Tree, src);
  }

  /** The passes keep the grid linked to the organisms and the lists tracking their species. */
  lemma {:induction false} PhasesOk(w: World, k: nat, src: Source)
    requires k <= |PassOrder| && WorldOk(w) && SourceOk(src)
    ensures WorldOk(Phases(w, k, src))
  {
    if k > 0 {
      PhasesOk(w, k - 1, src);
      PhaseOk(Phases(w, k - 1, src), PassOrder[k - 1], src);
    }
  }

  /** A step keeps the grid linked to the organisms and the lists tracking their species. */
  lemma StepOk(w: World, src: Source)
    requires WorldOk(w) && SourceOk(src)
    ensures WorldOk(Step(w, src))
  {
    PhasesOk(w.(step := w.step + 1), |PassOrder|, src);
  }

  /** The survivors of a list, in list order, followed by the ids `from .. to - 1`. */
  predicate Renewed(list: seq<Id>, kept: seq<Id>, from: nat, to: nat) {
    && from <= to
    && |list| == |kept| + (to - from)
    && list[..|kept|] == kept
    && (forall i :: |kept| <= i < |list| ==> list[i] == from + (i - |kept|))
  }

  /**
   * After the pass of species `s` its list holds the organisms of the old list still alive,
   * in their old order, then the newborns in birth order; the other lists are untouched.
   */
  lemma PhaseLists(w: World, s: Species, src: Source)
    requires WorldOk(w) && SourceOk(src)
    ensures var r := Phase(w, s, src);
      && w.eco.nextId <= r.eco.nextId
      && Renewed(ListOf(r.lists, s), Survivors(r.eco, ListOf(w.lists, s)), w.eco.nextId, r.eco.nextId)
      && (forall t :: t != s ==> ListOf(r.lists, t) == ListOf(w.lists, t))
  {
    var ids := ListOf(w.lists, s);
    assert Tracks(w.eco, s, ids) by { match s { case Grass => case Deer => case Tree => case Fire => } }
    PassKept(w.eco, s, ids, src, w.step);
    PassKeys(w.eco, s, ids, src, w.step);
  }

  /** A pass only hands out new ids. */
  lemma PhaseIds(w: World, s: Species, src: Source)
    ensures w.eco.nextId <= Phase(w, s, src).eco.nextId
  {
    PassKeys(w.eco, s, ListOf(w.lists, s), src, w.step);
  }

  /**
   * An organism of the list that is dead when its species' pass starts, such as a grass
   * eaten during an earlier step's deer pass, is no longer in the list after that pass.
   */
  lemma PhaseDropsDead(w: World, s: Species, src: Source)
    requires WorldOk(w) && SourceOk(src)
    ensures var r := Phase(w, s, src);
      forall x :: x in ListOf(w.lists, s) && !w.eco.agents[x].alive ==> x !in ListOf(r.lists, s)
  {
    var ids := ListOf(w.lists, s);
    assert Tracks(w.eco, s, ids) by { match s { case Grass => case Deer => case Tree => case Fire => } }
    PhaseLists(w, s, src);
    PassNoRevival(w.eco, s, ids, src, w.step);
    var r := Phase(w, s, src);
    var kept := Survivors(r.eco, ids);
    var list := ListOf(r.lists, s);
    forall x | x in ids && !w.eco.agents[x].alive ensures x !in list {
      assert x < w.eco.nextId;
      assert x !in kept;
    }
  }

  /** A pass leaves the lists of the other species as they were. */
  lemma PhaseOthers(w: World, s: Species, src: Source)
    ensures forall t :: t != s ==> ListOf(Phase(w, s, src).lists, t) == ListOf(w.lists, t)
  {
  }

  /** The lists of the species whose passes have not run yet are still the step's initial lists. */
  lemma {:induction false} PhasesLater(w: World, k: nat, src: Source, j: nat)
    requires k <= j < |PassOrder|
    ensures ListOf(Phases(w, k, src).lists, PassOrder[j]) == ListOf(w.lists, PassOrder[j])
  {
    if k > 0 {
      PhasesLater(w, k - 1, src, j);
      assert PassOrder[k - 1] != PassOrder[j];
      PhaseOthers(Phases(w, k - 1, src), PassOrder[k - 1], src);
    }
  }

  /**
   * The grass list a step leaves is the one its grass pass made: grass eaten by the deer,
   * tree or fire passes of the same step is still listed, dead, until the next grass pass.
   */
  lemma StepGrassLags(w: World, src: Source)
    ensures var w1 := Phase(w.(step := w.step + 1), Grass, src);
      Step(w, src).lists.grass == w1.lists.grass
  {
    var w1 := Phase(w.(step := w.step + 1), Grass, src);
    var w2 := Phase(w1, Deer, src);
    var w3 := Phase(w2, Tree, src);
    StepUnfold(w, src);
    PhaseOthers(w1, Deer, src);
    PhaseOthers(w2, Tree, src);
    PhaseOthers(w3, Fire, src);
    assert ListOf(w2.lists, Grass) == ListOf(w1.lists, Grass);
    assert ListOf(w3.lists, Grass) == ListOf(w2.lists, Grass);
    assert ListOf(Phase(w3, Fire, src).lists, Grass) == ListOf(w3.lists, Grass);
  }

  /** The age an organism is created with: zero, or below its maximum age for fire. */
  predicate BirthAge(a: Agent) {
    if NewbornRandomAge(a.species) then 0 <= a.age < MaxAge(a.species) else a.age == 0
  }

  /** The organisms created since id `n0` still have their birth age after another pass. */
  lemma PhaseNewbornAges(w: World, s: Species, src: Source, n0: nat)
    requires WorldOk(w) && SourceOk(src) && n0 <= w.eco.nextId
    requires forall x :: x in ListOf(w.lists, s) ==> x < n0
    requires forall x :: n0 <= x < w.eco.nextId ==> x in w.eco.agents && BirthAge(w.eco.agents[x])
    ensures var r := Phase(w, s, src);
      forall x :: n0 <= x < r.eco.nextId ==> x in r.eco.agents && BirthAge(r.eco.agents[x])
  {
    var ids := ListOf(w.lists, s);
    assert Tracks(w.eco, s, ids) by { match s { case Grass => case Deer => case Tree => case Fire => } }
    PassOutsiders(w.eco, s, ids, src, w.step);
    PassNewborns(w.eco, s, ids, src, w.step);
    PassKeys(w.eco, s, ids, src, w.step);
    var r := Phase(w, s, src);
    forall x | n0 <= x < r.eco.nextId
      ensures x in r.eco.agents && BirthAge(r.eco.agents[x])
    {
      if x < w.eco.nextId {
        assert x !in ids;
      }
    }
  }

  /** The four lists of a step start with organisms that existed before it. */
  lemma ListsBefore(w: World, t: Species, x: Id)
    requires WorldOk(w) && x in ListOf(w.lists, t)
    ensures x < w.eco.nextId
  {
    assert Tracks(w.eco, t, ListOf(w.lists, t)) by { match t { case Grass => case Deer => case Tree => case Fire => } }
  }

  /**
   * Newborns are staged: each pass of a step iterates only organisms that existed before the
   * step, so an organism created during the step is never updated by any of its passes.
   */
  lemma StepIteratesOld(w: World, src: Source, k: nat)
    requires WorldOk(w) && k < |PassOrder|
    ensures var ids := ListOf(Phases(w.(step := w.step + 1), k, src).lists, PassOrder[k]);
      forall x :: x in ids ==> x < w.eco.nextId
  {
    PhasesLater(w.(step := w.step + 1), k, src, k);
    forall x | x in ListOf(w.lists, PassOrder[k]) ensures x < w.eco.nextId {
      ListsBefore(w, PassOrder[k], x);
    }
  }

  /** Every organism created by the first `k` passes of a step still has its birth age. */
  lemma {:induction false} PhasesNewbornAges(w: World, k: nat, src: Source)
    requires k <= |PassOrder| && WorldOk(w) && SourceOk(src)
    ensures var r := Phases(w, k, src);
      && w.eco.nextId <= r.eco.nextId
      && forall x :: w.eco.nextId <= x < r.eco.nextId ==> x in r.eco.agents && BirthAge(r.eco.agents[x])
  {
    if k > 0 {
      var v := Phases(w, k - 1, src);
      var s := PassOrder[k - 1];
      PhasesNewbornAges(w, k - 1, src);
      PhasesOk(w, k - 1, src);
      PhasesLater(w, k - 1, src, k - 1);
      forall x | x in ListOf(v.lists, s) ensures x < w.eco.nextId {
        ListsBefore(w, s, x);
      }
      PhaseIds(v, s, src);
      PhaseNewbornAges(v, s, src, w.eco.nextId);
    }
  }

  /**
   * Newborns are staged, not acted on: every organism created during a step still has its
   * birth age when the step ends, whichever pass created it.
   */
  lemma StepNewbornAges(w: World, src: Source)
    requires WorldOk(w) && SourceOk(src)
    ensures var r := Step(w, src);
      && w.eco.nextId <= r.eco.nextId
      && forall x :: w.eco.nextId <= x < r.eco.nextId ==> x in r.eco.agents && BirthAge(r.eco.agents[x])
  {
    PhasesNewbornAges(w.(step := w.step + 1), |PassOrder|, src);
  }

  /** A step function moves the counter on by one and keeps the grid's dimensions. */
  ghost predicate Advances(next: World -> World) {
    forall x :: next(x).step == x.step + 1
      && next(x).eco.field.depth == x.eco.field.depth && next(x).eco.field.width == x.eco.field.width
  }

  /**
   * The loop of `simulate(n)` over a given step function: before each of at most `n` steps the
   * field is checked for viability, and the loop stops as soon as fewer than two species are present.
   */
  function Iterate(next: World -> World, w: World, n: nat): (r: World)
    requires Advances(next)
    ensures w.step <= r.step <= w.step + n
    ensures r.step < w.step + n ==> !Viable(r.eco)
    ensures !Viable(w.eco) ==> r == w
    ensures r.eco.field.depth == w.eco.field.depth && r.eco.field.width == w.eco.field.width
    decreases n
  {
    if n == 0 || !Viable(w.eco) then w else Iterate(next, next(w), n - 1)
  }

  /** A property every step keeps holds of every state the loop reaches. */
  lemma {:induction false} IterateKeeps(next: World -> World, ok: World -> bool, w: World, n: nat)
    requires Advances(next) && ok(w)
    requires forall x :: ok(x) ==> ok(next(x))
    ensures ok(Iterate(next, w, n))
    decreases n
  {
    if n > 0 && Viable(w.eco) {
      IterateKeeps(next, ok, next(w), n - 1);
    }
  }

  /** Looping `m` times and then `n` more is looping `m + n` times. */
  lemma {:induction false} IterateSplit(next: World -> World, w: World, m: nat, n: nat)
    requires Advances(next)
    ensures Iterate(next, Iterate(next, w, m), n) == Iterate(next, w, m + n)
    decreases m
  {
    if m > 0 && Viable(w.eco) {
      IterateSplit(next, next(w), m - 1, n);
    }
  }

  /** The step function of `simulate`, for one stream of draws. */
  function Stepper(src: Source): (next: World -> World)
    ensures Advances(next)
  {
    w => Step(w, src)
  }

  /** `simulate(n)`: at most `n` steps of `simulateOneStep`, each preceded by a viability test. */
  function Run(w: World, n: nat, src: Source): (r: World)
    ensures w.step <= r.step <= w.step + n
    ensures r.step < w.step + n ==> !Viable(r.eco)
    ensures !Viable(w.eco) ==> r == w
    ensures r.eco.field.depth == w.eco.field.depth && r.eco.field.width == w.eco.field.width
  {
    Iterate(Stepper(src), w, n)
  }

  /** `simulate` unrolled once: a viable field with steps left takes one step, then runs on. */
  lemma RunUnroll(w: World, n: nat, src: Source)
    requires n > 0 && Viable(w.eco)
    ensures Run(w, n, src) == Run(Step(w, src), n - 1, src)
  {
  }

  /** `runLongSimulation`: a run of 4000 steps. */
  const LongRun: nat := 4000

  /** Every state a run passes through keeps the grid and the lists consistent. */
  lemma RunOk(w: World, n: nat, src: Source)
    requires WorldOk(w) && SourceOk(src)
    ensures WorldOk(Run(w, n, src))
  {
    var next := Stepper(src);
    forall x | WorldOk(x)
      ensures WorldOk(next(x))
    {
      StepOk(x, src);
    }
    IterateKeeps(next, x => WorldOk(x), w, n);
  }

  /** Running `m` steps and then `n` more is running `m + n` steps. */
  lemma RunSplit(w: World, m: nat, n: nat, src: Source)
    ensures Run(Run(w, m, src), n, src) == Run(w, m + n, src)
  {
    IterateSplit(Stepper(src), w, m, n);
  }
}
