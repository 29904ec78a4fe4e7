/**
 * `reset`, `populate` and the constructor of `Simulator`: the field is cleared and every
 * cell, in row-major order, receives at most one organism chosen by four successive draws.
 */
module Setup {
  import opened Wrappers
  import opened Field
  import opened Species
  import opened Organism
  import opened Steps
  import opened Stats
  import opened Protocol

  /**
   * The draws made for one cell: the four creation comparisons, tried in the order deer,
   * grass, tree, fire, and the age and food rolls of the organism's own constructor.
   */
  datatype CellDraw = CellDraw(deerRoll: bool, grassRoll: bool, treeRoll: bool, fireRoll: bool,
                               ageRoll: nat, foodRoll: nat)

  /** The draws of every cell, by row and column. */
  type Plan = (int, int) -> CellDraw

  /** The species created on a cell: the first comparison that succeeds, or none. */
  function Choose(c: CellDraw): (r: Option<Species>)
    ensures r == Some(Deer) <==> c.deerRoll
    ensures r == Some(Grass) <==> !c.deerRoll && c.grassRoll
    ensures r == Some(Tree) <==> !c.deerRoll && !c.grassRoll && c.treeRoll
    ensures r == Some(Fire) <==> !c.deerRoll && !c.grassRoll && !c.treeRoll && c.fireRoll
    ensures r == None <==> !c.deerRoll && !c.grassRoll && !c.treeRoll && !c.fireRoll
  {
    if c.deerRoll then Some(Deer)
    else if c.grassRoll then Some(Grass)
    else if c.treeRoll then Some(Tree)
    else if c.fireRoll then Some(Fire)
    else None
  }

  /** `nextInt(MAX_AGE)` and `nextInt(GRASS_FOOD_VALUE)` are below their bounds. */
  predicate CellDrawOk(c: CellDraw) {
    c.foodRoll < FoodValue && (Choose(c).Some? ==> c.ageRoll < MaxAge(Choose(c).value))
  }

  ghost predicate PlanOk(plan: Plan) {
    forall row, col :: CellDrawOk(plan(row, col))
  }

  /** One cell of `populate`: the chosen organism, with a random age, is created there and listed. */
  function PopCell(w: World, l: Loc, c: CellDraw): (r: World)
    requires InBounds(w.eco.field, l) && CellDrawOk(c)
    ensures r.eco.field.depth == w.eco.field.depth && r.eco.field.width == w.eco.field.width
    ensures r.step == w.step
  {
    match Choose(c)
    case None => w
    case Some(s) =>
      var a := Create(s, true, c.ageRoll, c.foodRoll, l);
      World(AddAgent(w.eco, a), With(w.lists, s, ListOf(w.lists, s) + [w.eco.nextId]), w.step)
  }

  /** Columns `0 .. cols - 1` of row `row`, left to right. */
  function PopRow(w: World, plan: Plan, row: int, cols: nat): (r: World)
    requires 0 <= row < w.eco.field.depth && cols <= Cols(w.eco.field) && PlanOk(plan)
    ensures r.eco.field.depth == w.eco.field.depth && r.eco.field.width == w.eco.field.width
    ensures r.step == w.step
    decreases cols
  {
    if cols == 0 then w
    else PopCell(PopRow(w, plan, row, cols - 1), Loc(row, cols - 1), plan(row, cols - 1))
  }

  /** Rows `0 .. rows - 1`, top to bottom. */
  function PopRows(w: World, plan: Plan, rows: nat): (r: World)
    requires rows <= Rows(w.eco.field) && PlanOk(plan)
    ensures r.eco.field.depth == w.eco.field.depth && r.eco.field.width == w.eco.field.width
    ensures r.step == w.step
    decreases rows
  {
    if rows == 0 then w
    else
      var p := PopRows(w, plan, rows - 1);
      PopRow(p, plan, rows - 1, Cols(p.eco.field))
  }

  /**
   * `populate`: the field is cleared (the organisms it held are no longer reachable) and
   * filled row by row; the organisms created are appended to the lists.
   */
  function Populate(w: World, plan: Plan): (r: World)
    requires PlanOk(plan)
    ensures r.eco.field.depth == w.eco.field.depth && r.eco.field.width == w.eco.field.width
    ensures r.step == w.step
  {
    var e := Eco(ClearAll(w.eco.field), map[], w.eco.nextId);
    PopRows(World(e, w.lists, w.step), plan, Rows(e.field))
  }

  /** `reset`: step zero, the four lists emptied, then `populate`. */
  function Reset(w: World, plan: Plan): (r: World)
    requires PlanOk(plan)
    ensures r.step == 0
    ensures r.eco.field.depth == w.eco.field.depth && r.eco.field.width == w.eco.field.width
  {
    Populate(World(w.eco, Lists([], [], [], []), 0), plan)
  }

  /** The constructor's dimensions: any non-positive one makes both the 12 x 12 default. */
  function Dimensions(depth: int, width: int): (r: (int, int))
    ensures r.0 > 0 && r.1 > 0
    ensures depth > 0 && width > 0 ==> r == (depth, width)
    ensures depth <= 0 || width <= 0 ==> r == (DefaultDepth, DefaultWidth)
  {
    if width <= 0 || depth <= 0 then (DefaultDepth, DefaultWidth) else (depth, width)
  }

  /** `Simulator(depth, width)`: empty lists and field of the chosen size, then `reset`. */
  function NewWorld(depth: int, width: int, plan: Plan): (r: World)
    requires PlanOk(plan)
    ensures r.step == 0
    ensures (r.eco.field.depth, r.eco.field.width) == Dimensions(depth, width)
  {
    var dims := Dimensions(depth, width);
    Reset(World(Eco(Grid(dims.0, dims.1, map[]), map[], 0), Lists([], [], [], []), 0), plan)
  }

  /** Cell `l` comes before `(row, col)` in row-major order. */
  predicate Before(l: Loc, row: int, col: int) {
    l.row < row || (l.row == row && l.col < col)
  }

  /** The visited cells before `(row, col)` hold an organism exactly when their draws chose a species. */
  ghost predicate Visited(w: World, plan: Plan, row: int, col: int) {
    forall l {:trigger l in w.eco.field.cells} ::
      l in w.eco.field.cells <==> InBounds(w.eco.field, l) && Before(l, row, col) && Choose(plan(l.row, l.col)).Some?
  }

  /** Each occupied cell holds an organism of the species its draws chose. */
  predicate Chosen(w: World, plan: Plan) {
    forall l {:trigger SpeciesAt(w.eco, l)} ::
      l in w.eco.field.cells ==> SpeciesAt(w.eco, l) == Choose(plan(l.row, l.col))
  }

  /** Every organism is alive and younger than the maximum age of its species. */
  predicate Young(w: World) {
    forall x :: x in w.eco.agents ==> w.eco.agents[x].alive && w.eco.agents[x].age < MaxAge(w.eco.agents[x].species)
  }

  /** A list keeps tracking its species when one organism is added, and gets it when of that species. */
  lemma AddTracks(e: Eco, a: Agent, t: Species, list: seq<Id>)
    requires Valid(e) && a.loc.Some? && InBounds(e.field, a.loc.value) && Tracks(e, t, list)
    ensures a.species == t ==> Tracks(AddAgent(e, a), t, list + [e.nextId])
    ensures a.species != t ==> Tracks(AddAgent(e, a), t, list)
  {
    var r := AddAgent(e, a);
    if a.species == t {
      var l := list + [e.nextId];
      forall i, j | 0 <= i < j < |l| ensures l[i] != l[j] {
        if j == |list| {
          assert list[i] in list;
        } else {
          assert list[i] != list[j];
        }
      }
      forall x | x in l ensures x in r.agents && r.agents[x].species == t {
        if x != e.nextId {
          var i :| 0 <= i < |l| && l[i] == x;
          assert list[i] == x;
        }
      }
    } else {
      assert e.nextId !in list;
    }
  }

  /** Creating an organism on an empty cell keeps the grid and the lists consistent. */
  lemma PopCellOk(w: World, l: Loc, c: CellDraw)
    requires InBounds(w.eco.field, l) && CellDrawOk(c) && WorldOk(w) && l !in w.eco.field.cells
    ensures WorldOk(PopCell(w, l, c))
  {
    var r := PopCell(w, l, c);
    match Choose(c)
    case None =>
    case Some(s) =>
      var a := Create(s, true, c.ageRoll, c.foodRoll, l);
      AddAgentValid(w.eco, a);
      forall t ensures Tracks(r.eco, t, ListOf(r.lists, t)) {
        assert Tracks(w.eco, t, ListOf(w.lists, t)) by { match t { case Grass => case Deer => case Tree => case Fire => } }
        AddTracks(w.eco, a, t, ListOf(w.lists, t));
      }
      assert Tracks(r.eco, Grass, ListOf(r.lists, Grass));
      assert Tracks(r.eco, Deer, ListOf(r.lists, Deer));
      assert Tracks(r.eco, Tree, ListOf(r.lists, Tree));
      assert Tracks(r.eco, Fire, ListOf(r.lists, Fire));
  }

  /** Visiting cell `l` fills it exactly when its draws chose a species. */
  lemma PopCellVisited(w: World, plan: Plan, l: Loc)
    requires PlanOk(plan) && InBounds(w.eco.field, l) && Visited(w, plan, l.row, l.col)
    ensures Visited(PopCell(w, l, plan(l.row, l.col)), plan, l.row, l.col + 1)
  {
    var c := plan(l.row, l.col);
    assert CellDrawOk(c);
  }

  /** The organism created on cell `l` is of the species chosen for it; the others keep theirs. */
  lemma PopCellChosen(w: World, plan: Plan, l: Loc)
    requires PlanOk(plan) && InBounds(w.eco.field, l) && Valid(w.eco) && Chosen(w, plan)
    ensures Chosen(PopCell(w, l, plan(l.row, l.col)), plan)
  {
    var c := plan(l.row, l.col);
    assert CellDrawOk(c);
    var r := PopCell(w, l, c);
    forall m | m in r.eco.field.cells ensures SpeciesAt(r.eco, m) == Choose(plan(m.row, m.col)) {
      if m != l {
        assert Holds(w.eco, m);
        assert SpeciesAt(w.eco, m) == Choose(plan(m.row, m.col));
      }
    }
  }

  /** Creating an organism on an empty cell keeps the grid linked to the organisms. */
  lemma PopCellValid(w: World, l: Loc, c: CellDraw)
    requires InBounds(w.eco.field, l) && CellDrawOk(c) && Valid(w.eco) && l !in w.eco.field.cells
    ensures Valid(PopCell(w, l, c).eco)
  {
    match Choose(c)
    case None =>
    case Some(s) => AddAgentValid(w.eco, Create(s, true, c.ageRoll, c.foodRoll, l));
  }

  /** Creating an organism from valid draws keeps every organism alive and below its maximum age. */
  lemma PopCellYoung(w: World, l: Loc, c: CellDraw)
    requires InBounds(w.eco.field, l) && CellDrawOk(c) && Young(w)
    ensures Young(PopCell(w, l, c))
  {
  }

  /** Visiting the first `cols` cells of a row fills each exactly when its draws chose a species. */
  lemma {:induction false} PopRowVisited(w: World, plan: Plan, row: int, cols: nat)
    requires PlanOk(plan) && 0 <= row < w.eco.field.depth && cols <= Cols(w.eco.field)
    requires Visited(w, plan, row, 0)
    ensures Visited(PopRow(w, plan, row, cols), plan, row, cols)
    decreases cols
  {
    if cols > 0 {
      PopRowVisited(w, plan, row, cols - 1);
      PopCellVisited(PopRow(w, plan, row, cols - 1), plan, Loc(row, cols - 1));
    }
  }

  /** Visiting the first `cols` cells of a row keeps the grid linked to the organisms. */
  lemma {:induction false} PopRowValid(w: World, plan: Plan, row: int, cols: nat)
    requires PlanOk(plan) && 0 <= row < w.eco.field.depth && cols <= Cols(w.eco.field)
    requires Valid(w.eco) && Visited(w, plan, row, 0)
    ensures Valid(PopRow(w, plan, row, cols).eco)
    decreases cols
  {
    if cols > 0 {
      var p := PopRow(w, plan, row, cols - 1);
      var l := Loc(row, cols - 1);
      PopRowValid(w, plan, row, cols - 1);
      PopRowVisited(w, plan, row, cols - 1);
      assert l !in p.eco.field.cells;
      assert CellDrawOk(plan(row, cols - 1));
      PopCellValid(p, l, plan(row, cols - 1));
    }
  }

  /** Visiting the first `cols` cells of a row keeps the grid and the lists consistent. */
  lemma {:induction false} PopRowOk(w: World, plan: Plan, row: int, cols: nat)
    requires PlanOk(plan) && 0 <= row < w.eco.field.depth && cols <= Cols(w.eco.field)
    requires WorldOk(w) && Visited(w, plan, row, 0)
    ensures WorldOk(PopRow(w, plan, row, cols))
    decreases cols
  {
    if cols > 0 {
      var p := PopRow(w, plan, row, cols - 1);
      var l := Loc(row, cols - 1);
      PopRowOk(w, plan, row, cols - 1);
      PopRowVisited(w, plan, row, cols - 1);
      assert l !in p.eco.field.cells;
      assert CellDrawOk(plan(row, cols - 1));
      PopCellOk(p, l, plan(row, cols - 1));
    }
  }

  /** Visiting the first `cols` cells of a row gives each filled cell its chosen species. */
  lemma {:induction false} PopRowChosen(w: World, plan: Plan, row: int, cols: nat)
    requires PlanOk(plan) && 0 <= row < w.eco.field.depth && cols <= Cols(w.eco.field)
    requires Valid(w.eco) && Visited(w, plan, row, 0) && Chosen(w, plan)
    ensures Chosen(PopRow(w, plan, row, cols), plan)
    decreases cols
  {
    if cols > 0 {
      PopRowChosen(w, plan, row, cols - 1);
      PopRowValid(w, plan, row, cols - 1);
      PopCellChosen(PopRow(w, plan, row, cols - 1), plan, Loc(row, cols - 1));
    }
  }

  /** Visiting the first `cols` cells of a row creates only live organisms below their maximum age. */
  lemma {:induction false} PopRowYoung(w: World, plan: Plan, row: int, cols: nat)
    requires PlanOk(plan) && 0 <= row < w.eco.field.depth && cols <= Cols(w.eco.field) && Young(w)
    ensures Young(PopRow(w, plan, row, cols))
    decreases cols
  {
    if cols > 0 {
      PopRowYoung(w, plan, row, cols - 1);
      assert CellDrawOk(plan(row, cols - 1));
      PopCellYoung(PopRow(w, plan, row, cols - 1), Loc(row, cols - 1), plan(row, cols - 1));
    }
  }

  /** Having visited a whole row is having visited everything before the next one. */
  lemma RowDone(w: World, plan: Plan, row: int)
    requires Visited(w, plan, row, Cols(w.eco.field))
    ensures Visited(w, plan, row + 1, 0)
  {
    forall l ensures InBounds(w.eco.field, l) && Before(l, row, Cols(w.eco.field)) <==> InBounds(w.eco.field, l) && Before(l, row + 1, 0) {
    }
  }

  /** Visiting the first `rows` rows fills each of their cells exactly when its draws chose a species. */
  lemma {:induction false} PopRowsVisited(w: World, plan: Plan, rows: nat)
    requires PlanOk(plan) && rows <= Rows(w.eco.field) && Visited(w, plan, 0, 0)
    ensures Visited(PopRows(w, plan, rows), plan, rows, 0)
    decreases rows
  {
    if rows > 0 {
      PopRowsVisited(w, plan, rows - 1);
      var p := PopRows(w, plan, rows - 1);
      PopRowVisited(p, plan, rows - 1, Cols(p.eco.field));
      RowDone(PopRow(p, plan, rows - 1, Cols(p.eco.field)), plan, rows - 1);
    }
  }

  /** Visiting the first `rows` rows keeps the grid linked to the organisms. */
  lemma {:induction false} PopRowsValid(w: World, plan: Plan, rows: nat)
    requires PlanOk(plan) && rows <= Rows(w.eco.field) && Valid(w.eco) && Visited(w, plan, 0, 0)
    ensures Valid(PopRows(w, plan, rows).eco)
    decreases rows
  {
    if rows > 0 {
      PopRowsValid(w, plan, rows - 1);
      PopRowsVisited(w, plan, rows - 1);
      var p := PopRows(w, plan, rows - 1);
      PopRowValid(p, plan, rows - 1, Cols(p.eco.field));
    }
  }

  /** Visiting the first `rows` rows keeps the grid and the lists consistent. */
  lemma {:induction false} PopRowsOk(w: World, plan: Plan, rows: nat)
    requires PlanOk(plan) && rows <= Rows(w.eco.field) && WorldOk(w) && Visited(w, plan, 0, 0)
    ensures WorldOk(PopRows(w, plan, rows))
    decreases rows
  {
    if rows > 0 {
      PopRowsOk(w, plan, rows - 1);
      PopRowsVisited(w, plan, rows - 1);
      var p := PopRows(w, plan, rows - 1);
      PopRowOk(p, plan, rows - 1, Cols(p.eco.field));
    }
  }

  /** Visiting the first `rows` rows gives each filled cell its chosen species. */
  lemma {:induction false} PopRowsChosen(w: World, plan: Plan, rows: nat)
    requires PlanOk(plan) && rows <= Rows(w.eco.field) && Valid(w.eco) && Visited(w, plan, 0, 0) && Chosen(w, plan)
    ensures Chosen(PopRows(w, plan, rows), plan)
    decreases rows
  {
    if rows > 0 {
      PopRowsChosen(w, plan, rows - 1);
      PopRowsValid(w, plan, rows - 1);
      PopRowsVisited(w, plan, rows - 1);
      var p := PopRows(w, plan, rows - 1);
      PopRowChosen(p, plan, rows - 1, Cols(p.eco.field));
    }
  }

  /** Visiting the first `rows` rows creates only live organisms below their maximum age. */
  lemma {:induction false} PopRowsYoung(w: World, plan: Plan, rows: nat)
    requires PlanOk(plan) && rows <= Rows(w.eco.field) && Young(w)
    ensures Young(PopRows(w, plan, rows))
    decreases rows
  {
    if rows > 0 {
      PopRowsYoung(w, plan, rows - 1);
      var p := PopRows(w, plan, rows - 1);
      PopRowYoung(p, plan, rows - 1, Cols(p.eco.field));
    }
  }

  /**
   * After `reset` the grid and the lists are consistent; each cell holds an organism exactly
   * when its draws chose a species, and then one of that species; every organism is alive and
   * younger than its maximum age; and the step counter is zero.
   */
  lemma ResetOk(w: World, plan: Plan)
    requires PlanOk(plan) && w.eco.field.depth > 0 && w.eco.field.width > 0
    ensures var r := Reset(w, plan);
      && WorldOk(r) && r.step == 0
      && (forall l :: InBounds(r.eco.field, l) ==> (l in r.eco.field.cells <==> Choose(plan(l.row, l.col)).Some?))
      && (forall l :: InBounds(r.eco.field, l) ==> SpeciesAt(r.eco, l) == Choose(plan(l.row, l.col)))
      && (forall x :: x in r.eco.agents ==> r.eco.agents[x].alive && r.eco.agents[x].age < MaxAge(r.eco.agents[x].species))
  {
    var w0 := World(w.eco, Lists([], [], [], []), 0);
    var e := Eco(ClearAll(w.eco.field), map[], w.eco.nextId);
    var start := World(e, w0.lists, 0);
    assert WorldOk(start) && Visited(start, plan, 0, 0) && Chosen(start, plan) && Young(start);
    PopRowsVisited(start, plan, Rows(e.field));
    PopRowsOk(start, plan, Rows(e.field));
    PopRowsChosen(start, plan, Rows(e.field));
    PopRowsYoung(start, plan, Rows(e.field));
    var r := Reset(w, plan);
    assert Visited(r, plan, r.eco.field.depth, 0);
    forall l | InBounds(r.eco.field, l) ensures SpeciesAt(r.eco, l) == Choose(plan(l.row, l.col)) {
      if l !in r.eco.field.cells {
        assert Choose(plan(l.row, l.col)).None?;
      }
    }
  }

  /** The constructor leaves a consistent world of the size `Dimensions` picks, at step zero. */
  lemma NewWorldOk(depth: int, width: int, plan: Plan)
    requires PlanOk(plan)
    ensures WorldOk(NewWorld(depth, width, plan))
  {
    var dims := Dimensions(depth, width);
    ResetOk(World(Eco(Grid(dims.0, dims.1, map[]), map[], 0), Lists([], [], [], []), 0), plan);
  }
}
