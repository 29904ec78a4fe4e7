/**
 * Field statistics (`FieldStats`): a counter per species found on the grid, recomputed by
 * a row-by-row scan only when the counts are marked invalid, and the viability test
 * "more than one species has a non-zero count".
 */
module Stats {
  import opened Wrappers
  import opened Field
  import opened Species
  import opened Organism

  const AllSpecies: set<Species> := {Grass, Deer, Tree, Fire}

  lemma AllSpeciesComplete(s: Species)
    ensures s in AllSpecies
  {
  }

  /** The scanned extent of the grid: `getDepth()` rows of `getWidth()` columns. */
  function Rows(g: Grid): nat {
    if g.depth > 0 then g.depth else 0
  }

  function Cols(g: Grid): nat {
    if g.width > 0 then g.width else 0
  }

  /** Cells `(row, 0) .. (row, c - 1)` holding an organism of species `s`. */
  function RowCount(e: Eco, s: Species, row: int, c: nat): nat
    decreases c
  {
    if c == 0 then 0
    else RowCount(e, s, row, c - 1) + (if SpeciesAt(e, Loc(row, c - 1)) == Some(s) then 1 else 0)
  }

  /** Cells of the first `r` rows holding an organism of species `s`. */
  function RowsCount(e: Eco, s: Species, r: nat): nat
    decreases r
  {
    if r == 0 then 0 else RowsCount(e, s, r - 1) + RowCount(e, s, r - 1, Cols(e.field))
  }

  /** The number of grid cells holding an organism of species `s`. */
  function CellCount(e: Eco, s: Species): nat {
    RowsCount(e, s, Rows(e.field))
  }

  lemma {:induction false} RowCountPositive(e: Eco, s: Species, row: int, c: nat)
    ensures RowCount(e, s, row, c) > 0 <==> exists j :: 0 <= j < c && SpeciesAt(e, Loc(row, j)) == Some(s)
    decreases c
  {
    if c > 0 {
      RowCountPositive(e, s, row, c - 1);
    }
  }

  lemma {:induction false} RowsCountPositive(e: Eco, s: Species, r: nat)
    ensures RowsCount(e, s, r) > 0 <==>
      exists i, j :: 0 <= i < r && 0 <= j < Cols(e.field) && SpeciesAt(e, Loc(i, j)) == Some(s)
    decreases r
  {
    if r > 0 {
      RowsCountPositive(e, s, r - 1);
      RowCountPositive(e, s, r - 1, Cols(e.field));
    }
  }

  /** A species' count is non-zero exactly when some cell of the grid holds one of its organisms. */
  lemma CellCountPositive(e: Eco, s: Species)
    ensures CellCount(e, s) > 0 <==> exists l :: InBounds(e.field, l) && SpeciesAt(e, l) == Some(s)
  {
    RowsCountPositive(e, s, Rows(e.field));
    if CellCount(e, s) > 0 {
      var i, j :| 0 <= i < Rows(e.field) && 0 <= j < Cols(e.field) && SpeciesAt(e, Loc(i, j)) == Some(s);
      assert InBounds(e.field, Loc(i, j));
    }
    if exists l :: InBounds(e.field, l) && SpeciesAt(e, l) == Some(s) {
      var l :| InBounds(e.field, l) && SpeciesAt(e, l) == Some(s);
      assert 0 <= l.row < Rows(e.field) && 0 <= l.col < Cols(e.field) && SpeciesAt(e, Loc(l.row, l.col)) == Some(s);
    }
  }

  /** The species with a non-zero count. */
  function Present(e: Eco): set<Species> {
    set s | s in AllSpecies && CellCount(e, s) > 0
  }

  /** The simulation is viable while more than one species is on the grid. */
  function Viable(e: Eco): bool {
    |Present(e)| > 1
  }

  /** Viability means two different species each have a non-zero count. */
  lemma ViableTwoSpecies(e: Eco)
    ensures Viable(e) <==> exists s, t :: s != t && CellCount(e, s) > 0 && CellCount(e, t) > 0
  {
    var p := Present(e);
    if |p| > 1 {
      var s :| s in p;
      assert |p - {s}| > 0;
      var t :| t in p - {s};
      assert s != t && CellCount(e, s) > 0 && CellCount(e, t) > 0;
    }
    if exists s, t :: s != t && CellCount(e, s) > 0 && CellCount(e, t) > 0 {
      var s, t :| s != t && CellCount(e, s) > 0 && CellCount(e, t) > 0;
      AllSpeciesComplete(s);
      AllSpeciesComplete(t);
      assert {s, t} <= p;
      assert |{s, t}| == 2;
      SubsetCard({s, t}, p);
    }
  }

  lemma SubsetCard<T>(a: set<T>, b: set<T>)
    requires a <= b
    ensures |a| <= |b|
  {
    assert b == a + (b - a);
  }

  /** The count of a counter, 0 for one not created yet. */
  function Count(m: map<Species, nat>, s: Species): nat {
    if s in m then m[s] else 0
  }

  /** The species whose counter is non-zero. */
  function NonZero(m: map<Species, nat>): set<Species> {
    set s | s in m && m[s] > 0
  }

  /** `reset`: the same counters, all zero. */
  function Zeroed(m: map<Species, nat>): map<Species, nat> {
    map s | s in m :: 0
  }

  /** The counters after a scan of the first `r` rows and `c` cells of row `r`, starting from zeroed `keys`. */
  function Tally(keys: set<Species>, e: Eco, r: nat, c: nat): map<Species, nat> {
    map s | s in AllSpecies && (s in keys || RowsCount(e, s, r) + RowCount(e, s, r, c) > 0)
      :: RowsCount(e, s, r) + RowCount(e, s, r, c)
  }

  /** The counters `generateCounts` leaves: every old counter and every species on the grid, with its cell count. */
  function Generated(keys: set<Species>, e: Eco): map<Species, nat> {
    map s | s in keys + Present(e) :: CellCount(e, s)
  }

  /** After a scan, viability by the counters is viability of the grid, whatever counters existed. */
  lemma GeneratedViable(keys: set<Species>, e: Eco)
    ensures NonZero(Generated(keys, e)) == Present(e)
    ensures |NonZero(Generated(keys, e))| > 1 <==> Viable(e)
  {
    var g := Generated(keys, e);
    forall s | s in Present(e) ensures s in NonZero(g) {
    }
    forall s | s in NonZero(g) ensures s in Present(e) {
      AllSpeciesComplete(s);
    }
  }

  /** The counters and the flag saying whether they reflect the grid. */
  class FieldStats {
    var counters: map<Species, nat>
    var countsValid: bool

    /** A new statistics object has no counters and counts as up to date. */
    constructor()
      ensures counters == map[] && countsValid
    {
      counters := map[];
      countsValid := true;
    }

    /** `incrementCount`: create the counter at zero if it is missing, then add one. */
    method IncrementCount(s: Species)
      modifies this
      ensures counters == old(counters)[s := Count(old(counters), s) + 1]
      ensures countsValid == old(countsValid)
    {
      var count := Count(counters, s);
      counters := counters[s := count + 1];
    }

    /** `reset`: mark the counts invalid and set every existing counter to zero. */
    method Reset()
      modifies this
      ensures counters == Zeroed(old(counters)) && !countsValid
    {
      countsValid := false;
      var keys := counters.Keys;
      while keys != {}
        invariant keys <= counters.Keys == old(counters).Keys && !countsValid
        invariant forall s :: s in counters ==> counters[s] == if s in keys then old(counters)[s] else 0
        decreases keys
      {
        var key :| key in keys;
        counters := counters[key := 0];
        keys := keys - {key};
      }
      assert counters.Keys == Zeroed(old(counters)).Keys;
    }

    /** `countFinished`: the counts are up to date again; no counter changes. */
    method CountFinished()
      modifies this
      ensures countsValid && counters == old(counters)
    {
      countsValid := true;
    }

    /**
     * `generateCounts`: reset, then scan the grid row by row and count the species of every
     * occupied cell; afterwards each species on the grid, and each old counter, holds its
     * cell count, and the counts are valid.
     */
    method GenerateCounts(e: Eco)
      modifies this
      ensures counters == Generated(old(counters).Keys, e) && countsValid
    {
      ghost var keys := counters.Keys;
      Reset();
      TallyStart(keys, e);
      var row := 0;
      while row < Rows(e.field)
        invariant 0 <= row <= Rows(e.field)
        invariant counters == Tally(keys, e, row, 0)
      {
        var col := 0;
        while col < Cols(e.field)
          invariant 0 <= col <= Cols(e.field)
          invariant counters == Tally(keys, e, row, col)
        {
          var organism := SpeciesAt(e, Loc(row, col));
          TallyStep(keys, e, row, col);
          if organism.Some? {
            IncrementCount(organism.value);
          }
          col := col + 1;
        }
        TallyNextRow(keys, e, row);
        row := row + 1;
      }
      TallyDone(keys, e);
      countsValid := true;
    }

    /**
     * `isViable`: regenerate the counts if they are invalid, then count the non-zero
     * counters; viable when more than one is non-zero. Valid counts are used as they are.
     */
    method IsViable(e: Eco) returns (viable: bool)
      modifies this
      ensures old(countsValid) ==> counters == old(counters)
      ensures !old(countsValid) ==> counters == Generated(old(counters).Keys, e)
      ensures countsValid
      ensures viable <==> |NonZero(counters)| > 1
    {
      var nonZero := 0;
      if !countsValid {
        GenerateCounts(e);
      }
      var keys := counters.Keys;
      while keys != {}
        invariant keys <= counters.Keys
        invariant nonZero == |set s | s in counters && s !in keys && counters[s] > 0|
        decreases keys
      {
        var key :| key in keys;
        ghost var before := set s | s in counters && s !in keys && counters[s] > 0;
        if counters[key] > 0 {
          nonZero := nonZero + 1;
          assert (set s | s in counters && s !in keys - {key} && counters[s] > 0) == before + {key};
        } else {
          assert (set s | s in counters && s !in keys - {key} && counters[s] > 0) == before;
        }
        keys := keys - {key};
      }
      assert (set s | s in counters && s !in keys && counters[s] > 0) == NonZero(counters);
      viable := nonZero > 1;
    }
  }

  /** Counting one more cell of row `r` adds one to the counter of the species it holds, if any. */
  lemma TallyStep(keys: set<Species>, e: Eco, r: nat, c: nat)
    ensures Tally(keys, e, r, c + 1) ==
      match SpeciesAt(e, Loc(r, c))
      case None => Tally(keys, e, r, c)
      case Some(t) => Tally(keys, e, r, c)[t := Count(Tally(keys, e, r, c), t) + 1]
  {
    var a, b := Tally(keys, e, r, c), Tally(keys, e, r, c + 1);
    assert RowCount(e, Grass, r, c + 1) == RowCount(e, Grass, r, c) + (if SpeciesAt(e, Loc(r, c)) == Some(Grass) then 1 else 0);
    match SpeciesAt(e, Loc(r, c))
    case None =>
      forall s ensures (s in b <==> s in a) && (s in b ==> b[s] == a[s]) {
        AllSpeciesComplete(s);
      }
    case Some(t) =>
      var a' := a[t := Count(a, t) + 1];
      forall s ensures (s in b <==> s in a') && (s in b ==> b[s] == a'[s]) {
        AllSpeciesComplete(s);
      }
  }

  /** Before the scan, the zeroed counters. */
  lemma TallyStart(keys: set<Species>, e: Eco)
    ensures Tally(keys, e, 0, 0) == map s | s in keys :: 0
  {
    var a, b := Tally(keys, e, 0, 0), map s | s in keys :: 0;
    forall s ensures (s in a <==> s in b) {
      AllSpeciesComplete(s);
    }
  }

  /** A finished row is the start of the next one. */
  lemma TallyNextRow(keys: set<Species>, e: Eco, r: nat)
    ensures Tally(keys, e, r, Cols(e.field)) == Tally(keys, e, r + 1, 0)
  {
  }

  /** A finished scan is `Generated`. */
  lemma TallyDone(keys: set<Species>, e: Eco)
    ensures Tally(keys, e, Rows(e.field), 0) == Generated(keys, e)
  {
    var a, b := Tally(keys, e, Rows(e.field), 0), Generated(keys, e);
    forall s ensures (s in a <==> s in b) {
      AllSpeciesComplete(s);
    }
  }

  /** A freshly constructed `FieldStats` has valid, empty counts, so it answers "not viable" without a scan. */
  method FreshStatsNotViable(e: Eco) returns (viable: bool)
    ensures !viable
  {
    var stats := new FieldStats();
    viable := stats.IsViable(e);
    assert stats.counters == map[];
  }

  /** After `reset`, `isViable` scans the grid and answers exactly whether the simulation is viable. */
  method ViableAfterReset(stats: FieldStats, e: Eco) returns (viable: bool)
    modifies stats
    ensures viable == Viable(e)
    ensures stats.countsValid
  {
    stats.Reset();
    ghost var keys := stats.counters.Keys;
    viable := stats.IsViable(e);
    GeneratedViable(keys, e);
  }
}
