# Ecosystem simulator, modelled in Dafny

The system is a step engine for an ecosystem on a rectangular grid. The grid holds four kinds of
organism: grass, deer, trees and fire. Each step runs one pass per species, in the order grass,
deer, tree, fire. In its pass every organism of that species does the same things in a fixed order:
- it ages, and dies past its maximum age;
- it grows hungrier, and dies at zero food (grass has no hunger);
- it breeds into free neighbouring cells;
- it eats a neighbouring organism of a prey species (deer and trees eat grass; fire consumes trees or
  grass, gated by an extra draw);
- it moves to the food cell or a free neighbour, or dies of overcrowding.

Newborns are kept in a staging list and join the species list only after all four passes. A dead
organism is removed from its list during its own pass. The constructor and `reset` populate the grid
cell by cell. `simulate` runs steps while a `FieldStats` counter table says that more than one species
is left.

The project has two layers.

- **Functional model.**
  - `Field` is the grid: a map from cells to occupant ids, with 8-neighbour adjacency clipped to the
    bounds. The order in which neighbours are listed is an input permutation.
  - `Species` holds each species' constants.
  - `Organism` holds the organism records and the grid/record link `Valid`. It also has one function
    per organism operation: `setDead`, `setLocation`, `incrementAge`, `incrementHunger`, `breed`,
    `giveBirth`, `findFood`, the move, and a whole update (`Act`).
  - `Life` and `Kinds` prove what one update does, both in general and species by species.
  - `Steps` models a species pass. `Protocol` models a step and a run. `Setup` models
    `populate`/`reset` and the constructor.
  - `Stats` holds the viability count.
- **Imperative model.**
  - `Machine.Simulator` is a class. Its fields are the grid, the organism table, the four lists and
    the step counter. Its methods follow the source's loops: the `giveBirth` loop, the `findFood`
    iterator loop, the four pass loops with removal, and the nested `populate` loops. Each method is
    proved to leave exactly the state its functional counterpart computes.
  - `Stats.FieldStats` is the counter class, with the lazy `countsValid` flag.

Randomness is an input:
- every `nextDouble() <= p` is a boolean;
- every `nextInt(n)` is a number below `n`;
- every shuffle is a permutation of the eight neighbour offsets.

The draws of one organism update form one `Draws` value. A step takes them from a `Source`, indexed by
step number, species and list position. `populate` takes one `CellDraw` per cell.

Two calls in the source do not compile. The model resolves each by its evident intent:
- `Simulator.java:273` calls `tree.grow`, but `Tree.java` defines only `hunt`. The tree pass runs `hunt`.
- `Fire.java:169` calls `tree.setDead()`, but `Tree.setDead` is `private` (`Tree.java:215`). Fire kills
  the tree through the shared `Organism.SetDead`, the same way it kills grass, whose `setDead` is public
  (`Grass.java:91`).

One detail is modelled as written. Fire's consumption
probability is 0 (`Fire.java:26`). `nextDouble()` can return 0.0, so the fire's consumption test stays
a boolean draw rather than being treated as always false. The doc comment of `Tree.hunt` says that
trees do not move. The code moves them like deer (`Tree.java:78-90`), and the model follows the code.

In `Simulator.java:302-308` the staged newborns join the lists after all four passes. `Protocol.Phase`
joins each species' newborns to that species' list at the end of its own pass. The two orders give the
same lists, because each pass reads only its own species' list and only that pass stages newborns of
the species.

## Model

| member | source | states |
|---|---|---|
| Field.ObjectAt | Deer.java:161 | a cell in bounds is reported occupied exactly when the grid holds an id there, and then that id |
| Field.Place | Deer.java:125 | `place` keeps the dimensions and leaves the cell holding the new occupant |
| Field.Clear | Deer.java:122 | `clear` keeps the dimensions and leaves the cell empty |
| Field.PlaceThenGet | Deer.java:125 | after `place` the cell holds the new occupant and every other cell is unchanged |
| Field.ClearThenGet | Deer.java:122 | after `clear` the cell is empty and every other cell is unchanged |
| Field.ClearAll | Simulator.java:362 | after `field.clear()` every cell in bounds is empty and the dimensions are unchanged |
| Field.AdjacentComplete | Deer.java:157 | with a shuffled order the adjacency list has no repeats and holds exactly the in-bounds neighbours |
| Field.InteriorHasEight | Deer.java:157 | an interior cell has all eight neighbours in its adjacency list |
| Field.AdjacentCount | Deer.java:157 | with distinct offsets the adjacency list has one cell per offset that stays inside the grid |
| Field.CornerHasThree | Deer.java:157 | a corner cell of a grid at least 2 x 2 has three neighbours |
| Field.EdgeHasFive | Deer.java:157 | a top-edge cell away from the corners, in a grid at least two deep, has five neighbours |
| Field.FreeAdjacentComplete | Deer.java:183 | the free-neighbour list has no repeats and holds exactly the empty in-bounds neighbours |
| Field.AdjacentLocations | Deer.java:157 | the adjacency list has at most one cell per offset tried, all in bounds and adjacent |
| Field.AdjacentDistinct | Deer.java:157 | a repeat-free offset order gives a repeat-free adjacency list |
| Field.AdjacentMembers | Deer.java:157 | a cell is listed exactly when it is in bounds and the neighbour at one of the ordered offsets |
| Field.FreeAdjacentLocations | Deer.java:183 | every listed free cell is an empty in-bounds neighbour |
| Field.FreeOf | Deer.java:183 | the free cells are exactly the listed cells that are empty, never more of them, without repeats when the list has none |
| Field.FreeAdjacentLocation | Deer.java:84 | the chosen cell is an empty in-bounds neighbour; there is none exactly when the free list is empty |
| Field.NoFreeMeansCrowded | Deer.java:84-92 | no free neighbour is found exactly when every in-bounds neighbour is occupied |
| Species.NoCannibals | Deer.java:162 | no species eats its own kind |
| Organism.GiveBirth | Deer.java:179-190 | `giveBirth` hands out one new id per newborn, keeps the dimensions, leaves the parent and every old record in the table |
| Organism.BirthCells | Deer.java:183 | the candidate birth cells are in bounds |
| Organism.FoodCells | Deer.java:157 | the cells `findFood` looks at are in-bounds neighbours of the organism |
| Organism.Create | Deer.java:51-65 | a new organism is alive where it is placed; age 0, or below MAX_AGE with `randomAge`; food below 9 (none for grass) |
| Organism.AddAgent | Deer.java:51-57 | the constructor registers the organism under the next fresh id and places it on its cell; its contract is `Organism.AddAgentRecords` |
| Organism.AddAgentRecords | Deer.java:51-57 | the new organism gets the next id, which is used up, and is found on its cell; old records and the dimensions are unchanged |
| Organism.AddAgentValid | Deer.java:51-65 | creating a live organism on an empty cell keeps grid and records linked, with a fresh id |
| Organism.SetDead | Deer.java:218-226 | the organism becomes dead with no location; nothing else changes in its table |
| Organism.SetDeadValid | Grass.java:91-99 | `setDead` keeps grid and records linked and empties exactly the organism's cell |
| Organism.SetDeadTwice | Grass.java:91-99 | a second `setDead` changes nothing |
| Organism.SetLocation | Deer.java:119-126 | only the organism's recorded location changes, to the new cell |
| Organism.SetLocationValid | Deer.java:119-126 | after `setLocation` the organism occupies exactly the new cell; its old cell is cleared and no other cell changes |
| Organism.IncrementAge | Deer.java:131-137 | age rises by one; the organism stays alive exactly when it was alive and the new age is at most MAX_AGE; nobody else changes |
| Organism.IncrementHunger | Deer.java:142-148 | food falls by one; the organism stays alive exactly when it was alive and food stays positive; nobody else changes |
| Organism.IncrementAgeValid | Tree.java:128-134 | aging keeps grid and records linked |
| Organism.IncrementHungerValid | Tree.java:139-145 | hunger keeps grid and records linked |
| Organism.CanBreed | Deer.java:209-212 | an organism can breed only at a non-negative age, and every species can from age 15 |
| Organism.Breed | Deer.java:197-212 | no births below the breeding age; otherwise `nextInt(MAX_LITTER_SIZE) + 1` when the draw succeeds (always for tree and fire), else 0 |
| Organism.LitterSize | Deer.java:181-185 | the number of newborns placed is at most the species' maximum litter and at most the number of free neighbours |
| Organism.Newborn | Fire.java:200-201 | a newborn is alive on its cell; age 0, except fire, whose age is below 4 |
| Organism.PlaceNewbornsRecords | Deer.java:185-189 | the first `n` rounds of the birth loop create `n` newborns with consecutive fresh ids on the first `n` free cells; no old organism changes |
| Organism.PlaceNewbornsIds | Deer.java:185-189 | the first `n` rounds of the birth loop return the ids `nextId .. nextId + n - 1` in order, and those are the only new keys |
| Organism.AddNewbornAgents | Deer.java:185-189 | one more round of the birth loop adds the next newborn on the next free cell and keeps all earlier newborns and old records |
| Organism.PlaceNewbornsAgents | Deer.java:185-189 | after `n` rounds the birth with id `nextId + i` is the newborn made from the `i`-th free cell; old records are unchanged |
| Organism.PlaceNewbornsCells | Deer.java:185-189 | on distinct free cells, the birth loop occupies the first `n` cells of the list, leaves the rest of the list empty, keeps every occupied cell's occupant and fills no other cell |
| Organism.PlaceNewbornsValid | Deer.java:185-189 | the birth loop keeps grid and records linked, fills the used cells and leaves the rest free |
| Organism.PlaceNewborns | Deer.java:185-189 | `n` rounds of the birth loop hand out exactly `n` new ids and keep the dimensions |
| Organism.GiveBirthRecords | Deer.java:179-190 | `giveBirth` creates min(births, free cells) newborns, the i-th on the i-th free neighbour |
| Organism.GiveBirthCells | Grass.java:140-151 | the birth cells are distinct, in bounds, adjacent and previously empty |
| Organism.GiveBirthValid | Deer.java:179-190 | `giveBirth` keeps grid and records linked and occupies only birth cells |
| Organism.FirstPrey | Deer.java:158-170 | the iterator loop stops at the first food candidate; no earlier candidate is food |
| Organism.FindFood | Deer.java:155-172 | on success the reported cell is an adjacent in-bounds cell and food becomes 9; on failure nothing changes; which prey is eaten is stated by `Organism.FindFoodFirst` |
| Organism.FindFoodFirst | Fire.java:154-186 | the eaten cell is the first candidate in the shuffled adjacency order that is food, with no earlier candidate food; for Fire a candidate is food only if its draw succeeded; nothing is reported exactly when no candidate is food |
| Organism.FindFoodFrame | Fire.java:159-186 | besides the eater only its prey changes: a live organism of a species it eats on the reported cell, which becomes dead with no location |
| Organism.FindFoodFacts | Deer.java:155-172 | food is found in a live prey's cell, which is cleared; with no gate and none found, no neighbour is edible |
| Organism.Move | Deer.java:81-93 | only the organism's location or life changes |
| Organism.MoveFacts | Deer.java:81-93 | the organism moves to the food cell, else to a free neighbour, else dies with no location |
| Organism.AgeAndHunger | Deer.java:76-77 | age rises by one and food by hunger; alive exactly when neither limit was crossed; a survivor stays in place |
| Organism.Act | Deer.java:74-95 | an update never removes an organism from the table |
| Organism.OneOrganismPerCell | Deer.java:119-126 | two distinct live organisms never share a location |
| Life.AgeAndHungerValid | Deer.java:76-77 | aging and hunger keep grid and records linked |
| Life.ActValid | Deer.java:74-95 | a whole update keeps grid and records linked |
| Life.ActKeys | Simulator.java:243-251 | an update's newborns get consecutive fresh ids and are the only new records |
| Life.ActFrame | Deer.java:155-172 | an update changes at most one other organism: a prey, which dies |
| Life.ActNewborns | Deer.java:76-79 | an organism dead after aging or hunger has no newborns; otherwise min(births, free cells), each a newborn on its birth cell |
| Life.FindFoodSparesKin | Deer.java:162 | foraging never harms an organism of the eater's own species |
| Life.GiveBirthNewborn | Deer.java:186-188 | each newborn of `giveBirth` has the parent's species and its birth cell |
| Life.NewbornSurvives | Deer.java:79-93 | foraging and the move leave each newborn as it was born |
| Life.ActSelf | Deer.java:74-95 | after an update age is one higher; a survivor was alive, not too old, not starved, and stands on an adjacent cell; a dead one has no location |
| Life.ActCrowded | Deer.java:90-92 | an organism that survived aging and hunger but died in the update had every neighbour occupied |
| Life.MoveCrowded | Grass.java:65-74 | the move kills only when no food was found and every neighbour is occupied |
| Life.IncrementAgeCells | Fire.java:135-141 | aging clears at most the organism's own cell |
| Life.IncrementHungerCells | Fire.java:146-152 | hunger clears at most the organism's own cell |
| Life.ActDeadEarly | Deer.java:76-78 | an organism dead after aging or hunger neither breeds, eats nor moves; only its own cell is cleared |
| Kinds.BreedBySpecies | Grass.java:158-174 | per species: grass 0 below age 5 else up to 4; deer 0 below 15 else up to 2; tree always 1; fire 0 below 2 else 1 |
| Kinds.MoveAvoidsNewborns | Grass.java:65-74 | the move target is never a newborn's cell |
| Kinds.GrassRun | Grass.java:61-76 | grass keeps its food level and ages by one; it dies only of age above 40 or of overcrowding |
| Kinds.TreeHunt | Tree.java:71-92 | a tree alive after aging and hunger produces exactly one age-0 newborn on a previously empty adjacent cell when it has a free neighbour, and none otherwise |
| Kinds.FireLitter | Fire.java:193-226 | fire produces at most one newborn and none below age 2; a newborn fire has age in [0,4) and food in [0,9) |
| Kinds.FireGate | Fire.java:159-186 | when every consumption draw fails, `findFood` returns null and changes nothing |
| Kinds.FireGateAct | Fire.java:78-99 | when every consumption draw fails, a fire's update changes no other organism |
| Steps.ReadyUnderValid | Simulator.java:225-298 | under the grid/record link every listed organism can be updated |
| Steps.Next | Simulator.java:249-257 | one loop round never removes a record and keeps the dimensions |
| Steps.NextValid | Simulator.java:249-257 | one loop round keeps grid and records linked |
| Steps.NextKeys | Simulator.java:251-253 | a round appends its newborns to the staging list with consecutive fresh ids; they are the only new records |
| Steps.NextSpecies | Simulator.java:249-257 | a round changes no organism's species |
| Steps.NextOther | Simulator.java:249-257 | a round leaves every other organism as it was, or kills one live prey of a species the actor eats |
| Steps.NextNewborns | Simulator.java:251-253 | every organism created in a round is a newborn of the actor's species |
| Steps.NextSelf | Simulator.java:249-257 | the actor ages by one and is kept in the list exactly when it is alive afterwards, which requires it was alive before |
| Steps.NextNoRevival | Simulator.java:249-257 | a round brings no dead organism back to life |
| Steps.Pass | Simulator.java:247-259 | a pass never removes a record and keeps the dimensions |
| Steps.Survivors | Simulator.java:231-233 | the organisms kept are exactly the listed ones still alive |
| Steps.SurvivorsInOrder | Simulator.java:225-237 | the survivors keep the relative order they had in the list |
| Steps.SurvivorsSame | Simulator.java:231-233 | removal depends only on which listed organisms are alive |
| Steps.PassValid | Simulator.java:225-237 | a pass keeps grid and records linked |
| Steps.PassKeys | Simulator.java:221-229 | the pass's newborns get consecutive fresh ids |
| Steps.PassSpecies | Simulator.java:225-298 | no organism changes species |
| Steps.PassOutsiders | Simulator.java:225-298 | an organism outside the pass's list is untouched unless it is eaten by a species that eats it |
| Steps.PassNewborns | Simulator.java:221-229 | every newborn of a pass is alive at the pass's end with its birth age: 0, or for fire an age in [0, 4), a range that alone does not show it was not updated (`Protocol.StepIteratesOld` does) |
| Steps.PassNewbornsPlaced | Simulator.java:225-298 | a pass's newborns already stand on their cells when the next pass starts |
| Steps.PassInsiders | Simulator.java:247-259 | each organism of a repeat-free list acts exactly once: it is one step older |
| Steps.PassKept | Simulator.java:231-233 | the list kept by the pass is the survivors of the old list at the pass's end |
| Steps.PassNoRevival | Simulator.java:225-298 | no dead organism comes back to life |
| Steps.SurvivorsDistinct | Simulator.java:231-233 | removal keeps a list free of repeats |
| Steps.PassTracksOther | Simulator.java:225-298 | a pass keeps every other species' list complete and repeat-free |
| Steps.PassTracksOwn | Simulator.java:302-308 | survivors plus newborns list every live organism of the species, without repeats |
| Protocol.With | Simulator.java:302-308 | replacing one species' list leaves the other three as they were |
| Protocol.Phase | Simulator.java:225-308 | a species pass keeps the step counter and the dimensions |
| Protocol.Phases | Simulator.java:225-298 | the first `k` passes of a step keep the step counter and the dimensions |
| Protocol.StepUnfold | Simulator.java:211-314 | a step is the increment of `step`, then the grass, deer, tree and fire passes, in that order |
| Protocol.PhasesOk | Simulator.java:225-308 | any prefix of the four passes keeps the grid/record link and every list tracking its species |
| Protocol.PhaseOthers | Simulator.java:225-308 | a species pass leaves the other three species' lists as they were |
| Protocol.PhasesLater | Simulator.java:225-308 | a species' list is unchanged until its own pass runs |
| Protocol.PhasesNewbornAges | Simulator.java:221-308 | through any prefix of the passes ids only grow, and every organism created so far still has age 0, or for fire an age in [0, 4) |
| Protocol.Step | Simulator.java:215 | a step increases `step` by exactly one and keeps the dimensions |
| Protocol.PhaseOk | Simulator.java:225-308 | a pass keeps the grid/record link and every list tracking its species |
| Protocol.StepOk | Simulator.java:211-314 | a whole step keeps the grid/record link and all four lists consistent |
| Protocol.PhaseLists | Simulator.java:302-308 | a list becomes its survivors in order, then the pass's newborns in birth order; the list's new length is survivors plus newborns; the other lists are untouched |
| Protocol.PhaseIds | Simulator.java:221-229 | a pass only hands out new ids |
| Protocol.PhaseDropsDead | Simulator.java:229-233 | an organism dead when its species' pass starts is removed from the list |
| Protocol.StepGrassLags | Simulator.java:229-233 | the grass list after a step is the one the grass pass left, so grass eaten later in the step stays listed |
| Protocol.PhaseNewbornAges | Simulator.java:282-308 | organisms created earlier in the step, if outside the pass's list, keep age 0 (for fire an age in [0, 4)) through a later pass |
| Protocol.ListsBefore | Simulator.java:225-298 | every organism the passes iterate over existed before the step |
| Protocol.StepNewbornAges | Simulator.java:221-308 | when a step ends every organism it created has age 0, or for fire an age in [0, 4) |
| Protocol.StepIteratesOld | Simulator.java:221-308 | every pass of a step iterates only organisms that existed before the step, so no newborn is updated in the step it was created |
| Protocol.Run | Simulator.java:187-199 | at most `numSteps` steps; fewer only if the field is no longer viable; none when it is not viable at the start |
| Protocol.Iterate | Simulator.java:187-199 | for any step function: at most `n` steps; fewer only if the field is no longer viable; none when it is not viable at the start |
| Protocol.IterateKeeps | Simulator.java:187-199 | a property every step keeps holds after the whole loop |
| Protocol.IterateSplit | Simulator.java:187-199 | looping m times, then n, is looping m + n times |
| Protocol.Stepper | Simulator.java:211-215 | every step adds exactly one to `step` and keeps the dimensions |
| Protocol.RunUnroll | Simulator.java:189-198 | on a viable field a run of n > 0 steps is one step followed by a run of n - 1 |
| Protocol.RunOk | Simulator.java:187-199 | every run keeps the world consistent |
| Protocol.RunSplit | Simulator.java:187-199 | running m steps, then n, is running m + n steps |
| Setup.Choose | Simulator.java:368-403 | the creation draws are tried in the order deer, grass, tree, fire; the first success wins |
| Setup.PopCell | Simulator.java:368-403 | one cell keeps the dimensions and the step |
| Setup.PopRow | Simulator.java:366-407 | a row of `populate` keeps the dimensions and the step |
| Setup.PopRows | Simulator.java:364-409 | the row loop of `populate` keeps the dimensions and the step |
| Setup.Populate | Simulator.java:356-411 | `populate` keeps the dimensions and the step |
| Setup.Reset | Simulator.java:324-346 | `reset` sets `step` to 0 |
| Setup.Dimensions | Simulator.java:111-121 | non-positive width or depth gives 12 x 12; positive dimensions are kept |
| Setup.NewWorld | Simulator.java:107-155 | the constructor's grid has the chosen dimensions, at step 0 |
| Setup.AddTracks | Simulator.java:372-402 | adding an organism to its own list keeps every list complete and repeat-free |
| Setup.PopCellOk | Simulator.java:368-403 | creating an organism on an empty cell keeps the world consistent |
| Setup.PopCellVisited | Simulator.java:364-409 | visiting a cell fills it exactly when a species was chosen |
| Setup.PopCellChosen | Simulator.java:368-403 | the organism on a cell is of the species chosen for it |
| Setup.PopCellValid | Simulator.java:368-403 | creating an organism on an empty cell keeps grid and records linked |
| Setup.PopCellYoung | Simulator.java:370-402 | every organism `populate` creates is alive and below its maximum age |
| Setup.PopRowVisited | Simulator.java:366-407 | after a row's first `cols` cells, exactly the visited cells whose draw chose a species are occupied |
| Setup.PopRowValid | Simulator.java:366-407 | a row keeps grid and records linked |
| Setup.PopRowOk | Simulator.java:366-407 | a row keeps the world consistent |
| Setup.PopRowChosen | Simulator.java:366-407 | after a row every occupied cell still holds the species chosen for it |
| Setup.PopRowYoung | Simulator.java:366-407 | after a row every organism is alive and below its maximum age |
| Setup.RowDone | Simulator.java:364-366 | the cells visited once a row is finished are those before the next row's first cell |
| Setup.PopRowsVisited | Simulator.java:364-409 | after the first `rows` rows, exactly the visited cells whose draw chose a species are occupied |
| Setup.PopRowsValid | Simulator.java:364-409 | the row loop keeps grid and records linked |
| Setup.PopRowsOk | Simulator.java:364-409 | the row loop keeps the world consistent |
| Setup.PopRowsChosen | Simulator.java:364-409 | after the row loop every occupied cell holds the species chosen for it |
| Setup.PopRowsYoung | Simulator.java:364-409 | after the row loop every organism is alive and below its maximum age |
| Setup.ResetOk | Simulator.java:324-411 | after `reset`: a consistent world at step 0; each cell holds an organism exactly when a species was chosen, and of that species; every organism is alive and below its maximum age |
| Setup.NewWorldOk | Simulator.java:107-155 | the constructor leaves a consistent world |
| Stats.AllSpeciesComplete | FieldStats.java:67-77 | every species has a counter slot |
| Stats.RowCountPositive | FieldStats.java:115-127 | a row's count is positive exactly when a cell of the row holds the species |
| Stats.RowsCountPositive | FieldStats.java:115-127 | the rows' count is positive exactly when a cell of those rows holds the species |
| Stats.CellCountPositive | FieldStats.java:115-127 | a species' count is positive exactly when some cell in bounds holds it |
| Stats.Viable | FieldStats.java:92-106 | viable while more than one species has cells on the grid; `Stats.ViableTwoSpecies` states it as two distinct species with non-zero counts |
| Stats.ViableTwoSpecies | FieldStats.java:92-106 | viable exactly when two different species have a non-zero count |
| Stats.GeneratedViable | FieldStats.java:92-127 | after a scan the non-zero counters are exactly the species on the grid, so the counter test is grid viability |
| Stats.TallyStep | FieldStats.java:117-123 | one more cell adds one to the counter of its occupant's species, or nothing for an empty cell |
| Stats.TallyStart | FieldStats.java:115-116 | the scan starts from the old counters, zeroed |
| Stats.TallyNextRow | FieldStats.java:117-125 | a finished row hands over to the next row |
| Stats.TallyDone | FieldStats.java:115-127 | the finished scan gives every species its cell count |
| Stats.FieldStats.constructor | FieldStats.java:22-28 | a new table has no counters and is valid |
| Stats.FieldStats.IncrementCount | FieldStats.java:67-77 | an unseen species gets count 1; otherwise its count rises by one; other counters are unchanged |
| Stats.FieldStats.Reset | FieldStats.java:54-61 | every counter becomes zero, the key set stays the same, and the counts are marked invalid |
| Stats.FieldStats.CountFinished | FieldStats.java:82-85 | the counts are marked valid and no count changes |
| Stats.FieldStats.GenerateCounts | FieldStats.java:115-127 | each species' counter equals the number of cells holding it, old counters are kept, and the counts are valid |
| Stats.FieldStats.IsViable | FieldStats.java:92-106 | counts are regenerated only when invalid; the answer is true exactly when more than one counter is non-zero |
| Stats.FreshStatsNotViable | FieldStats.java:22-28 | a new table is not viable |
| Stats.ViableAfterReset | FieldStats.java:54-106 | after `reset`, `isViable` recounts and answers grid viability |
| Machine.Simulator.constructor | Simulator.java:107-155 | the new simulator is the functional constructor's world |
| Machine.Simulator.SetDead | Deer.java:218-226 | the grid and records become those of `setDead` |
| Machine.Simulator.SetLocation | Deer.java:119-126 | the grid and records become those of `setLocation` |
| Machine.Simulator.IncrementAge | Deer.java:131-137 | the grid and records become those of `incrementAge` |
| Machine.Simulator.IncrementHunger | Deer.java:142-148 | the grid and records become those of `incrementHunger` |
| Machine.Simulator.PlaceLitter | Deer.java:185-189 | the birth loop's state is min(births, free) rounds of placing newborns |
| Machine.Simulator.GiveBirth | Deer.java:179-190 | the grid, records and newborns are those of `giveBirth` |
| Machine.Simulator.FindFood | Deer.java:155-172 | the iterator loop's result and state are those of `findFood` |
| Machine.Simulator.Act | Deer.java:74-95 | the grid, records and newborns are those of one update |
| Machine.Simulator.SetList | Simulator.java:302-308 | exactly one species' list is replaced |
| Machine.Simulator.Turn | Simulator.java:247-257 | one loop round: act, collect newborns, keep the organism only if alive |
| Machine.Simulator.RunPass | Simulator.java:243-259 | a pass loop leaves the state of the functional pass |
| Machine.Simulator.SimulateOneStep | Simulator.java:211-314 | the state becomes that of one step |
| Machine.Simulator.Simulate | Simulator.java:187-199 | the state becomes that of a run of at most `numSteps` steps guarded by viability; a count below one leaves the state unchanged |
| Machine.Simulator.RunLongSimulation | Simulator.java:167-173 | a run of 4000 steps |
| Machine.Simulator.Spawn | Simulator.java:370-374 | an organism with random age is created on the cell and added to its list |
| Machine.Simulator.PopulateCell | Simulator.java:368-403 | one cell of `populate` |
| Machine.Simulator.PopulateRow | Simulator.java:366-407 | the inner loop leaves the state of one row of `populate` |
| Machine.Simulator.Populate | Simulator.java:356-411 | the nested loops leave the state of `populate` |
| Machine.Simulator.Reset | Simulator.java:324-346 | the state becomes that of `reset` |

## Left out

- The graphical view is not modelled: `SimulatorView`, `setColor` and `showStatus`.
- `view.isViable` is not modelled separately. `simulate` asks a `FieldStats` table, reset before each
  question, which then recounts the grid. This gives the same answer the view's table gives, since
  `showStatus` recounts after every step.
- `delay` and `Thread.sleep` are timing only.
- `java.util.Random`, `Randomizer` and `Collections.shuffle` are inputs, not generators. A shuffle is
  any permutation of the eight neighbour offsets.
- Floating-point comparisons `nextDouble() <= p` are booleans. The exception is p = 1.0 (tree and fire
  breeding), which always succeeds.
- Fire's consumption draws: in the source only live prey cells draw. The model gives one boolean per
  adjacency position; only those at live-prey positions are looked at.
- `Field`, `Location` and the counting helper `Counter` are not part of this model. The grid is an
  abstract map from cells to occupant ids, and the neighbour order is an input.
- `getPopulationDetails` is not modelled. It builds a display string by iterating a hash map in
  unspecified order.
- Organisms are records in a table indexed by ids that are never reused; they are not objects.
  - Object aliasing and the `field = null` back-reference are not modelled.
  - `populate` drops the old records, which are unreachable in the source.
  - The organisms' own methods are methods of `Machine.Simulator` acting on that table.
- Grass has no food level in the source. Its record's food is 0 and never changes.
- The constructor prints two messages to standard output when it replaces non-positive
  dimensions by 12 x 12. Console output is not modelled; the replacement is (`Setup.Dimensions`).
- Java `int` overflow of `step`, ages and food levels is not modelled; integers are unbounded.
- Steps.Pass: every update is guarded by `Steps.Ready` (the organism is recorded and its draws are in
  range). `Steps.ReadyUnderValid` proves the guard always holds in a consistent world.
- Protocol.Run: viability is read from the grid directly. `Machine.Simulator.Simulate` obtains it
  through `FieldStats`. The step count is a natural number. `Simulate` takes the source's `int` and
  runs `Run` with 0 steps for a negative count, as the source's loop does.
