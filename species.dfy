/**
 * The four species and the constants that make them differ. Each class of the source
 * (Grass, Deer, Tree, Fire) keeps its own copy of the same shape; here one table per
 * constant is indexed by the species tag.
 */
module Species {
  datatype Species = Grass | Deer | Tree | Fire

  /** The food value of one eaten organism (GRASS_FOOD_VALUE, 9, in Deer, Tree and Fire). */
  const FoodValue: int := 9

  /** BREEDING_AGE. */
  function BreedingAge(s: Species): int {
    match s
    case Grass => 5
    case Deer => 15
    case Tree => 0
    case Fire => 2
  }

  /** MAX_AGE: an organism dies once its age exceeds this. */
  function MaxAge(s: Species): nat {
    match s
    case Grass => 40
    case Deer => 150
    case Tree => 4000
    case Fire => 4
  }

  /** MAX_LITTER_SIZE. */
  function MaxLitter(s: Species): nat {
    match s
    case Grass => 4
    case Deer => 2
    case Tree => 1
    case Fire => 1
  }

  /**
   * Whether BREEDING_PROBABILITY is 1: `nextDouble()` lies in [0, 1), so the test
   * `nextDouble() <= 1.0` of Tree and Fire always succeeds; Deer (0.08) and Grass (0.12)
   * depend on the draw.
   */
  predicate AlwaysBreeds(s: Species) {
    s == Tree || s == Fire
  }

  /** Grass has no food level; the other three starve. */
  predicate HasHunger(s: Species) {
    s != Grass
  }

  /** What a forager eats: Deer and Tree eat Grass, Fire consumes Tree or Grass; Grass eats nothing. */
  predicate Eats(predator: Species, prey: Species) {
    match predator
    case Grass => false
    case Deer => prey == Grass
    case Tree => prey == Grass
    case Fire => prey == Tree || prey == Grass
  }

  /** Fire consumes a candidate only if a second draw is at most FIRE_DEATH_PROBABILITY. */
  predicate GatedByDraw(s: Species) {
    s == Fire
  }

  /** Fire's newborns are created with `randomAge` true; the others are born at age 0. */
  predicate NewbornRandomAge(s: Species) {
    s == Fire
  }

  /** No species eats its own kind, so a pass over one species never kills a member of it. */
  lemma NoCannibals(s: Species)
    ensures !Eats(s, s)
  {
  }
}
