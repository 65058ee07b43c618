/**
 * The host's game objects as the ant sees them at one sighting. Each carries
 * the host object's identity (`id`, standing for the C# reference), its
 * position relative to the anthill, and the attributes the decision logic
 * reads, as they were at that sighting. Host answers that the core only
 * queries (`NeedsCarrier`) are snapshot fields.
 */
module Items {
  import opened Geometry

  /** Sugar or fruit. `needsCarriers` is the host's `NeedsCarrier(fruit)`. */
  datatype Food = Food(id: nat, pos: Coord, amount: int, needsCarriers: bool)

  /** An enemy ant or a bug. */
  datatype Insect = Insect(id: nat, pos: Coord, energy: int, carriesFruit: bool, load: int)

  /** The C# reference of a sugar heap or fruit. */
  function FoodRef(f: Food): nat { f.id }

  /** The C# reference of an enemy ant or bug. */
  function InsectRef(i: Insect): nat { i.id }

  /** An enemy ant that carries fruit or sugar: the ants commanders and
      scouts report. */
  predicate IsRaider(a: Insect) {
    a.carriesFruit || a.load > 0
  }

  /** Any item a target or a destination can name. */
  datatype Item =
    | SugarItem(sugar: Food)
    | FruitItem(fruit: Food)
    | AntItem(ant: Insect)
    | BugItem(bug: Insect)
    | AnthillItem

  /** `GetCoordinate(item)`: the item's position relative to the anthill. */
  function PositionOf(item: Item): (c: Coord)
    requires !item.AnthillItem?
  {
    match item
    case SugarItem(f) => f.pos
    case FruitItem(f) => f.pos
    case AntItem(a) => a.pos
    case BugItem(b) => b.pos
  }
}
