/**
 * The `Signal` record carried by marks: an information type, the coordinates
 * of the object of interest, a hop count and an age.
 */
module Signals {
  import opened Geometry

  /** Information types, numbered as the type predicates of `Signal` test them. */
  const BugSpotted: nat := 0
  const AntSpotted: nat := 1
  const SugarSpotted: nat := 2
  const FruitNeedsCarriers: nat := 3
  const FruitNeedsProtection: nat := 4
  /** The coordinator's attack-point type. Its value is declared in code that
      is not part of this model; any value from 5 to 15 behaves the same here. */
  const AttackPointKind: nat := 5

  /** `infoType` is a C# `byte`, `hop` a `short`, `age` an `int`. */
  datatype Signal = Signal(infoType: nat, coords: Coord, hop: int, age: int) {
    predicate IsBugSpotted() { infoType == BugSpotted }
    predicate IsAntSpotted() { infoType == AntSpotted }
    predicate IsSugarSpotted() { infoType == SugarSpotted }
    predicate IsFruitNeedsCarriers() { infoType == FruitNeedsCarriers }
    predicate IsFruitNeedsProtection() { infoType == FruitNeedsProtection }
  }

  /** At most one of the five type predicates holds. */
  lemma TypePredicatesExclusive(s: Signal)
    ensures s.IsBugSpotted() ==> !s.IsAntSpotted() && !s.IsSugarSpotted() && !s.IsFruitNeedsCarriers() && !s.IsFruitNeedsProtection()
    ensures s.IsAntSpotted() ==> !s.IsSugarSpotted() && !s.IsFruitNeedsCarriers() && !s.IsFruitNeedsProtection()
    ensures s.IsSugarSpotted() ==> !s.IsFruitNeedsCarriers() && !s.IsFruitNeedsProtection()
    ensures s.IsFruitNeedsCarriers() ==> !s.IsFruitNeedsProtection()
  {
  }

  predicate IsByte(v: int) { 0 <= v < 0x100 }
  predicate IsShort(v: int) { -0x8000 <= v < 0x8000 }

  /** A C# `(short)` cast: two's-complement wrap-around into 16 bits. */
  function ToShort(v: int): (r: int)
    ensures IsShort(r)
    ensures IsShort(v) ==> r == v
    ensures (r - v) % 0x1_0000 == 0
  {
    (v + 0x8000) % 0x1_0000 - 0x8000
  }

  /** `new Signal(infoType, coordinates)`: a locally originated signal, hop
      count and age 0. */
  function NewSignal(infoType: nat, at: Coord): (s: Signal)
    ensures s.infoType == infoType && s.coords == at
    ensures s.hop == 0 && s.age == 0
  {
    Signal(infoType, at, 0, 0)
  }

  /** The copy constructor `new Signal(signal)` used to re-emit a received
      signal: same type and coordinates, hop count one higher (as a `short`),
      age back to 0. */
  function Relay(s: Signal): (r: Signal)
    ensures r.infoType == s.infoType && r.coords == s.coords
    ensures r.age == 0
    ensures IsShort(s.hop + 1) ==> r.hop == s.hop + 1
    ensures s.hop == 0x7FFF ==> r.hop == -0x8000
  {
    Signal(s.infoType, s.coords, ToShort(s.hop + 1), 0)
  }

  /** One `Age++`. */
  function Older(s: Signal): (r: Signal)
    ensures r.infoType == s.infoType && r.coords == s.coords && r.hop == s.hop
    ensures r.age == s.age + 1
  {
    s.(age := s.age + 1)
  }

  /** Every signal of a list one tick older, in place. */
  function Aged(list: seq<Signal>): (r: seq<Signal>)
    ensures |r| == |list|
    ensures forall i | 0 <= i < |list| :: r[i] == Older(list[i])
    decreases |list|
  {
    if list == [] then [] else [Older(list[0])] + Aged(list[1..])
  }
}
