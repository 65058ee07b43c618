/**
 * Positions relative to the anthill: the Cartesian `RelativeCoordinate`, the
 * polar `RotationCoordinates` of the older marker scheme, and the
 * coordinator's `AttackPoint`.
 *
 * Distances are never computed here. The source delegates them to code that
 * is not part of this model (`RelativeCoordinate.GetDistanceTo` and the
 * host's `Coordinate.GetDistanceBetween`), so every operation that needs one
 * takes a distance oracle `dist: (Coord, Coord) -> int` as a parameter.
 */
module Geometry {

  /** A `RelativeCoordinate`: an (X, Y) offset from the anthill. Being a
      datatype value it cannot change after construction, like the C# class
      whose setters are private. */
  datatype Coord = Coord(x: int, y: int)

  /** The distance oracle every cache and policy is parameterised by. */
  type Metric = (Coord, Coord) -> int

  /** The `RelativeCoordinate(x, y)` constructor: stores both offsets as given,
      with no clamping or normalisation. */
  function MakeCoord(x: int, y: int): (c: Coord)
    ensures c.x == x && c.y == y
  {
    Coord(x, y)
  }

  /** A `RotationCoordinates` value: a distance and a rotation in degrees. */
  datatype Polar = Polar(distance: int, rotation: int)

  /** The `RotationCoordinates(distance, rotation)` constructor. A negative
      distance is clamped to 0; a negative rotation is shifted once by +360,
      and nothing else is normalised. */
  function MakePolar(distance: int, rotation: int): (p: Polar)
    ensures p.distance >= 0
    ensures distance >= 0 ==> p.distance == distance
    ensures distance < 0 ==> p.distance == 0
    ensures rotation >= 0 ==> p.rotation == rotation
    ensures -360 <= rotation < 0 ==> 0 <= p.rotation < 360 && p.rotation == rotation + 360
    ensures rotation < -360 ==> p.rotation < 0
  {
    Polar(if distance < 0 then 0 else distance,
          if rotation < 0 then rotation + 360 else rotation)
  }

  /** Any rotation in [-360, 360) ends up in [0, 360), which is where the
      polar marker codec can carry it without loss. */
  lemma MakePolarNormalises(distance: int, rotation: int)
    requires -360 <= rotation < 360
    ensures 0 <= MakePolar(distance, rotation).rotation < 360
  {
  }

  /** An `AttackPoint`: a coordinate with a mutable priority and an age. */
  datatype AttackPoint = AttackPoint(at: Coord, priority: int, age: int) {

    /** A point is stale once it is older than 60 ticks. */
    predicate IsDeprecated() {
      age > 60
    }

    /** One `Age++`. */
    function Older(): (p: AttackPoint)
      ensures p.at == at && p.priority == priority && p.age == age + 1
    {
      this.(age := age + 1)
    }
  }

  /** `new AttackPoint(coordinate, priority)`: same offsets, the given
      priority, age 0. */
  function AttackPointAt(c: Coord, priority: int): (p: AttackPoint)
    ensures p.at.x == c.x && p.at.y == c.y
    ensures p.priority == priority && p.age == 0
    ensures !p.IsDeprecated()
  {
    AttackPoint(MakeCoord(c.x, c.y), priority, 0)
  }

  /** `new AttackPoint(x, y)`: priority and age both default to 0. */
  function AttackPointXY(x: int, y: int): (p: AttackPoint)
    ensures p.at == Coord(x, y) && p.priority == 0 && p.age == 0
  {
    AttackPoint(MakeCoord(x, y), 0, 0)
  }

  /** Ageing a point `n` times. */
  function AgedBy(p: AttackPoint, n: nat): (q: AttackPoint)
    ensures q.at == p.at && q.priority == p.priority
  {
    if n == 0 then p else AgedBy(p, n - 1).Older()
  }

  /** The deprecation boundary: age 60 is live, age 61 is stale. */
  lemma DeprecationBoundary(p: AttackPoint)
    ensures p.(age := 60).IsDeprecated() == false
    ensures p.(age := 61).IsDeprecated() == true
  {
  }

  /** Deprecation is permanent: ageing a stale point keeps it stale, and a
      fresh point becomes stale after exactly 61 ticks. */
  lemma {:induction false} DeprecationIsMonotone(p: AttackPoint, n: nat)
    ensures AgedBy(p, n).age == p.age + n
    ensures p.IsDeprecated() ==> AgedBy(p, n).IsDeprecated()
    ensures p.age == 0 ==> (AgedBy(p, n).IsDeprecated() <==> n > 60)
  {
    if n > 0 {
      DeprecationIsMonotone(p, n - 1);
    }
  }
}
