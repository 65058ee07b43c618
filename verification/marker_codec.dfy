/**
 * The older polar mark encoding of `MarkerInformation`: a 4-bit type, a
 * 9-bit rotation and an 18-bit distance in one C# `int`.
 *
 *   bits  0-3   information type
 *   bits  4-12  rotation (`Rotation & 0x1FF`)
 *   bits 13-30  distance (its bits above bit 17 are dropped)
 *   bit  31     always 0
 *
 * Bit operations are written as arithmetic on two's-complement words, as in
 * `SignalCodec`. `Encode` reads `Distance` and `Rotation`, which belong to
 * `RotationCoordinates` rather than to the stored `RelativeCoordinate`, so
 * the coordinates here are `Polar` values; the decoding constructor stores
 * the pair it reads as (distance, rotation) in that order.
 */
module MarkerCodec {
  import opened Geometry
  import opened Wrappers
  import SignalCodec

  /** A `MarkerInformation`: a type and optional (possibly null) coordinates. */
  datatype MarkerInfo = MarkerInfo(infoType: nat, coords: Option<Polar>)

  /** `MarkerInformation.Encode`. */
  function Encode(m: MarkerInfo): (w: int)
    ensures 0 <= w < 0x8000_0000
  {
    var kind := m.infoType % 0x10;
    // (Distance << 9) | (Rotation & 0x1FF): disjoint bits; 0 when null
    var coordinates :=
      match m.coords
      case None => 0
      case Some(p) => p.distance * 0x200 + p.rotation % 0x200;
    // (coordinates << 4) & 0x7FFFFFF0 keeps the low 27 bits of coordinates
    kind + (coordinates % 0x800_0000) * 0x10
  }

  /** The decoding constructor `new MarkerInformation(int)`. */
  function Decode(w: int): (m: MarkerInfo)
    requires SignalCodec.IsInt32(w)
    ensures m.infoType < 0x10 && m.coords.Some?
    ensures 0 <= m.coords.value.distance < 0x4_0000
    ensures 0 <= m.coords.value.rotation < 0x200
  {
    // (w & 0x7FFFFFF0) >> 4
    var coordinates := (w % 0x8000_0000) / 0x10;
    MarkerInfo(w % 0x10, Some(Polar(coordinates / 0x200, coordinates % 0x200)))
  }

  /** The pairs the polar format carries without loss. */
  predicate InRange(m: MarkerInfo) {
    m.infoType < 0x10 &&
    (m.coords.Some? ==>
       0 <= m.coords.value.rotation < 0x200 && 0 <= m.coords.value.distance < 0x4_0000)
  }

  /** What decoding an encoding yields for any marker: the low four type bits,
      the distance modulo 2^18 and the rotation masked with 0x1FF; null
      coordinates come back as (0, 0). */
  lemma Truncation(m: MarkerInfo)
    ensures Decode(Encode(m)).infoType == m.infoType % 0x10
    ensures m.coords.None? ==> Decode(Encode(m)).coords == Some(Polar(0, 0))
    ensures m.coords.Some? ==>
      Decode(Encode(m)).coords ==
        Some(Polar(m.coords.value.distance % 0x4_0000, m.coords.value.rotation % 0x200))
  {
    var w := Encode(m);
    assert w % 0x8000_0000 == w;
    if m.coords.Some? {
      var p := m.coords.value;
      var c := (p.distance * 0x200 + p.rotation % 0x200) % 0x800_0000;
      assert c == (p.distance % 0x4_0000) * 0x200 + p.rotation % 0x200;
      assert w / 0x10 == c;
    }
  }

  /** Round trip on in-range markers. */
  lemma RoundTrip(m: MarkerInfo)
    requires InRange(m) && m.coords.Some?
    ensures Decode(Encode(m)) == m
  {
    Truncation(m);
  }

  /** Null coordinates encode with every coordinate bit zero: only the type
      survives. */
  lemma NullCoordinates(t: nat)
    ensures Encode(MarkerInfo(t, None)) == t % 0x10
  {
  }

  /** Decoding ignores bit 31: a negative word decodes like the same word with
      bit 31 cleared. */
  lemma IgnoresSignBit(w: int)
    requires SignalCodec.MinInt32 <= w < 0
    ensures Decode(w) == Decode(w + 0x8000_0000)
  {
  }

  /** Positions built by the `RotationCoordinates` constructor from a rotation
      in [-360, 360) and a distance below 2^18 survive the round trip in their
      normalised form. */
  lemma RotationCoordinatesRoundTrip(t: nat, distance: int, rotation: int)
    requires t < 0x10 && distance < 0x4_0000 && -360 <= rotation < 360
    ensures Decode(Encode(MarkerInfo(t, Some(MakePolar(distance, rotation))))) ==
            MarkerInfo(t, Some(MakePolar(distance, rotation)))
  {
    RoundTrip(MarkerInfo(t, Some(MakePolar(distance, rotation))));
  }
}
