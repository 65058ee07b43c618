/**
 * The current mark encoding: a `Signal` packed into one C# `int`.
 *
 *   bits  0-3   information type
 *   bits  4-16  Y, 13-bit sign-magnitude (12-bit magnitude, sign at bit 12)
 *   bits 17-29  X, same scheme
 *   bits 30-31  hop count
 *
 * Words are C# `int`s, modelled as integers in [-2^31, 2^31). Every bit
 * operation of the source is written as the arithmetic it amounts to on a
 * two's-complement word: `w & (2^k - 1)` is `w % 2^k`, and `w >> k` is
 * `w / 2^k` (Dafny's `%` and `/` are Euclidean, which for a positive power of
 * two is exactly the two's-complement mask and the arithmetic shift, also on
 * negative words). Where `Encode` ORs parts that occupy disjoint bits, the OR
 * is their sum.
 */
module SignalCodec {
  import opened Geometry
  import opened Signals

  const MinInt32: int := -0x8000_0000

  predicate IsInt32(v: int) { MinInt32 <= v < 0x8000_0000 }

  /** `Math.Abs`, on the values where it does not throw. */
  function Abs(v: int): nat { if v < 0 then -v else v }

  /** A 32-bit pattern read as a C# `int`. */
  function ToInt32(u: int): (v: int)
    requires 0 <= u < 0x1_0000_0000
    ensures IsInt32(v)
    ensures v < 0 <==> u >= 0x8000_0000
    ensures v % 0x1_0000_0000 == u
  {
    if u < 0x8000_0000 then u else u - 0x1_0000_0000
  }

  /** What `Encode` demands of a signal: coordinates that are C# `int`s other
      than `int.MinValue`, for which `Math.Abs` throws an overflow. */
  predicate Encodable(s: Signal) {
    IsInt32(s.coords.x) && s.coords.x != MinInt32 &&
    IsInt32(s.coords.y) && s.coords.y != MinInt32
  }

  /** `GetInt13`: `Math.Abs(v) & 0xFFF`, with bit 12 (`1 << 12`) set iff v < 0. */
  function Int13(v: int): (r: int)
    requires IsInt32(v) && v != MinInt32
    ensures 0 <= r < 0x2000
  {
    var magnitude := Abs(v) % 0x1000;
    if v < 0 then magnitude + 0x1000 else magnitude
  }

  /** `GetInt32`: `int13 & 0xFFF` as magnitude, negated when `int13 >> 12`
      is 1. */
  function Int32(int13: int): (v: int)
    ensures Abs(v) <= 0xFFF
  {
    var magnitude := int13 % 0x1000;
    if int13 / 0x1000 == 1 then -magnitude else magnitude
  }

  /** The 13-bit field stores |v| mod 4096 below bit 12 and the sign in bit 12. */
  lemma Int13Fields(v: int)
    requires IsInt32(v) && v != MinInt32
    ensures Int13(v) % 0x1000 == Abs(v) % 0x1000
    ensures Int13(v) / 0x1000 == 1 <==> v < 0
    ensures Int13(v) / 0x1000 == 0 <==> v >= 0
  {
  }

  /** The sign-magnitude pair is a round trip on |v| <= 4095. */
  lemma Int13RoundTrip(v: int)
    requires Abs(v) <= 0xFFF
    ensures Int32(Int13(v)) == v
  {
  }

  /** Magnitudes above 4095 are truncated to their low 12 bits, keeping the
      sign: the value read back is sign(v) * (|v| mod 4096). */
  lemma Int13Truncates(v: int)
    requires IsInt32(v) && v != MinInt32
    ensures v >= 0 ==> Int32(Int13(v)) == v % 0x1000
    ensures v < 0 ==> Int32(Int13(v)) == -((-v) % 0x1000)
  {
  }

  /** Reading a 13-bit field and writing it back restores it, except for the
      "negative zero" pattern 0x1000 (sign set, magnitude 0), which comes
      back as 0. */
  lemma Int32RoundTrip(field: int)
    requires 0 <= field < 0x2000
    ensures field != 0x1000 ==> Int13(Int32(field)) == field
    ensures field == 0x1000 ==> Int13(Int32(field)) == 0
  {
  }

  // ----- the word layout -----

  /** `w & 0xF`. */
  function KindField(w: int): int { w % 0x10 }
  /** `(w & 0x3FFFFFF0) >> 4`: bits 4-29. */
  function CoordinateField(w: int): int { (w % 0x4000_0000) / 0x10 }
  /** `coordinates >> 13`: bits 17-29 of the word. */
  function XField(w: int): int { CoordinateField(w) / 0x2000 }
  /** `coordinates & 0x1FFF`: bits 4-16 of the word. */
  function YField(w: int): int { CoordinateField(w) % 0x2000 }
  /** `(w >> 30) & 3`: bits 30-31. */
  function HopField(w: int): int { (w / 0x4000_0000) % 4 }

  /** The 32-bit pattern holding the four fields at their places. */
  function Pack(kind: int, x13: int, y13: int, hop: int): int {
    kind + 0x10 * (y13 + 0x2000 * x13) + 0x4000_0000 * hop
  }

  /** A pattern built from in-range fields is a 32-bit pattern whose fields
      read back unchanged, so no field overlaps another; the word is negative
      exactly when the hop field is 2 or 3. */
  lemma PackLayout(kind: int, x13: int, y13: int, hop: int)
    requires 0 <= kind < 0x10 && 0 <= x13 < 0x2000 && 0 <= y13 < 0x2000 && 0 <= hop < 4
    ensures 0 <= Pack(kind, x13, y13, hop) < 0x1_0000_0000
    ensures KindField(ToInt32(Pack(kind, x13, y13, hop))) == kind
    ensures XField(ToInt32(Pack(kind, x13, y13, hop))) == x13
    ensures YField(ToInt32(Pack(kind, x13, y13, hop))) == y13
    ensures HopField(ToInt32(Pack(kind, x13, y13, hop))) == hop
    ensures ToInt32(Pack(kind, x13, y13, hop)) < 0 <==> hop >= 2
  {
    var u := Pack(kind, x13, y13, hop);
    var w := ToInt32(u);
    assert w % 0x1_0000_0000 == u;
    assert w % 0x4000_0000 == u % 0x4000_0000;
    assert w % 0x10 == u % 0x10;
    assert u % 0x4000_0000 == kind + 0x10 * (y13 + 0x2000 * x13);
    assert (w / 0x4000_0000) % 4 == u / 0x4000_0000;
  }

  /** Every word is the packing of its own four fields. */
  lemma Unpack(w: int)
    requires IsInt32(w)
    ensures 0 <= KindField(w) < 0x10 && 0 <= XField(w) < 0x2000
    ensures 0 <= YField(w) < 0x2000 && 0 <= HopField(w) < 4
    ensures ToInt32(Pack(KindField(w), XField(w), YField(w), HopField(w))) == w
  {
    var u := w % 0x1_0000_0000;
    var low := w % 0x4000_0000;
    LowBitsOfPattern(w);
    HopOfPattern(w);
    SplitLowBits(low);
    assert KindField(w) == low % 0x10 && CoordinateField(w) == low / 0x10;
    assert u == Pack(KindField(w), XField(w), YField(w), HopField(w));
    PatternOfWord(w);
  }

  /** A C# `int` is its own 32-bit pattern read back. */
  lemma PatternOfWord(w: int)
    requires IsInt32(w)
    ensures ToInt32(w % 0x1_0000_0000) == w
  {
  }

  /** The low 30 bits of a word and of its 32-bit pattern agree. */
  lemma LowBitsOfPattern(w: int)
    ensures (w % 0x1_0000_0000) % 0x4000_0000 == w % 0x4000_0000
    ensures w % 0x1_0000_0000 == w % 0x4000_0000 + 0x4000_0000 * ((w % 0x1_0000_0000) / 0x4000_0000)
  {
  }

  /** The top two bits of the 32-bit pattern are the hop field. */
  lemma HopOfPattern(w: int)
    requires IsInt32(w)
    ensures (w % 0x1_0000_0000) / 0x4000_0000 == HopField(w)
  {
  }

  /** Bits 0-29 split into the type, Y and X fields. */
  lemma SplitLowBits(low: int)
    requires 0 <= low < 0x4000_0000
    ensures low == low % 0x10 + 0x10 * ((low / 0x10) % 0x2000 + 0x2000 * ((low / 0x10) / 0x2000))
    ensures 0 <= (low / 0x10) / 0x2000 < 0x2000
  {
    var c := low / 0x10;
    assert low == low % 0x10 + 0x10 * c;
    assert c == c % 0x2000 + 0x2000 * (c / 0x2000);
  }

  /** `Signal.Encode`. */
  function Encode(s: Signal): (w: int)
    requires Encodable(s)
    ensures IsInt32(w)
  {
    var kind := s.infoType % 0x10;
    // (GetInt13(X) << 13) | (GetInt13(Y) & 0x1FFF): disjoint bits
    var coordinates := Int13(s.coords.x) * 0x2000 + Int13(s.coords.y) % 0x2000;
    // (coordinates << 4) & 0x7FFFFFF0
    var shifted := (coordinates * 0x10) % 0x8000_0000;
    // HopCount << 30 keeps the two low bits of the hop count
    var hop := (s.hop % 4) * 0x4000_0000;
    ToInt32(kind + shifted + hop)
  }

  /** `Encode` places each field as the layout says. */
  lemma EncodeLayout(s: Signal)
    requires Encodable(s)
    ensures Encode(s) == ToInt32(Pack(s.infoType % 0x10, Int13(s.coords.x), Int13(s.coords.y), s.hop % 4))
    ensures KindField(Encode(s)) == s.infoType % 0x10
    ensures XField(Encode(s)) == Int13(s.coords.x)
    ensures YField(Encode(s)) == Int13(s.coords.y)
    ensures HopField(Encode(s)) == s.hop % 4
  {
    PackLayout(s.infoType % 0x10, Int13(s.coords.x), Int13(s.coords.y), s.hop % 4);
  }

  /** The decoding constructor `new Signal(int)`; the age starts at 0. */
  function Decode(w: int): (s: Signal)
    requires IsInt32(w)
    ensures 0 <= s.infoType < 0x10
    ensures Abs(s.coords.x) <= 0xFFF && Abs(s.coords.y) <= 0xFFF
    ensures 0 <= s.hop < 4 && s.age == 0
  {
    Unpack(w);
    Signal(KindField(w),
           MakeCoord(Int32(XField(w)), Int32(YField(w))),
           HopField(w),
           0)
  }

  // ----- properties of the codec -----

  /** The signals the wire format carries without loss. */
  predicate InRange(s: Signal) {
    s.infoType < 0x10 && Abs(s.coords.x) <= 0xFFF && Abs(s.coords.y) <= 0xFFF && 0 <= s.hop < 4
  }

  /** Round trip: decoding the encoding of an in-range signal gives back its
      type, coordinates and hop count (and a fresh age). */
  lemma RoundTrip(s: Signal)
    requires InRange(s)
    ensures Encodable(s)
    ensures Decode(Encode(s)) == s.(age := 0)
  {
    EncodeLayout(s);
    Int13RoundTrip(s.coords.x);
    Int13RoundTrip(s.coords.y);
  }

  /** Out-of-range coordinates are truncated, not rejected: each comes back as
      sign(v) * (|v| mod 4096); the type keeps its low four bits and the hop
      count its low two bits. */
  lemma Truncation(s: Signal)
    requires Encodable(s)
    ensures Decode(Encode(s)).infoType == s.infoType % 0x10
    ensures Decode(Encode(s)).hop == s.hop % 4
    ensures s.coords.x >= 0 ==> Decode(Encode(s)).coords.x == s.coords.x % 0x1000
    ensures s.coords.x < 0 ==> Decode(Encode(s)).coords.x == -((-s.coords.x) % 0x1000)
    ensures s.coords.y >= 0 ==> Decode(Encode(s)).coords.y == s.coords.y % 0x1000
    ensures s.coords.y < 0 ==> Decode(Encode(s)).coords.y == -((-s.coords.y) % 0x1000)
  {
    EncodeLayout(s);
    Int13Truncates(s.coords.x);
    Int13Truncates(s.coords.y);
  }

  /** Two concrete truncations: 5000 reads back as 904 and -4096 as 0. */
  lemma TruncationExamples(s: Signal)
    requires s.coords == Coord(5000, -4096)
    ensures Decode(Encode(s)).coords == Coord(904, 0)
  {
    Truncation(s);
  }

  /** A word is negative exactly when its hop count is 2 or 3; the hop count
      is still recovered from such words. */
  lemma NegativeWords(w: int)
    requires IsInt32(w)
    ensures w < 0 <==> Decode(w).hop >= 2
  {
  }

  /** The "negative zero" pattern of a coordinate field: sign set, magnitude 0. */
  predicate HasNegativeZero(w: int) {
    XField(w) == 0x1000 || YField(w) == 0x1000
  }

  /** Encoding a decoded word gives the same word back exactly when neither
      coordinate field holds a negative zero. */
  lemma DecodeEncode(w: int)
    requires IsInt32(w)
    ensures Encodable(Decode(w))
    ensures Encode(Decode(w)) == w <==> !HasNegativeZero(w)
  {
    if HasNegativeZero(w) {
      NegativeZeroLost(w);
    } else {
      NoNegativeZeroKept(w);
    }
  }

  lemma NoNegativeZeroKept(w: int)
    requires IsInt32(w) && !HasNegativeZero(w)
    ensures Encode(Decode(w)) == w
  {
    DecodedFields(w);
    Unpack(w);
    EncodeLayout(Decode(w));
  }

  /** Without a negative zero, the decoded signal re-encodes to the very
      fields it was read from. */
  lemma DecodedFields(w: int)
    requires IsInt32(w) && !HasNegativeZero(w)
    ensures Decode(w).infoType % 0x10 == KindField(w) && Decode(w).hop % 4 == HopField(w)
    ensures Int13(Decode(w).coords.x) == XField(w) && Int13(Decode(w).coords.y) == YField(w)
  {
    Unpack(w);
    Int32RoundTrip(XField(w));
    Int32RoundTrip(YField(w));
  }

  lemma NegativeZeroLost(w: int)
    requires IsInt32(w) && HasNegativeZero(w)
    ensures Encode(Decode(w)) != w
  {
    var s := Decode(w);
    EncodeLayout(s);
    if XField(w) == 0x1000 {
      Int32RoundTrip(XField(w));
      assert XField(Encode(s)) == 0;
    } else {
      Int32RoundTrip(YField(w));
      assert YField(Encode(s)) == 0;
    }
  }

  /** The hop count wraps modulo 4 on the wire: a hop of 4 is sent as 0. */
  lemma HopWraps(s: Signal, k: int)
    requires Encodable(s)
    ensures Encode(s.(hop := s.hop + 4 * k)) == Encode(s)
    ensures Decode(Encode(s.(hop := 4))).hop == 0
  {
    var t := s.(hop := s.hop + 4 * k);
    assert t.hop % 4 == s.hop % 4;
    assert t.infoType == s.infoType && t.coords == s.coords;
    var four := s.(hop := 4);
    EncodeLayout(four);
    assert HopField(Encode(four)) == 0;
  }

  /** Relaying a received word once sends a word whose hop count is one
      higher, while type and coordinates survive unchanged. */
  lemma RelayOnTheWire(w: int)
    requires IsInt32(w) && Decode(w).hop < 3
    ensures Encodable(Relay(Decode(w)))
    ensures Decode(Encode(Relay(Decode(w)))) == Decode(w).(hop := Decode(w).hop + 1)
  {
    RoundTrip(Relay(Decode(w)));
  }
}
