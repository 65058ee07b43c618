/**
 * `BaseBehavior`: what every caste does the same way. The tick pipeline
 * (cleanup, abort check, role move), the reaction to a friendly mark (relay
 * rule), the marks emitted on sighting food and enemies, the `GoTo` guards
 * and the approach-or-strike rule of `Attack`.
 *
 * Host primitives are not modelled as effects. Each operation returns the
 * memory it leaves and the commands or marks it issues, in order.
 */
module BaseBehavior {
  import opened Wrappers
  import opened Geometry
  import opened Signals
  import opened Items
  import opened MemoryCaches
  import SignalCodec

  /** A mark handed to the host: the signal it carries and its range. On the
      wire the signal travels as `SignalCodec.Encode(signal)`. */
  datatype Mark = Mark(signal: Signal, range: int)

  const RelayRange: int := 90
  const BugMarkRange: int := 75
  const AntMarkRange: int := 75
  const SugarMarkRange: int := 50
  const FruitMarkRange: int := 200
  /** Marks that have already travelled this many hops are not relayed. */
  const RelayHopLimit: int := 2

  /** What the host reports about the ant at the start of a tick. */
  datatype Vitals = Vitals(range: int, walked: int, energy: int, maxEnergy: int)

  /** The abort test of `Tick`, with the 2% reserve and the 15% energy floor
      as exact rationals: the ant heads home when the range it has left, less
      a 2% reserve, is below the distance home, or its energy is below 15%. */
  predicate MustReturn(v: Vitals, homeDistance: int): (r: bool)
    ensures r <==> 50 * (v.range - v.walked) - v.range < 50 * homeDistance || 20 * v.energy < 3 * v.maxEnergy
  {
    (v.range as real) - (v.walked as real) - (v.range as real) * 0.02 < homeDistance as real
    || (v.energy as real) < (v.maxEnergy as real) * 0.15
  }

  /** With range 1000 and 850 walked, 130 remain after the reserve: a home
      150 away forces the return, one 100 away does not. */
  lemma MustReturnExamples(energy: int, maxEnergy: int)
    requires 20 * energy >= 3 * maxEnergy
    ensures MustReturn(Vitals(1000, 850, energy, maxEnergy), 150)
    ensures !MustReturn(Vitals(1000, 850, energy, maxEnergy), 100)
    ensures !MustReturn(Vitals(1000, 850, energy, maxEnergy), 130)
  {
  }

  /** What a tick makes the ant do, in order. `RoleMove` is the caste's
      `DoNextMove`, run on the memory it is given. */
  datatype Command = GoToAnthill | RoleMove(memory: Memory)

  /** `Tick`. When the anthill is not yet known the ant first heads home and
      learns it if the host then reports the anthill as its destination
      (`anthillFound`). The memory is cleaned up before anything else is
      decided; the distance home is -1 while the anthill is unknown. */
  method Tick(known: bool, anthillFound: bool, mem: Memory, v: Vitals, homeDistance: int)
    returns (known': bool, mem': Memory, cmds: seq<Command>)
    ensures known' == (known || anthillFound)
    ensures mem' == MemoryCaches.CleanupSpec(mem)
    ensures |cmds| == if known then 1 else 2
    ensures !known ==> cmds[0] == GoToAnthill
    ensures forall c | c in cmds && c.RoleMove? :: c.memory == MemoryCaches.CleanupSpec(mem)
    ensures (exists c | c in cmds :: c.RoleMove?) <==> !MustReturn(v, if known' then homeDistance else -1)
    ensures forall c | c in cmds :: c.RoleMove? || c == GoToAnthill
  {
    cmds := [];
    known' := known;
    if !known {
      cmds := cmds + [GoToAnthill];
      known' := anthillFound;
    }
    mem' := MemoryCaches.Cleanup(mem);
    CleanupMeetsSpec(mem, mem');
    var d := if known' then homeDistance else -1;
    if MustReturn(v, d) {
      cmds := cmds + [GoToAnthill];
    } else {
      cmds := cmds + [RoleMove(mem')];
    }
    assert cmds[|cmds| - 1] in cmds;
  }

  // ----- communication -----

  /** `DetectedScentFriend`. With no anthill known the mark is ignored.
      Otherwise the word is decoded; the mark is relayed with range 90 when
      it has travelled fewer than two hops and the marker memory does not
      already contain it; and it is added to the marker memory afterwards,
      whatever was decided. */
  function DetectedScentFriend(known: bool, mem: Memory, word: int, dist: Metric): (r: (Memory, seq<Mark>))
    requires SignalCodec.IsInt32(word)
    ensures !known ==> r == (mem, [])
    ensures known ==> r.0 == AddMark(mem, SignalCodec.Decode(word), dist)
    ensures known ==> |r.1| <= 1
    ensures |r.1| == 1 <==> known && SignalCodec.Decode(word).hop < RelayHopLimit &&
                            !ContainsMarker(mem.markers, SignalCodec.Decode(word), dist)
    ensures |r.1| == 1 ==> r.1[0] == Mark(Relay(SignalCodec.Decode(word)), RelayRange)
  {
    if !known then (mem, [])
    else
      var s := SignalCodec.Decode(word);
      var relay := if s.hop < RelayHopLimit && !ContainsMarker(mem.markers, s, dist)
                   then [Mark(Relay(s), RelayRange)] else [];
      (AddMark(mem, s, dist), relay)
  }

  /** What the relayed mark carries on the wire: the received type and
      coordinates, one hop more. */
  lemma RelayedWord(known: bool, mem: Memory, word: int, dist: Metric)
    requires SignalCodec.IsInt32(word)
    requires |DetectedScentFriend(known, mem, word, dist).1| == 1
    ensures var m := DetectedScentFriend(known, mem, word, dist).1[0];
      SignalCodec.Encodable(m.signal) &&
      SignalCodec.Decode(SignalCodec.Encode(m.signal)) ==
        SignalCodec.Decode(word).(hop := SignalCodec.Decode(word).hop + 1)
  {
    SignalCodec.RelayOnTheWire(word);
  }

  /** A mark of types 0-3 received twice is relayed at most once: after the
      first reception it is contained, so the second is not relayed. */
  lemma RelayedOnce(mem: Memory, word: int, dist: Metric)
    requires SignalCodec.IsInt32(word) && SignalCodec.Decode(word).infoType < 4
    ensures var first := DetectedScentFriend(true, mem, word, dist);
      DetectedScentFriend(true, first.0, word, dist).1 == []
  {
    AddedMarkerContained(mem.markers, SignalCodec.Decode(word), dist);
  }

  /** The marker memory keeps only types 0-3, so a mark of type 4 or above
      is never contained and is relayed again on every reception while it
      has travelled fewer than two hops. */
  lemma UncachedTypeRelayedAgain(mem: Memory, word: int, dist: Metric)
    requires WellRouted(mem.markers)
    requires SignalCodec.IsInt32(word) && SignalCodec.Decode(word).infoType >= 4
    requires SignalCodec.Decode(word).hop < RelayHopLimit
    ensures var first := DetectedScentFriend(true, mem, word, dist);
      && first.0 == mem
      && |first.1| == 1
      && |DetectedScentFriend(true, first.0, word, dist).1| == 1
  {
    ContainsMarkerRoutes(mem.markers, SignalCodec.Decode(word), dist);
  }

  /** The word 4 (a fruit-needs-protection mark at the origin, not yet
      relayed) is relayed on its first and on its second reception. */
  lemma Type4RelayedTwice(mem: Memory, dist: Metric)
    requires WellRouted(mem.markers)
    ensures var first := DetectedScentFriend(true, mem, 4, dist);
      |first.1| == 1 && |DetectedScentFriend(true, first.0, 4, dist).1| == 1
  {
    SignalCodec.Unpack(4);
    assert SignalCodec.Decode(4).infoType == 4 && SignalCodec.Decode(4).hop == 0;
    UncachedTypeRelayedAgain(mem, 4, dist);
  }

  /** The mark `MakeMark(type, item, range)` issues, or none while the
      anthill is unknown (every `Mark*` returns early then). */
  function MarkIfKnown(known: bool, infoType: nat, at: Coord, range: int): (r: seq<Mark>)
    ensures |r| == if known then 1 else 0
    ensures known ==> r[0].signal == NewSignal(infoType, at) && r[0].range == range
  {
    if known then [Mark(NewSignal(infoType, at), range)] else []
  }

  /** `Spots(Fruit)`: cache the fruit; mark it with range 200 if it needs
      carriers. */
  function SpotsFruit(known: bool, mem: Memory, f: Food): (r: (Memory, seq<Mark>))
    ensures r.0 == AddFruit(mem, f)
    ensures |r.1| == 1 <==> known && f.needsCarriers
    ensures |r.1| <= 1
    ensures |r.1| == 1 ==> r.1[0] == Mark(NewSignal(FruitNeedsCarriers, f.pos), FruitMarkRange)
  {
    (AddFruit(mem, f), if f.needsCarriers then MarkIfKnown(known, FruitNeedsCarriers, f.pos, FruitMarkRange) else [])
  }

  /** `Spots(Sugar)`: cache the sugar; mark it with range 50 only when it
      holds strictly more than four full loads. */
  function SpotsSugar(known: bool, mem: Memory, f: Food, maxLoad: int): (r: (Memory, seq<Mark>))
    ensures r.0 == AddSugar(mem, f)
    ensures |r.1| == 1 <==> known && f.amount > 4 * maxLoad
    ensures |r.1| <= 1
    ensures |r.1| == 1 ==> r.1[0] == Mark(NewSignal(SugarSpotted, f.pos), SugarMarkRange)
  {
    (AddSugar(mem, f), if f.amount > maxLoad * 4 then MarkIfKnown(known, SugarSpotted, f.pos, SugarMarkRange) else [])
  }

  /** `SpotsEnemy(Ant)`: cache the ant and mark it with range 75. */
  function SpotsEnemyAnt(known: bool, mem: Memory, a: Insect): (r: (Memory, seq<Mark>))
    ensures r.0 == AddAnt(mem, a)
    ensures r.1 == if known then [Mark(NewSignal(AntSpotted, a.pos), AntMarkRange)] else []
  {
    (AddAnt(mem, a), MarkIfKnown(known, AntSpotted, a.pos, AntMarkRange))
  }

  /** `SpotsEnemy(Bug)`: cache the bug and mark it with range 75. */
  function SpotsBug(known: bool, mem: Memory, b: Insect): (r: (Memory, seq<Mark>))
    ensures r.0 == AddBug(mem, b)
    ensures r.1 == if known then [Mark(NewSignal(BugSpotted, b.pos), BugMarkRange)] else []
  {
    (AddBug(mem, b), MarkIfKnown(known, BugSpotted, b.pos, BugMarkRange))
  }

  /** Sugar marking is strict: exactly four loads is not enough. */
  lemma SugarThreshold(mem: Memory, f: Food, maxLoad: int)
    requires f.amount == 4 * maxLoad
    ensures SpotsSugar(true, mem, f, maxLoad).1 == []
    ensures |SpotsSugar(true, mem, f.(amount := f.amount + 1), maxLoad).1| == 1
  {
  }

  // ----- movement and fighting -----

  /** The offset `GoTo(coordinate)` walks; the bearing is not modelled. */
  datatype Move = Move(dx: int, dy: int)

  /** `GoTo(RelativeCoordinate)`: nothing happens while the anthill is
      unknown, when either coordinate is null, or when the Euclidean distance
      is 0. */
  function GoTo(known: bool, target: Option<Coord>, own: Option<Coord>): (r: Option<Move>)
    ensures r.None? <==> !known || target.None? || own.None? || target == own
    ensures r.Some? ==> own.value.x + r.value.dx == target.value.x && own.value.y + r.value.dy == target.value.y
  {
    if !known || target.None? || own.None? then None
    else
      var dx, dy := target.value.x - own.value.x, target.value.y - own.value.y;
      ZeroLength(dx, dy);
      if dx * dx + dy * dy == 0 then None else Some(Move(dx, dy))
  }

  /** The length of an integer offset is 0 only for the zero offset. */
  lemma ZeroLength(dx: int, dy: int)
    ensures dx * dx + dy * dy == 0 <==> dx == 0 && dy == 0
  {
    if dx != 0 {
      assert dx * dx > 0;
    }
    if dy != 0 {
      assert dy * dy > 0;
    }
  }

  datatype Fight = Approach(foe: Insect) | Strike(foe: Insect)

  /** `Attack(insect)`: walk towards a foe beyond view range, strike one
      within it. */
  function Attack(foe: Insect, distance: int, viewRange: int): (r: Fight)
    ensures r.foe == foe
    ensures r.Approach? <==> distance > viewRange
  {
    if distance > viewRange then Approach(foe) else Strike(foe)
  }
}
