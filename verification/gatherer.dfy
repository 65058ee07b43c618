/**
 * `GathererBehavior`: collects fruit and sugar. It goes for a seen item
 * unless a received signal for the same food is strictly nearer, follows a
 * signal only while it lies beyond view range, tries fruit before sugar, and
 * calls for carriers while carrying fruit that still needs them.
 */
module Gatherer {
  import opened Wrappers
  import opened Geometry
  import opened Signals
  import opened Items
  import opened Targets
  import opened Views
  import ItemCaches

  /** The nearest cached fruit that needs carriers, as an item. */
  function FruitItemOf(v: View): (r: Option<Item>)
    ensures r.Some? ==> r.value.FruitItem?
  {
    var f := ItemCaches.NearestFruit(v.memory.fruits, v.me, v.dist);
    if f.Some? then Some(FruitItem(f.value)) else None
  }

  /** The nearest cached sugar, as an item. */
  function SugarItemOf(v: View): (r: Option<Item>)
    ensures r.Some? ==> r.value.SugarItem?
  {
    var f := ItemCaches.NearestFood(v.memory.sugar, v.me, v.dist);
    if f.Some? then Some(SugarItem(f.value)) else None
  }

  /** `GetTargetFruit`. */
  function TargetFruit(v: View): (r: Option<Target>)
    ensures r.Some? && r.value.ItemTarget? ==> r.value.item.FruitItem? && r.value.item.fruit.needsCarriers
    ensures r.Some? && r.value.SignalTarget? ==> r.value.signal.infoType == FruitNeedsCarriers
  {
    Pursue(v, FruitItemOf(v), NearestSignal(v, FruitNeedsCarriers), 1, 1)
  }

  /** `GetTargetSugar`. */
  function TargetSugar(v: View): (r: Option<Target>)
    ensures r.Some? && r.value.ItemTarget? ==> r.value.item.SugarItem? && r.value.item.sugar in v.memory.sugar
    ensures r.Some? && r.value.SignalTarget? ==> r.value.signal.infoType == SugarSpotted
  {
    Pursue(v, SugarItemOf(v), NearestSignal(v, SugarSpotted), 1, 1)
  }

  /** The ant is busy: heading home or carrying something. */
  predicate Busy(v: View) {
    HeadingHome(v) || v.carrying.Some? || v.load > 0
  }

  /** `GetNextTarget`: the base target wins; a busy ant gets none; otherwise
      fruit, and sugar only when there is no fruit target. */
  function NextTarget(base: Option<Target>, v: View): (r: Option<Target>)
    ensures base.Some? ==> r == base
    ensures base.None? && Busy(v) ==> r.None?
    ensures base.None? && !Busy(v) && TargetFruit(v).Some? ==> r == TargetFruit(v)
    ensures base.None? && !Busy(v) && TargetFruit(v).None? ==> r == TargetSugar(v)
  {
    if base.Some? then base
    else if Busy(v) then None
    else TargetFruit(v).OrElse(TargetSugar(v))
  }

  // ----- what the choice means in terms of the memory -----

  function FruitSpots(v: View): set<Coord> {
    set f | f in v.memory.fruits && f.needsCarriers :: f.pos
  }

  function SugarSpots(v: View): set<Coord> {
    set f | f in v.memory.sugar :: f.pos
  }

  /** The fruit is the target exactly when some cached fruit needing carriers
      is strictly nearer than every fruit-needs-carriers signal (or there is
      no such signal); otherwise a signal is the target exactly when there is
      one and all of them lie beyond view range. */
  lemma FruitChoice(v: View)
    ensures (TargetFruit(v).Some? && TargetFruit(v).value.ItemTarget?) <==>
              ItemBeatsSignals(v, FruitSpots(v), SignalSpots(v, FruitNeedsCarriers), 1, 1)
    ensures (TargetFruit(v).Some? && TargetFruit(v).value.SignalTarget?) <==>
              !ItemBeatsSignals(v, FruitSpots(v), SignalSpots(v, FruitNeedsCarriers), 1, 1) &&
              SignalSpots(v, FruitNeedsCarriers) != {} && AllBeyondView(v, SignalSpots(v, FruitNeedsCarriers))
  {
    var f := ItemCaches.NearestFruit(v.memory.fruits, v.me, v.dist);
    if f.None? {
      assert FruitSpots(v) == {};
    } else {
      assert f.value.pos in FruitSpots(v);
    }
    var s := NearestSignal(v, FruitNeedsCarriers);
    NearestSignalSpots(v, FruitNeedsCarriers);
    PursueChoice(v, FruitItemOf(v), s, 1, 1, FruitSpots(v), SignalSpots(v, FruitNeedsCarriers));
  }

  /** The same rule for sugar, where every cached sugar is a candidate. */
  lemma SugarChoice(v: View)
    ensures (TargetSugar(v).Some? && TargetSugar(v).value.ItemTarget?) <==>
              ItemBeatsSignals(v, SugarSpots(v), SignalSpots(v, SugarSpotted), 1, 1)
    ensures (TargetSugar(v).Some? && TargetSugar(v).value.SignalTarget?) <==>
              !ItemBeatsSignals(v, SugarSpots(v), SignalSpots(v, SugarSpotted), 1, 1) &&
              SignalSpots(v, SugarSpotted) != {} && AllBeyondView(v, SignalSpots(v, SugarSpotted))
  {
    var f := ItemCaches.NearestFood(v.memory.sugar, v.me, v.dist);
    if f.None? {
      assert SugarSpots(v) == {};
    } else {
      assert f.value.pos in SugarSpots(v);
    }
    var s := NearestSignal(v, SugarSpotted);
    NearestSignalSpots(v, SugarSpotted);
    PursueChoice(v, SugarItemOf(v), s, 1, 1, SugarSpots(v), SignalSpots(v, SugarSpotted));
  }

  /** A fruit 40 away and a carrier signal 30 away: the fruit is not nearer,
      so the signal is followed only while 30 exceeds the view range. */
  lemma FruitVersusSignalExample(v: View, f: Food, s: Signal)
    requires v.memory.fruits == [f] && f.needsCarriers && DistanceTo(v, f.pos) == 40
    requires v.signals == [s] && s.infoType == FruitNeedsCarriers && DistanceTo(v, s.coords) == 30
    ensures TargetFruit(v) == if 30 > v.viewRange then Some(SignalTarget(s)) else None
  {
  }

  /** `GetNextSignal`: the base signal wins; otherwise a carrier call at the
      carried fruit while it needs carriers. */
  function NextSignal(base: Option<Signal>, v: View): (r: Option<Signal>)
    ensures base.Some? ==> r == base
    ensures base.None? ==> (r.Some? <==> v.carrying.Some? && v.carrying.value.needsCarriers)
    ensures base.None? && r.Some? ==> r.value == NewSignal(FruitNeedsCarriers, v.carrying.value.pos)
  {
    if base.Some? then base
    else if v.carrying.Some? && v.carrying.value.needsCarriers then Some(NewSignal(FruitNeedsCarriers, v.carrying.value.pos))
    else None
  }

  /** `DestinationReached(Fruit)`: take it home only if it needs carriers. */
  function ReachedFruit(f: Food): (r: seq<Act>)
    ensures r != [] <==> f.needsCarriers
    ensures r != [] ==> r == [TakeFood(f), HeadHome]
  {
    if f.needsCarriers then [TakeFood(f), HeadHome] else []
  }

  /** `DestinationReached(Sugar)`: always take it home. */
  function ReachedSugar(f: Food): (r: seq<Act>)
    ensures r == [TakeFood(f), HeadHome]
  {
    [TakeFood(f), HeadHome]
  }

  /** `UnderAttack`: drop whatever is carried, then flee home. */
  function UnderAttack(v: View): (r: seq<Act>)
    ensures |r| >= 1 && r[|r| - 1] == HeadHome
    ensures DropLoad in r <==> v.carrying.Some? || v.load > 0
    ensures DropLoad in r ==> r[0] == DropLoad
  {
    if v.carrying.Some? || v.load > 0 then [DropLoad, HeadHome] else [HeadHome]
  }
}
