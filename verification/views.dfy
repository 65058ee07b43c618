/**
 * What a caste's decision logic reads in one tick, and the choices every
 * caste makes the same way: the nearest entry of a kind (LINQ's stable
 * `OrderBy(GetDistanceTo).FirstOrDefault()`), and the item-or-signal rule
 * that prefers a seen item unless a signal is sufficiently nearer.
 */
module Views {
  import opened Wrappers
  import opened Geometry
  import opened Signals
  import opened Items
  import opened Targets
  import opened CacheBase
  import opened MemoryCaches

  /** The ant's own position, the distance oracle, its view range, the host's
      `Destination`, `CarryingFruit` and `CurrentLoad`, its memory, and the
      flat list of received signals the castes read. */
  datatype View = View(me: Coord, dist: Metric, viewRange: int,
                       destination: Option<Item>, carrying: Option<Food>, load: int,
                       memory: Memory, signals: seq<Signal>)

  /** `GetDistanceTo`: the ant's distance to a position. */
  function DistanceTo(v: View, c: Coord): int {
    v.dist(v.me, c)
  }

  /** `Destination is Anthill`. */
  predicate HeadingHome(v: View) {
    v.destination == Some(AnthillItem)
  }

  /** The received signals of one type, nearest first among equals in list
      order: `_cache.Signals.FromType(t).OrderBy(GetDistanceTo).FirstOrDefault()`.
      Filtering and then taking the first of a stable ordering picks the
      earliest type-`t` signal that no type-`t` signal beats. */
  function NearestSignal(v: View, t: nat): (r: Option<Signal>)
    ensures r.None? <==> forall s | s in v.signals :: s.infoType != t
    ensures r.Some? ==> r.value in v.signals && r.value.infoType == t
    ensures r.Some? ==> forall s | s in v.signals && s.infoType == t ::
                          DistanceTo(v, r.value.coords) <= DistanceTo(v, s.coords)
    ensures r.Some? ==> exists k | 0 <= k < |v.signals| ::
                          v.signals[k] == r.value &&
                          forall j | 0 <= j < k && v.signals[j].infoType == t ::
                            DistanceTo(v, v.signals[j].coords) > DistanceTo(v, r.value.coords)
  {
    var ofType := (s: Signal) => s.infoType == t;
    var d := (s: Signal) => DistanceTo(v, s.coords);
    var r := Nearest(v.signals, ofType, d);
    if r.Some? then
      var k :| IsNearestAt(v.signals, ofType, d, k) && v.signals[k] == r.value;
      assert forall s | s in v.signals && s.infoType == t :: d(r.value) <= d(s);
      r
    else
      r
  }

  /** The item-or-signal rule shared by gatherers and hunters. The item wins
      when there is no signal or when `den` times its distance is below `num`
      times the signal's; failing that, the signal is a target only while it
      lies beyond view range. */
  function Pursue(v: View, item: Option<Item>, signal: Option<Signal>, num: nat, den: nat): (r: Option<Target>)
    requires item.Some? ==> !item.value.AnthillItem?
    ensures r.Some? && r.value.ItemTarget? ==> item.Some? && r.value.item == item.value
    ensures r.Some? && r.value.SignalTarget? ==> signal.Some? && r.value.signal == signal.value
  {
    if item.Some? && (signal.None? || den * DistanceTo(v, PositionOf(item.value)) < num * DistanceTo(v, signal.value.coords))
    then Some(ItemTarget(item.value))
    else if signal.Some? && DistanceTo(v, signal.value.coords) > v.viewRange
    then Some(SignalTarget(signal.value))
    else None
  }

  /** The positions of the received signals of type `t`. */
  function SignalSpots(v: View, t: nat): set<Coord> {
    set s | s in v.signals && s.infoType == t :: s.coords
  }

  /** The nearest signal of a type sits on the nearest of that type's
      positions, and there is none exactly when there are no positions. */
  lemma NearestSignalSpots(v: View, t: nat)
    ensures var r := NearestSignal(v, t);
      && (r.None? <==> SignalSpots(v, t) == {})
      && (r.Some? ==> r.value.coords in SignalSpots(v, t) &&
                      forall q | q in SignalSpots(v, t) :: DistanceTo(v, r.value.coords) <= DistanceTo(v, q))
  {
    var r := NearestSignal(v, t);
    if r.Some? {
      assert r.value.coords in SignalSpots(v, t);
    } else {
      assert forall q | q in SignalSpots(v, t) :: false;
    }
  }

  /** Some candidate item position beats every candidate signal. */
  predicate ItemBeatsSignals(v: View, items: set<Coord>, signals: set<Coord>, num: nat, den: nat) {
    exists p | p in items :: forall q | q in signals :: den * DistanceTo(v, p) < num * DistanceTo(v, q)
  }

  /** Every candidate signal lies beyond view range. */
  predicate AllBeyondView(v: View, signals: set<Coord>) {
    forall q | q in signals :: DistanceTo(v, q) > v.viewRange
  }

  /** When `item` and `signal` are nearest among their candidates, the rule
      picks the item exactly when some candidate item beats every candidate
      signal, and otherwise the signal exactly when there is one and every
      candidate signal lies beyond view range. */
  lemma PursueChoice(v: View, item: Option<Item>, signal: Option<Signal>, num: nat, den: nat,
                     items: set<Coord>, signals: set<Coord>)
    requires item.Some? ==> !item.value.AnthillItem?
    requires item.None? <==> items == {}
    requires item.Some? ==>
               PositionOf(item.value) in items &&
               forall p | p in items :: DistanceTo(v, PositionOf(item.value)) <= DistanceTo(v, p)
    requires signal.None? <==> signals == {}
    requires signal.Some? ==>
               signal.value.coords in signals &&
               forall q | q in signals :: DistanceTo(v, signal.value.coords) <= DistanceTo(v, q)
    ensures var r := Pursue(v, item, signal, num, den);
      (r.Some? && r.value.ItemTarget?) <==> ItemBeatsSignals(v, items, signals, num, den)
    ensures var r := Pursue(v, item, signal, num, den);
      (r.Some? && r.value.SignalTarget?) <==>
        !ItemBeatsSignals(v, items, signals, num, den) && signals != {} && AllBeyondView(v, signals)
  {
    var beats := ItemBeatsSignals(v, items, signals, num, den);
    if item.Some? {
      var p := PositionOf(item.value);
      if signal.None? || den * DistanceTo(v, p) < num * DistanceTo(v, signal.value.coords) {
        forall q | q in signals ensures den * DistanceTo(v, p) < num * DistanceTo(v, q) {
          MulMono(num, DistanceTo(v, signal.value.coords), DistanceTo(v, q));
        }
        assert beats;
      } else {
        if beats {
          var p' :| p' in items && forall q | q in signals :: den * DistanceTo(v, p') < num * DistanceTo(v, q);
          MulMono(den, DistanceTo(v, p), DistanceTo(v, p'));
          assert false;
        }
      }
    }
    if signal.Some? {
      var q := signal.value.coords;
      if DistanceTo(v, q) > v.viewRange {
        assert AllBeyondView(v, signals);
      }
    }
  }

  lemma MulMono(k: nat, a: int, b: int)
    requires a <= b
    ensures k * a <= k * b
  {
  }

  /** The things a caste's reactions make the ant do. */
  datatype Act = TakeFood(food: Food) | DropLoad | HeadHome
}
