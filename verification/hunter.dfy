/**
 * `HunterBehavior`: hunts enemies. Its targets, in priority order: the
 * current attack point (or, without one, the nearest attack-point signal),
 * a fruit-protection call, an enemy ant, a bug. A seen enemy is preferred to
 * a signal about one unless the signal is more than 1.75 times nearer.
 */
module Hunter {
  import opened Wrappers
  import opened Geometry
  import opened Signals
  import opened Items
  import opened Targets
  import opened Views
  import ItemCaches
  import BaseBehavior

  /** The current attack point is dropped once older than this. */
  const AttackPointTimeout: int := 55
  /** Within this distance the current attack point is not a target. */
  const AttackPointReach: int := 100

  /** `d(item) < d(signal) * 1.75` is `4 * d(item) < 7 * d(signal)`. */
  const PursuitNum: nat := 7
  const PursuitDen: nat := 4

  lemma PursuitFactorExact(di: int, ds: int)
    ensures (di as real) < (ds as real) * 1.75 <==> PursuitDen * di < PursuitNum * ds
  {
  }

  /** The start of `GetNextTarget` after a null base target: the current
      point ages by one and is dropped once its age exceeds 55. */
  function AgeCurrent(current: Option<AttackPoint>): (r: Option<AttackPoint>)
    ensures current.None? ==> r.None?
    ensures current.Some? ==> (r.Some? <==> current.value.age + 1 <= AttackPointTimeout)
    ensures r.Some? ==> r.value == current.value.Older()
  {
    if current.None? then None
    else
      var p := current.value.Older();
      if p.age > AttackPointTimeout then None else Some(p)
  }

  /** The signal a target at an attack point stands for. */
  function AttackSignal(p: AttackPoint): Signal {
    NewSignal(AttackPointKind, p.at)
  }

  /** `GetNextAttackPoint`: with a current point, it is the target only
      beyond 100 and there is no fallback; without one, the nearest
      attack-point signal, at any distance. */
  function AttackPointTarget(v: View, current: Option<AttackPoint>): (r: Option<Target>)
    ensures current.Some? ==> (r.Some? <==> DistanceTo(v, current.value.at) > AttackPointReach)
    ensures current.Some? && r.Some? ==> r.value == SignalTarget(AttackSignal(current.value))
    ensures current.None? ==> (r.Some? <==> exists s | s in v.signals :: s.infoType == AttackPointKind)
    ensures current.None? && r.Some? ==> r.value.SignalTarget? && r.value.signal in v.signals
    ensures r.Some? ==> r.value.SignalTarget? && r.value.signal.infoType == AttackPointKind
  {
    if current.Some? then
      if DistanceTo(v, current.value.at) > AttackPointReach then Some(SignalTarget(AttackSignal(current.value))) else None
    else
      var s := NearestSignal(v, AttackPointKind);
      if s.Some? then Some(SignalTarget(s.value)) else None
  }

  /** `GetNextFruitProtection`: the nearest fruit-protection call, only
      while it lies beyond view range; so a target exactly when there are
      such calls and none lies within view range. */
  function FruitProtection(v: View): (r: Option<Target>)
    ensures r.Some? ==> r.value.SignalTarget? && r.value.signal.infoType == FruitNeedsProtection
    ensures r.Some? ==> DistanceTo(v, r.value.signal.coords) > v.viewRange && r.value.signal in v.signals
    ensures r.Some? <==> (exists s | s in v.signals :: s.infoType == FruitNeedsProtection) &&
                         forall s | s in v.signals && s.infoType == FruitNeedsProtection :: DistanceTo(v, s.coords) > v.viewRange
  {
    var s := NearestSignal(v, FruitNeedsProtection);
    if s.Some? && DistanceTo(v, s.value.coords) > v.viewRange then Some(SignalTarget(s.value)) else None
  }

  function AntItemOf(v: View): (r: Option<Item>)
    ensures r.Some? ==> r.value.AntItem?
  {
    var a := ItemCaches.NearestOpponent(v.memory.ants, v.me, v.dist);
    if a.Some? then Some(AntItem(a.value)) else None
  }

  function BugItemOf(v: View): (r: Option<Item>)
    ensures r.Some? ==> r.value.BugItem?
  {
    var b := ItemCaches.NearestOpponent(v.memory.bugs, v.me, v.dist);
    if b.Some? then Some(BugItem(b.value)) else None
  }

  /** `GetNextOpponentAnt`. */
  function OpponentAnt(v: View): (r: Option<Target>)
    ensures r.Some? && r.value.ItemTarget? ==> r.value.item.AntItem? && r.value.item.ant in v.memory.ants
    ensures r.Some? && r.value.SignalTarget? ==> r.value.signal.infoType == AntSpotted
  {
    Pursue(v, AntItemOf(v), NearestSignal(v, AntSpotted), PursuitNum, PursuitDen)
  }

  /** `GetNextBugs`. */
  function Bugs(v: View): (r: Option<Target>)
    ensures r.Some? && r.value.ItemTarget? ==> r.value.item.BugItem? && r.value.item.bug in v.memory.bugs
    ensures r.Some? && r.value.SignalTarget? ==> r.value.signal.infoType == BugSpotted
  {
    Pursue(v, BugItemOf(v), NearestSignal(v, BugSpotted), PursuitNum, PursuitDen)
  }

  /** `GetNextTarget`: the new target and the new current attack point. */
  function NextTarget(base: Option<Target>, current: Option<AttackPoint>, v: View): (r: (Option<Target>, Option<AttackPoint>))
    ensures base.Some? ==> r == (base, current)
    ensures base.None? ==> r.1 == AgeCurrent(current)
    ensures base.None? && HeadingHome(v) ==> r.0.None?
  {
    if base.Some? then (base, current)
    else
      var aged := AgeCurrent(current);
      if HeadingHome(v) then (None, aged)
      else (AttackPointTarget(v, aged).OrElse(FruitProtection(v)).OrElse(OpponentAnt(v)).OrElse(Bugs(v)), aged)
  }

  /** The priority chain: each source is consulted only when all earlier ones
      gave nothing. */
  lemma PriorityChain(current: Option<AttackPoint>, v: View)
    requires !HeadingHome(v)
    ensures var aged := AgeCurrent(current);
      var t := NextTarget(None, current, v).0;
      && (AttackPointTarget(v, aged).Some? ==> t == AttackPointTarget(v, aged))
      && (AttackPointTarget(v, aged).None? && FruitProtection(v).Some? ==> t == FruitProtection(v))
      && (AttackPointTarget(v, aged).None? && FruitProtection(v).None? && OpponentAnt(v).Some? ==> t == OpponentAnt(v))
      && (AttackPointTarget(v, aged).None? && FruitProtection(v).None? && OpponentAnt(v).None? ==> t == Bugs(v))
  {
  }

  /** A current point within reach blocks the attack-point branch without
      falling back to attack-point signals: no attack-point target at all. */
  lemma NoFallbackWithinReach(current: Option<AttackPoint>, v: View)
    requires AgeCurrent(current).Some? && DistanceTo(v, AgeCurrent(current).value.at) <= AttackPointReach
    ensures var t := NextTarget(None, current, v).0;
      t.Some? && t.value.SignalTarget? ==> t.value.signal.infoType != AttackPointKind
  {
  }

  /** The hunter never adopts an attack point: without a current point it
      never has one afterwards, whatever the base target and view. */
  lemma NeverAdopts(base: Option<Target>, v: View)
    ensures NextTarget(base, None, v).1.None?
  {
  }

  /** The current point after `n` calls with a null base target, which age
      it whether or not the ant is heading home (`NextTarget`'s second
      component is `AgeCurrent` of the first argument). */
  function Calls(n: nat, current: Option<AttackPoint>): Option<AttackPoint> {
    if n == 0 then current else AgeCurrent(Calls(n - 1, current))
  }

  /** A fresh point survives 55 calls and is gone on the 56th. */
  lemma {:induction false} PointLifetime(p: AttackPoint, n: nat)
    requires p.age == 0
    ensures n <= AttackPointTimeout ==> Calls(n, Some(p)) == Some(p.(age := n))
    ensures n > AttackPointTimeout ==> Calls(n, Some(p)).None?
  {
    if n > 0 {
      PointLifetime(p, n - 1);
    }
  }

  /** The positions of the cached enemy ants or bugs. */
  function InsectSpots(list: seq<Insect>): set<Coord> {
    set a | a in list :: a.pos
  }

  /** The nearest cached insect sits on the nearest cached position. */
  lemma NearestInsectSpots(v: View, list: seq<Insect>)
    ensures var r := ItemCaches.NearestOpponent(list, v.me, v.dist);
      && (r.None? <==> InsectSpots(list) == {})
      && (r.Some? ==> r.value.pos in InsectSpots(list) &&
                      forall p | p in InsectSpots(list) :: DistanceTo(v, r.value.pos) <= DistanceTo(v, p))
  {
    var r := ItemCaches.NearestOpponent(list, v.me, v.dist);
    if r.Some? {
      assert r.value.pos in InsectSpots(list);
    } else {
      assert forall p | p in InsectSpots(list) :: false;
    }
  }

  /** The enemy ant is chosen exactly when some cached ant is more than 1.75
      times nearer than every ant-spotted signal (or there is none); failing
      that, a signal exactly when there is one and all lie beyond view
      range. */
  lemma OpponentAntChoice(v: View)
    ensures var r := OpponentAnt(v);
      var items := InsectSpots(v.memory.ants);
      var signals := SignalSpots(v, AntSpotted);
      && ((r.Some? && r.value.ItemTarget?) <==> ItemBeatsSignals(v, items, signals, PursuitNum, PursuitDen))
      && ((r.Some? && r.value.SignalTarget?) <==>
            !ItemBeatsSignals(v, items, signals, PursuitNum, PursuitDen) && signals != {} && AllBeyondView(v, signals))
  {
    NearestInsectSpots(v, v.memory.ants);
    NearestSignalSpots(v, AntSpotted);
    PursueChoice(v, AntItemOf(v), NearestSignal(v, AntSpotted), PursuitNum, PursuitDen,
                 InsectSpots(v.memory.ants), SignalSpots(v, AntSpotted));
  }

  /** The same rule for bugs. */
  lemma BugChoice(v: View)
    ensures var r := Bugs(v);
      var items := InsectSpots(v.memory.bugs);
      var signals := SignalSpots(v, BugSpotted);
      && ((r.Some? && r.value.ItemTarget?) <==> ItemBeatsSignals(v, items, signals, PursuitNum, PursuitDen))
      && ((r.Some? && r.value.SignalTarget?) <==>
            !ItemBeatsSignals(v, items, signals, PursuitNum, PursuitDen) && signals != {} && AllBeyondView(v, signals))
  {
    NearestInsectSpots(v, v.memory.bugs);
    NearestSignalSpots(v, BugSpotted);
    PursueChoice(v, BugItemOf(v), NearestSignal(v, BugSpotted), PursuitNum, PursuitDen,
                 InsectSpots(v.memory.bugs), SignalSpots(v, BugSpotted));
  }

  /** `GetNextSignal`: the base signal; otherwise a report on the enemy ant
      or bug the ant is heading for; otherwise none. */
  function NextSignal(base: Option<Signal>, v: View): (r: Option<Signal>)
    ensures base.Some? ==> r == base
    ensures base.None? ==> (r.Some? <==> v.destination.Some? && (v.destination.value.AntItem? || v.destination.value.BugItem?))
    ensures base.None? && r.Some? ==> r.value.coords == PositionOf(v.destination.value) && r.value.hop == 0
    ensures base.None? && r.Some? ==> (r.value.infoType == AntSpotted <==> v.destination.value.AntItem?)
    ensures base.None? && r.Some? ==> (r.value.infoType == BugSpotted <==> v.destination.value.BugItem?)
  {
    if base.Some? then base
    else if v.destination.Some? && v.destination.value.AntItem? then Some(NewSignal(AntSpotted, v.destination.value.ant.pos))
    else if v.destination.Some? && v.destination.value.BugItem? then Some(NewSignal(BugSpotted, v.destination.value.bug.pos))
    else None
  }

  /** `UnderAttack`: fight back, approaching a foe beyond view range. */
  function UnderAttack(foe: Insect, v: View): (r: BaseBehavior.Fight)
    ensures r.foe == foe
    ensures r.Approach? <==> DistanceTo(v, foe.pos) > v.viewRange
  {
    BaseBehavior.Attack(foe, DistanceTo(v, foe.pos), v.viewRange)
  }
}
