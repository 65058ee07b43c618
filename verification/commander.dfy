/**
 * `CommanderBehavior`: picks attack points for the hunters. Every enemy
 * sighting in memory and every received report becomes a weighted
 * candidate; each candidate absorbs the weights of its neighbours within
 * 150; candidates much farther than the nearest are pruned; the heaviest
 * remaining one (the first among equals) becomes the current point, which
 * is announced once and kept until it is deprecated.
 */
module Commander {
  import opened Wrappers
  import opened Geometry
  import opened Signals
  import opened Items
  import opened Targets
  import opened CacheBase
  import opened Views

  const EnemyAntWeight: int := 5
  const BugWeight: int := 7
  const AntReportWeight: int := 2
  const BugReportWeight: int := 4
  const ProtectionCallWeight: int := 10
  /** Candidates closer than this reinforce each other. */
  const ClusterRadius: int := 150
  /** Candidates farther than the nearest by more than this are pruned. */
  const PruneMargin: int := 100

  // ----- candidates -----

  function AntPoints(ants: seq<Insect>): (r: seq<AttackPoint>)
    ensures |r| <= |ants|
    decreases |ants|
  {
    if ants == [] then []
    else
      (if IsRaider(ants[0]) then [AttackPointAt(ants[0].pos, EnemyAntWeight)] else []) + AntPoints(ants[1..])
  }

  /** The ant candidates are exactly the raiders' positions, weighted 5. */
  lemma {:induction false} AntPointsMembers(ants: seq<Insect>)
    ensures forall p | p in AntPoints(ants) :: p.priority == EnemyAntWeight && p.age == 0
    ensures forall p :: p in AntPoints(ants) <==> exists a | a in ants && IsRaider(a) :: p == AttackPointAt(a.pos, EnemyAntWeight)
    decreases |ants|
  {
    if ants != [] {
      AntPointsMembers(ants[1..]);
      assert forall a | a in ants :: a == ants[0] || a in ants[1..];
    }
  }

  function BugPoints(bugs: seq<Insect>): (r: seq<AttackPoint>)
    ensures |r| == |bugs|
    ensures forall i | 0 <= i < |bugs| :: r[i] == AttackPointAt(bugs[i].pos, BugWeight)
  {
    seq(|bugs|, i requires 0 <= i < |bugs| => AttackPointAt(bugs[i].pos, BugWeight))
  }

  /** The weight a received report carries, if any: ant-spotted 2,
      bug-spotted 4, fruit-needs-protection 10, all other types none. */
  function ReportWeight(t: nat): Option<int> {
    if t == AntSpotted then Some(AntReportWeight)
    else if t == BugSpotted then Some(BugReportWeight)
    else if t == FruitNeedsProtection then Some(ProtectionCallWeight)
    else None
  }

  function SignalPoints(signals: seq<Signal>): (r: seq<AttackPoint>)
    ensures |r| <= |signals|
    decreases |signals|
  {
    if signals == [] then []
    else
      var w := ReportWeight(signals[0].infoType);
      (if w.Some? then [AttackPointAt(signals[0].coords, w.value)] else []) + SignalPoints(signals[1..])
  }

  /** The report candidates are exactly the weighted reports' positions. */
  lemma {:induction false} SignalPointsMembers(signals: seq<Signal>)
    ensures forall p | p in SignalPoints(signals) :: p.age == 0
    ensures forall p :: p in SignalPoints(signals) <==>
      exists s | s in signals && ReportWeight(s.infoType).Some? :: p == AttackPointAt(s.coords, ReportWeight(s.infoType).value)
    decreases |signals|
  {
    if signals != [] {
      SignalPointsMembers(signals[1..]);
      assert forall s | s in signals :: s == signals[0] || s in signals[1..];
    }
  }

  /** The first half of `GetAttackPoints`: raiding ants, then bugs, then
      reports, each in memory order. */
  function Candidates(v: View): (r: seq<AttackPoint>)
    ensures |v.memory.bugs| <= |r| <= |v.memory.ants| + |v.memory.bugs| + |v.signals|
    ensures forall b | b in v.memory.bugs :: AttackPointAt(b.pos, BugWeight) in r
  {
    AntPoints(v.memory.ants) + BugPoints(v.memory.bugs) + SignalPoints(v.signals)
  }

  /** There is no candidate exactly when no ant raids, no bug is known and no
      report carries a weight. */
  lemma NoCandidates(v: View)
    ensures Candidates(v) == [] <==>
      (forall a | a in v.memory.ants :: !IsRaider(a)) && v.memory.bugs == [] &&
      (forall s | s in v.signals :: ReportWeight(s.infoType).None?)
  {
    AntPointsMembers(v.memory.ants);
    SignalPointsMembers(v.signals);
    if Candidates(v) == [] {
      assert AntPoints(v.memory.ants) == [] && BugPoints(v.memory.bugs) == [] && SignalPoints(v.signals) == [];
      forall a | a in v.memory.ants ensures !IsRaider(a) {
        assert AttackPointAt(a.pos, EnemyAntWeight) !in AntPoints(v.memory.ants);
      }
      forall s | s in v.signals ensures ReportWeight(s.infoType).None? {
        var w := ReportWeight(s.infoType);
        assert forall x :: w == Some(x) ==> AttackPointAt(s.coords, x) !in SignalPoints(v.signals);
      }
    } else {
      var p := Candidates(v)[0];
      assert p in AntPoints(v.memory.ants) || p in BugPoints(v.memory.bugs) || p in SignalPoints(v.signals);
    }
  }

  // ----- clustering -----

  /** The weight point `i` gains from the points before index `j`: every
      other point closer than 150 contributes its current priority. */
  function CloseSum(ps: seq<AttackPoint>, i: nat, j: nat, dist: Metric): int
    requires i < |ps| && j <= |ps|
  {
    if j == 0 then 0
    else CloseSum(ps, i, j - 1, dist) +
         (if j - 1 != i && dist(ps[i].at, ps[j - 1].at) < ClusterRadius then ps[j - 1].priority else 0)
  }

  /** One pass of the outer `foreach`: point `i` absorbs its neighbours'
      current priorities. */
  function ClusterStep(ps: seq<AttackPoint>, i: nat, dist: Metric): (r: seq<AttackPoint>)
    requires i < |ps|
    ensures |r| == |ps|
  {
    ps[i := ps[i].(priority := ps[i].priority + CloseSum(ps, i, |ps|, dist))]
  }

  /** The first `n` outer passes, in list order. Later points see the already
      raised priorities of earlier ones. */
  function ClusterUpTo(ps: seq<AttackPoint>, n: nat, dist: Metric): (r: seq<AttackPoint>)
    requires n <= |ps|
    ensures |r| == |ps|
    ensures forall k | 0 <= k < |ps| :: r[k].at == ps[k].at && r[k].age == ps[k].age
  {
    if n == 0 then ps else ClusterStep(ClusterUpTo(ps, n - 1, dist), n - 1, dist)
  }

  /** The clustering loops of `GetAttackPoints`, updating priorities in
      place. */
  method Cluster(ps: seq<AttackPoint>, dist: Metric) returns (qs: seq<AttackPoint>)
    ensures qs == ClusterUpTo(ps, |ps|, dist)
  {
    qs := ps;
    var i := 0;
    while i < |qs|
      invariant |qs| == |ps| && 0 <= i <= |ps|
      invariant qs == ClusterUpTo(ps, i, dist)
    {
      var before := qs;
      var j := 0;
      while j < |qs|
        invariant |qs| == |ps| && 0 <= j <= |ps|
        invariant qs == before[i := before[i].(priority := before[i].priority + CloseSum(before, i, j, dist))]
      {
        if i != j && dist(qs[i].at, qs[j].at) < ClusterRadius {
          qs := qs[i := qs[i].(priority := qs[i].priority + qs[j].priority)];
        }
        j := j + 1;
      }
      i := i + 1;
    }
  }

  /** Two mutually close points weighted 5 and 7 end at 12 and 19: the
      second adds the first's already raised priority. */
  lemma ClusterPairExample(a: Coord, b: Coord, dist: Metric)
    requires dist(a, b) < ClusterRadius && dist(b, a) < ClusterRadius
    ensures var r := ClusterUpTo([AttackPointAt(a, 5), AttackPointAt(b, 7)], 2, dist);
      r[0].priority == 12 && r[1].priority == 19
  {
    var ps := [AttackPointAt(a, 5), AttackPointAt(b, 7)];
    assert CloseSum(ps, 0, 1, dist) == 0 by {
      assert CloseSum(ps, 0, 0, dist) == 0;
    }
    assert CloseSum(ps, 0, 2, dist) == 7;
    var one := ClusterUpTo(ps, 1, dist);
    assert ClusterUpTo(ps, 0, dist) == ps;
    assert one == [AttackPointAt(a, 12), AttackPointAt(b, 7)];
    assert CloseSum(one, 1, 1, dist) == 12 by {
      assert CloseSum(one, 1, 0, dist) == 0;
    }
    assert CloseSum(one, 1, 2, dist) == 12;
    assert ClusterUpTo(ps, 2, dist) == ClusterStep(one, 1, dist);
  }

  /** A point with no other point within 150 keeps its weight. */
  lemma IsolatedKeepsWeight(ps: seq<AttackPoint>, i: nat, dist: Metric)
    requires i < |ps|
    requires forall k | 0 <= k < |ps| && k != i :: dist(ps[i].at, ps[k].at) >= ClusterRadius
    ensures ClusterUpTo(ps, |ps|, dist)[i].priority == ps[i].priority
  {
    IsolatedUpTo(ps, i, |ps|, dist);
  }

  lemma {:induction false} IsolatedUpTo(ps: seq<AttackPoint>, i: nat, n: nat, dist: Metric)
    requires i < |ps| && n <= |ps|
    requires forall k | 0 <= k < |ps| && k != i :: dist(ps[i].at, ps[k].at) >= ClusterRadius
    ensures ClusterUpTo(ps, n, dist)[i].priority == ps[i].priority
  {
    if n > 0 {
      IsolatedUpTo(ps, i, n - 1, dist);
      var prev := ClusterUpTo(ps, n - 1, dist);
      if n - 1 == i {
        NoCloseSum(prev, i, |prev|, dist);
      }
    }
  }

  lemma {:induction false} NoCloseSum(ps: seq<AttackPoint>, i: nat, j: nat, dist: Metric)
    requires i < |ps| && j <= |ps|
    requires forall k | 0 <= k < |ps| && k != i :: dist(ps[i].at, ps[k].at) >= ClusterRadius
    ensures CloseSum(ps, i, j, dist) == 0
  {
    if j > 0 {
      NoCloseSum(ps, i, j - 1, dist);
    }
  }

  /** With non-negative weights, clustering never lowers a priority. */
  lemma {:induction false} ClusterRaises(ps: seq<AttackPoint>, n: nat, dist: Metric)
    requires n <= |ps|
    requires forall k | 0 <= k < |ps| :: ps[k].priority >= 0
    ensures forall k | 0 <= k < |ps| :: ClusterUpTo(ps, n, dist)[k].priority >= ps[k].priority
  {
    if n > 0 {
      ClusterRaises(ps, n - 1, dist);
      var prev := ClusterUpTo(ps, n - 1, dist);
      CloseSumNonNegative(prev, n - 1, |prev|, dist);
    }
  }

  lemma {:induction false} CloseSumNonNegative(ps: seq<AttackPoint>, i: nat, j: nat, dist: Metric)
    requires i < |ps| && j <= |ps|
    requires forall k | 0 <= k < |ps| :: ps[k].priority >= 0
    ensures CloseSum(ps, i, j, dist) >= 0
  {
    if j > 0 {
      CloseSumNonNegative(ps, i, j - 1, dist);
    }
  }

  // ----- pruning and selection -----

  /** The `foreach` computing `minDistance`. */
  function MinDistance(ps: seq<AttackPoint>, v: View): (m: int)
    requires ps != []
    ensures forall p | p in ps :: m <= DistanceTo(v, p.at)
    ensures exists p | p in ps :: m == DistanceTo(v, p.at)
    decreases |ps|
  {
    if |ps| == 1 then DistanceTo(v, ps[0].at)
    else
      var m := MinDistance(ps[..|ps| - 1], v);
      assert forall p | p in ps :: p in ps[..|ps| - 1] || p == ps[|ps| - 1];
      if m > DistanceTo(v, ps[|ps| - 1].at) then DistanceTo(v, ps[|ps| - 1].at) else m
  }

  /** The points the pruning loop removes: those farther than `bound`. */
  function Remote(v: View, bound: int): AttackPoint -> bool {
    (p: AttackPoint) => DistanceTo(v, p.at) > bound
  }

  /** The points the pruning loop keeps: those within 100 of the nearest. */
  function Pruned(ps: seq<AttackPoint>, v: View): seq<AttackPoint>
    requires ps != []
  {
    Keep(ps, Remote(v, MinDistance(ps, v) + PruneMargin))
  }

  /** Pruning keeps exactly the points within 100 of the nearest, in order;
      the nearest itself always survives. */
  lemma PrunedFacts(ps: seq<AttackPoint>, v: View)
    requires ps != []
    ensures forall p :: p in Pruned(ps, v) <==> p in ps && DistanceTo(v, p.at) <= MinDistance(ps, v) + PruneMargin
    ensures SubSeq(Pruned(ps, v), ps)
    ensures Pruned(ps, v) != []
  {
    var bound := MinDistance(ps, v) + PruneMargin;
    var far := Remote(v, bound);
    var kept := Keep(ps, far);
    assert kept == Pruned(ps, v);
    assert forall p :: far(p) <==> DistanceTo(v, p.at) > bound;
    KeepSubSeq(ps, far);
    var nearest :| nearest in ps && MinDistance(ps, v) == DistanceTo(v, nearest.at);
    assert nearest in kept;
  }

  /** The pruning loop: the base cleanup pattern with a fixed bound. */
  method Prune(ps: seq<AttackPoint>, v: View) returns (r: seq<AttackPoint>)
    requires ps != []
    ensures r == Pruned(ps, v)
  {
    var far := Remote(v, MinDistance(ps, v) + PruneMargin);
    r := Cleanup(ps, Judge(far));
    CleanupPure(ps, far);
  }

  /** The decay step, applied only when there is a current point. Its double
      arithmetic is not modelled: `rescale` gives each point's new priority. */
  function Decay(ps: seq<AttackPoint>, current: Option<AttackPoint>, rescale: AttackPoint -> int): (r: seq<AttackPoint>)
    ensures |r| == |ps|
    ensures forall k | 0 <= k < |ps| :: r[k].at == ps[k].at && r[k].age == ps[k].age
    ensures current.None? ==> r == ps
  {
    if current.None? then ps
    else seq(|ps|, k requires 0 <= k < |ps| => ps[k].(priority := rescale(ps[k])))
  }

  /** The selection `foreach`: replace the best only by a strictly heavier
      point, so the first of the heaviest wins. */
  function SelectBest(ps: seq<AttackPoint>): (r: Option<AttackPoint>)
    ensures r.None? <==> ps == []
    ensures r.Some? ==> exists k | 0 <= k < |ps| :: ps[k] == r.value &&
                          (forall j | 0 <= j < |ps| :: ps[j].priority <= r.value.priority) &&
                          (forall j | 0 <= j < k :: ps[j].priority < r.value.priority)
  {
    var weight := (p: AttackPoint) => -p.priority;
    var k := NearestIndex(ps, AnyEntry, weight);
    if k.Some? then
      assert IsNearestAt(ps, AnyEntry, weight, k.value);
      Some(ps[k.value])
    else
      NearestOfAny(ps, weight);
      None
  }

  /** What `GetNextAttackPoint` computes. */
  function NextAttackPointSpec(v: View, current: Option<AttackPoint>, rescale: AttackPoint -> int): Option<AttackPoint> {
    var cs := Candidates(v);
    if cs == [] then None
    else
      SelectBest(Decay(Pruned(ClusterUpTo(cs, |cs|, v.dist), v), current, rescale))
  }

  /** The chosen point is a fresh point on some candidate's position, and
      there is one exactly when there is a candidate. */
  lemma NextAttackPointFacts(v: View, current: Option<AttackPoint>, rescale: AttackPoint -> int)
    ensures var r := NextAttackPointSpec(v, current, rescale);
      && (r.None? <==> Candidates(v) == [])
      && (r.Some? ==> r.value.age == 0 && exists c | c in Candidates(v) :: c.at == r.value.at)
  {
    var cs := Candidates(v);
    if cs != [] {
      var clustered := ClusterUpTo(cs, |cs|, v.dist);
      PickedFrom(clustered, v, current, rescale);
      var r := SelectBest(Decay(Pruned(clustered, v), current, rescale));
      var k :| 0 <= k < |clustered| && clustered[k].at == r.value.at && clustered[k].age == r.value.age;
      assert cs[k] in cs;
      CandidatesFresh(v);
    }
  }

  /** `GetNextAttackPoint`, with the clustering done by `GetAttackPoints`. */
  method NextAttackPoint(v: View, current: Option<AttackPoint>, rescale: AttackPoint -> int) returns (r: Option<AttackPoint>)
    ensures r == NextAttackPointSpec(v, current, rescale)
  {
    var cs := Candidates(v);
    if cs == [] {
      return None;
    }
    var clustered := Cluster(cs, v.dist);
    var pruned := Prune(clustered, v);
    r := SelectBest(Decay(pruned, current, rescale));
  }

  /** Pruning a non-empty list leaves a choice, and the choice sits on the
      position of some point of the list, with its age. */
  lemma PickedFrom(ps: seq<AttackPoint>, v: View, current: Option<AttackPoint>, rescale: AttackPoint -> int)
    requires ps != []
    ensures var r := SelectBest(Decay(Pruned(ps, v), current, rescale));
      r.Some? && exists k | 0 <= k < |ps| :: ps[k].at == r.value.at && ps[k].age == r.value.age
  {
    var pruned := Pruned(ps, v);
    PrunedFacts(ps, v);
    var decayed := Decay(pruned, current, rescale);
    var r := SelectBest(decayed);
    var k :| 0 <= k < |decayed| && decayed[k] == r.value;
    assert pruned[k] in pruned;
    var c :| 0 <= c < |ps| && ps[c] == pruned[k];
  }

  lemma CandidatesFresh(v: View)
    ensures forall c | c in Candidates(v) :: c.age == 0
  {
    var cs := Candidates(v);
    AntPointsMembers(v.memory.ants);
    SignalPointsMembers(v.signals);
    forall c | c in cs ensures c.age == 0 {
      assert c in AntPoints(v.memory.ants) || c in BugPoints(v.memory.bugs) || c in SignalPoints(v.signals);
    }
  }

  // ----- the role -----

  /** `GetNextTarget`: returns the target and the new current point. */
  method NextTarget(base: Option<Target>, current: Option<AttackPoint>, v: View, rescale: AttackPoint -> int)
    returns (target: Option<Target>, current': Option<AttackPoint>)
    ensures base.Some? ==> target == base && current' == current
    ensures base.None? && HeadingHome(v) ==> target.None? && current' == current
    ensures base.None? && !HeadingHome(v) && current.Some? && !current.value.Older().IsDeprecated() ==>
              target.None? && current' == Some(current.value.Older())
    ensures base.None? && !HeadingHome(v) && (current.None? || current.value.Older().IsDeprecated()) ==>
              current' == NextAttackPointSpec(v, if current.Some? then Some(current.value.Older()) else None, rescale) &&
              (current'.None? ==> target.None?) &&
              (current'.Some? ==> target == Some(SignalTarget(NewSignal(AttackPointKind, current'.value.at))))
  {
    if base.Some? {
      return base, current;
    }
    if HeadingHome(v) {
      return None, current;
    }
    var aged := if current.Some? then Some(current.value.Older()) else None;
    if aged.None? || aged.value.IsDeprecated() {
      current' := NextAttackPoint(v, aged, rescale);
      if current'.None? {
        target := None;
      } else {
        target := Some(SignalTarget(NewSignal(AttackPointKind, current'.value.at)));
      }
    } else {
      target := None;
      current' := aged;
    }
  }

  /** `GetNextSignal`: announce the current point while it is brand new,
      ahead of the base signal. */
  function NextSignal(base: Option<Signal>, current: Option<AttackPoint>): (r: Option<Signal>)
    ensures current.Some? && current.value.age == 0 ==> r == Some(NewSignal(AttackPointKind, current.value.at))
    ensures !(current.Some? && current.value.age == 0) ==> r == base
  {
    if current.Some? && current.value.age == 0 then Some(NewSignal(AttackPointKind, current.value.at)) else base
  }

  /** A point just chosen is announced on the same tick and no longer on the
      next one, when it has aged. */
  lemma AnnouncedOnce(p: AttackPoint, base: Option<Signal>)
    requires p.age == 0
    ensures NextSignal(base, Some(p)) == Some(NewSignal(AttackPointKind, p.at))
    ensures NextSignal(base, Some(p.Older())) == base
  {
  }
}
