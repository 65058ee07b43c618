/**
 * `SignalCache`: the per-type list of received signals, with insertion that
 * never deduplicates, a proximity `Contains`, and a cleanup that first ages
 * every signal and then removes, one index at a time, each signal that is
 * too old or dominated by a not-older same-type signal nearby.
 */
module SignalCache {
  import opened Geometry
  import opened Signals
  import opened CacheBase

  /** Same-type signals closer than this count as already known. */
  const ProximityRadius: int := 50
  /** A not-older same-type signal closer than this makes a signal redundant. */
  const DominanceRadius: int := 70

  /** `SignalCache.Add` overrides the base `Add` and always appends. */
  function Add(list: seq<Signal>, s: Signal): (r: seq<Signal>)
    ensures |r| == |list| + 1
    ensures r[..|list|] == list && r[|list|] == s
  {
    list + [s]
  }

  /** `SignalCache.Contains`: the signal itself is cached, or some cached
      signal of the same type lies strictly closer than 50. */
  predicate Contains(list: seq<Signal>, s: Signal, dist: Metric): (r: bool)
    ensures s in list ==> r
    ensures r ==> exists e | e in list :: e.infoType == s.infoType
  {
    s in list ||
    exists i | 0 <= i < |list| ::
      list[i].infoType == s.infoType && dist(list[i].coords, s.coords) < ProximityRadius
  }

  /** Unlike the base `Add`, which consults `Contains`, the signal cache grows
      even when the signal is already known. */
  lemma AddIgnoresContains(list: seq<Signal>, s: Signal, dist: Metric)
    requires Contains(list, s, dist)
    ensures |Add(list, s)| == |list| + 1
    ensures AddWith(list, s, (l, x) => Contains(l, x, dist)) == list
  {
  }

  /** The radius is strict: a same-type signal at exactly 50 is not enough,
      one at 49 is. */
  lemma ContainsRadius(e: Signal, s: Signal, dist: Metric)
    requires e != s && e.infoType == s.infoType
    ensures dist(e.coords, s.coords) == ProximityRadius ==> !Contains([e], s, dist)
    ensures dist(e.coords, s.coords) == ProximityRadius - 1 ==> Contains([e], s, dist)
  {
    if dist(e.coords, s.coords) == ProximityRadius - 1 {
      assert [e][0].infoType == s.infoType;
    }
  }

  // ----- ageing -----

  /** How many cleanups a signal of a type outlives: bug and ant reports 1,
      sugar 15, everything else 6. */
  function Lifetime(infoType: nat): nat {
    if infoType == BugSpotted || infoType == AntSpotted then 1
    else if infoType == SugarSpotted then 15
    else 6
  }

  predicate TooOld(s: Signal) {
    s.age > Lifetime(s.infoType)
  }

  /** `other` makes `s` redundant: same type, not older, closer than 70. */
  predicate Dominates(other: Signal, s: Signal, dist: Metric) {
    other.age <= s.age && other.infoType == s.infoType && dist(other.coords, s.coords) < DominanceRadius
  }

  /** `SignalCache.IsDeprecated`, given the other entries of the current list. */
  predicate Deprecated(s: Signal, others: seq<Signal>, dist: Metric): (r: bool)
    ensures TooOld(s) ==> r
    ensures others == [] ==> r == TooOld(s)
  {
    (exists y | y in others :: Dominates(y, s, dist)) || TooOld(s)
  }

  function Examiner(dist: Metric): Examine<Signal> {
    (others: seq<Signal>, s: Signal) => (s, Deprecated(s, others, dist))
  }

  lemma ExaminerNonMutating(dist: Metric)
    ensures NonMutating(Examiner(dist))
  {
  }

  /** The meaning of one cleanup: age everything, then sweep. */
  function CleanupSpec(list: seq<Signal>, dist: Metric): seq<Signal> {
    Sweep([], Aged(list), Examiner(dist))
  }

  /** `SignalCache.Cleanup`: the `foreach` that increments every age, then
      the base cleanup loop with the dominance-and-age predicate. */
  method Cleanup(list: seq<Signal>, dist: Metric) returns (r: seq<Signal>)
    ensures r == CleanupSpec(list, dist)
    ensures SubSeq(r, Aged(list))
    ensures forall x | x in r :: !TooOld(x)
  {
    var aged := list;
    var i := 0;
    while i < |aged|
      invariant 0 <= i <= |aged| == |list|
      invariant forall j | 0 <= j < i :: aged[j] == Older(list[j])
      invariant forall j | i <= j < |aged| :: aged[j] == list[j]
    {
      aged := aged[i := Older(aged[i])];
      i := i + 1;
    }
    assert aged == Aged(list);
    r := CacheBase.Cleanup(aged, Examiner(dist));
    ExaminerNonMutating(dist);
    SweepSubSeq([], aged, Examiner(dist));
    SweepFresh([], aged, dist);
  }

  // ----- properties of the cleanup -----

  /** Nothing the sweep keeps is too old. */
  lemma {:induction false} SweepFresh(kept: seq<Signal>, rest: seq<Signal>, dist: Metric)
    requires forall x | x in kept :: !TooOld(x)
    ensures forall x | x in Sweep(kept, rest, Examiner(dist)) :: !TooOld(x)
    decreases |rest|
  {
    if rest != [] {
      var verdict := Examiner(dist)(kept + rest[1..], rest[0]);
      if verdict.1 {
        SweepFresh(kept, rest[1..], dist);
      } else {
        SweepFresh(kept + [rest[0]], rest[1..], dist);
      }
    }
  }

  /** Applying the cleanup `n` times. */
  function Iterate(n: nat, list: seq<Signal>, dist: Metric): seq<Signal> {
    if n == 0 then list else CleanupSpec(Iterate(n - 1, list, dist), dist)
  }

  /** A signal alone in the cache has no dominator: one cleanup ages it and
      keeps it unless it is then too old. */
  lemma SingletonStep(t: Signal, dist: Metric)
    ensures !TooOld(Older(t)) ==> CleanupSpec([t], dist) == [Older(t)]
    ensures TooOld(Older(t)) ==> CleanupSpec([t], dist) == []
  {
    var e := Examiner(dist);
    var aged := Aged([t]);
    assert aged == [Older(t)];
    assert aged[1..] == [];
    var verdict := e([] + aged[1..], aged[0]);
    assert verdict == (Older(t), Deprecated(Older(t), [], dist));
    assert verdict.1 == TooOld(Older(t));
    if verdict.1 {
      assert Sweep([], aged, e) == Sweep([], [], e);
    } else {
      assert Sweep([], aged, e) == Sweep([Older(t)], [], e);
    }
  }

  /** An isolated signal is never dominated: it survives exactly as many
      cleanups as its type's lifetime, ageing by one each time. A fresh bug or
      ant report survives the first cleanup and goes on the second, a sugar
      report survives 15 and goes on the 16th, any other type goes on the
      7th. */
  lemma {:induction false} IsolatedLifetime(s: Signal, n: nat, dist: Metric)
    requires s.age == 0
    ensures n <= Lifetime(s.infoType) ==> Iterate(n, [s], dist) == [s.(age := n)]
    ensures n == Lifetime(s.infoType) + 1 ==> Iterate(n, [s], dist) == []
  {
    if n > 0 {
      IsolatedLifetime(s, n - 1, dist);
      if n - 1 <= Lifetime(s.infoType) {
        var t := s.(age := n - 1);
        SingletonStep(t, dist);
        assert Older(t) == s.(age := n);
      }
    }
  }

  /** Two same-type signals of equal age, the later one within 70 of the
      earlier: the earlier is dominated and removed, and the later one is then
      judged alone, so exactly one remains unless it is too old. */
  lemma EqualAgePair(a: Signal, b: Signal, dist: Metric)
    requires a.infoType == b.infoType && a.age == b.age
    requires dist(b.coords, a.coords) < DominanceRadius
    ensures !TooOld(Older(b)) ==> CleanupSpec([a, b], dist) == [Older(b)]
    ensures TooOld(Older(b)) ==> CleanupSpec([a, b], dist) == []
  {
    var e := Examiner(dist);
    var aged := Aged([a, b]);
    assert aged == [Older(a), Older(b)];
    assert Dominates(Older(b), Older(a), dist);
    assert aged[1..] == [Older(b)];
    assert [] + aged[1..] == [Older(b)];
    assert Older(b) in [] + aged[1..];
    assert e([] + aged[1..], aged[0]).1;
    assert Sweep([], aged, e) == Sweep([], [Older(b)], e);
    assert [Older(b)][1..] == [];
    assert [] + [Older(b)][1..] == [];
    assert !e([], Older(b)).1 <==> !TooOld(Older(b));
    assert Sweep([], [Older(b)], e) == if TooOld(Older(b)) then [] else Sweep([Older(b)], [], e);
  }

  /** No entry other than `x` itself dominates it. */
  predicate Undominated(x: Signal, others: seq<Signal>, dist: Metric) {
    forall y | y in others :: !Dominates(y, x, dist)
  }

  /** A signal that nothing else in the list dominates is kept by the sweep
      exactly when it is not too old: entries only disappear, so nothing can
      come to dominate it later. */
  lemma {:induction false} SweepKeepsUndominated(kept: seq<Signal>, rest: seq<Signal>, p: nat, dist: Metric)
    requires p < |rest|
    requires Undominated(rest[p], kept + rest[..p] + rest[p + 1..], dist)
    requires !TooOld(rest[p])
    ensures rest[p] in Sweep(kept, rest, Examiner(dist))
    decreases |rest|
  {
    if p == 0 {
      SweepKeepsHead(kept, rest, dist);
    } else {
      var verdict := Examiner(dist)(kept + rest[1..], rest[0]);
      var kept' := if verdict.1 then kept else kept + [rest[0]];
      UndominatedAfterStep(kept, rest, p, kept', dist);
      SweepKeepsUndominated(kept', rest[1..], p - 1, dist);
    }
  }

  /** The head of the rest, undominated and young, is kept at once. */
  lemma SweepKeepsHead(kept: seq<Signal>, rest: seq<Signal>, dist: Metric)
    requires rest != []
    requires Undominated(rest[0], kept + rest[..0] + rest[1..], dist)
    requires !TooOld(rest[0])
    ensures rest[0] in Sweep(kept, rest, Examiner(dist))
  {
    var x := rest[0];
    ExaminerNonMutating(dist);
    assert kept + rest[..0] + rest[1..] == kept + rest[1..];
    SweepSubSeq(kept + [x], rest[1..], Examiner(dist));
    var r := Sweep(kept + [x], rest[1..], Examiner(dist));
    assert r[..|kept| + 1][|kept|] == x;
  }

  /** After one step of the sweep, the entries around `rest[p]` are a subset
      of those before, so it is still undominated. */
  lemma UndominatedAfterStep(kept: seq<Signal>, rest: seq<Signal>, p: nat, kept': seq<Signal>, dist: Metric)
    requires 0 < p < |rest|
    requires kept' == kept || kept' == kept + [rest[0]]
    requires Undominated(rest[p], kept + rest[..p] + rest[p + 1..], dist)
    ensures rest[1..][p - 1] == rest[p]
    ensures Undominated(rest[p], kept' + rest[1..][..p - 1] + rest[1..][p..], dist)
  {
    var x := rest[p];
    var rest' := rest[1..];
    assert rest'[..p - 1] == rest[1..p];
    assert rest'[p..] == rest[p + 1..];
    assert rest[..p] == [rest[0]] + rest[1..p];
    forall y | y in kept' + rest'[..p - 1] + rest'[p..]
      ensures !Dominates(y, x, dist)
    {
      assert y in kept + rest[..p] + rest[p + 1..];
    }
  }

  /** Same-type neighbours within 70 of `list[k]`, other than itself, are all
      strictly older. */
  predicate StrictlyYoungest(list: seq<Signal>, k: nat, dist: Metric)
    requires k < |list|
  {
    forall j | 0 <= j < |list| && j != k ::
      (list[j].infoType == list[k].infoType && dist(list[j].coords, list[k].coords) < DominanceRadius
       ==> list[j].age > list[k].age)
  }

  /** A signal strictly younger than every same-type signal within 70 is
      never removed by the dominance rule: it survives the cleanup exactly
      when its own age allows. */
  lemma YoungestSurvives(list: seq<Signal>, k: nat, dist: Metric)
    requires k < |list| && StrictlyYoungest(list, k, dist)
    ensures Older(list[k]) in CleanupSpec(list, dist) <==> !TooOld(Older(list[k]))
  {
    var aged := Aged(list);
    var x := aged[k];
    ExaminerNonMutating(dist);
    SweepFresh([], aged, dist);
    if !TooOld(x) {
      forall y | y in [] + aged[..k] + aged[k + 1..]
        ensures !Dominates(y, x, dist)
      {
        var j :| (0 <= j < k || k < j < |aged|) && aged[j] == y;
      }
      SweepKeepsUndominated([], aged, k, dist);
    }
  }

  // ----- types do not interact -----

  /** The signals of one type, in order. */
  function OfType(list: seq<Signal>, t: nat): (r: seq<Signal>)
    ensures forall x :: x in r <==> x in list && x.infoType == t
    decreases |list|
  {
    if list == [] then []
    else (if list[0].infoType == t then [list[0]] else []) + OfType(list[1..], t)
  }

  lemma {:induction false} OfTypeAppend(a: seq<Signal>, b: seq<Signal>, t: nat)
    ensures OfType(a + b, t) == OfType(a, t) + OfType(b, t)
    decreases |a|
  {
    if a != [] {
      assert (a + b)[1..] == a[1..] + b;
      OfTypeAppend(a[1..], b, t);
    } else {
      assert a + b == b;
    }
  }

  /** Only same-type signals can dominate. */
  lemma DominatorsOfType(x: Signal, others: seq<Signal>, dist: Metric)
    ensures Deprecated(x, others, dist) == Deprecated(x, OfType(others, x.infoType), dist)
  {
  }

  /** The verdict on a signal is the same whether the other types are in
      the list or not. */
  lemma SameVerdict(x: Signal, kept: seq<Signal>, tail: seq<Signal>, dist: Metric)
    ensures Deprecated(x, kept + tail, dist) ==
            Deprecated(x, OfType(kept, x.infoType) + OfType(tail, x.infoType), dist)
  {
    OfTypeAppend(kept, tail, x.infoType);
    DominatorsOfType(x, kept + tail, dist);
  }

  /** One step of the sweep, on a signal of the selected type. */
  lemma SweepStepOfType(kept: seq<Signal>, x: Signal, tail: seq<Signal>, dist: Metric)
    ensures var t := x.infoType;
      var kept' := if Deprecated(x, kept + tail, dist) then kept else kept + [x];
      Sweep(OfType(kept, t), OfType([x] + tail, t), Examiner(dist)) ==
      Sweep(OfType(kept', t), OfType(tail, t), Examiner(dist))
  {
    var t := x.infoType;
    var fk, ft := OfType(kept, t), OfType(tail, t);
    assert ([x] + tail)[1..] == tail;
    assert OfType([x] + tail, t) == [x] + ft;
    assert ([x] + ft)[1..] == ft;
    SameVerdict(x, kept, tail, dist);
    OfTypeAppend(kept, [x], t);
    assert [x][1..] == [];
    assert OfType([x], t) == [x];
    var e := Examiner(dist);
    assert e(fk + ([x] + ft)[1..], x).1 == Deprecated(x, kept + tail, dist);
  }

  /** One step of the sweep, on a signal of another type. */
  lemma SweepStepOtherType(kept: seq<Signal>, x: Signal, tail: seq<Signal>, t: nat, dist: Metric)
    requires x.infoType != t
    ensures var kept' := if Deprecated(x, kept + tail, dist) then kept else kept + [x];
      OfType([x] + tail, t) == OfType(tail, t) && OfType(kept', t) == OfType(kept, t)
  {
    assert ([x] + tail)[1..] == tail;
    OfTypeAppend(kept, [x], t);
  }

  /** Signals of other types never affect the cleanup of a type: cleaning up
      and then selecting a type is the same as cleaning up that type alone. */
  lemma {:induction false} SweepByType(kept: seq<Signal>, rest: seq<Signal>, t: nat, dist: Metric)
    ensures OfType(Sweep(kept, rest, Examiner(dist)), t) ==
            Sweep(OfType(kept, t), OfType(rest, t), Examiner(dist))
    decreases |rest|
  {
    if rest != [] {
      var x, tail := rest[0], rest[1..];
      assert rest == [x] + tail;
      var kept' := if Deprecated(x, kept + tail, dist) then kept else kept + [x];
      assert Sweep(kept, rest, Examiner(dist)) == Sweep(kept', tail, Examiner(dist));
      SweepByType(kept', tail, t, dist);
      if x.infoType == t {
        SweepStepOfType(kept, x, tail, dist);
      } else {
        SweepStepOtherType(kept, x, tail, t, dist);
      }
    }
  }

  lemma {:induction false} AgedByType(list: seq<Signal>, t: nat)
    ensures OfType(Aged(list), t) == Aged(OfType(list, t))
    decreases |list|
  {
    if list != [] {
      AgedByType(list[1..], t);
      assert Aged(list)[1..] == Aged(list[1..]);
      if list[0].infoType == t {
        assert OfType(list, t) == [list[0]] + OfType(list[1..], t);
        assert OfType(list, t)[1..] == OfType(list[1..], t);
      }
    }
  }

  /** The whole cleanup, per type. */
  lemma CleanupByType(list: seq<Signal>, t: nat, dist: Metric)
    ensures OfType(CleanupSpec(list, dist), t) == CleanupSpec(OfType(list, t), dist)
  {
    SweepByType([], Aged(list), t, dist);
    AgedByType(list, t);
  }
}
