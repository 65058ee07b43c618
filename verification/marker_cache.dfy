/**
 * `MarkerCache`: the list of marks this ant has already received. It
 * deduplicates by proximity on insertion (through the base `Add`) and ages
 * each entry as a side effect of the deprecation test, with no dominance
 * rule: an entry's fate depends only on its own type and age.
 */
module MarkerCache {
  import opened Geometry
  import opened Signals
  import opened CacheBase

  /** Same-type marks closer than this count as already received. */
  const ProximityRadius: int := 50

  /** Some cached mark of the same type lies strictly closer than 50. */
  predicate Near(list: seq<Signal>, m: Signal, dist: Metric) {
    exists i | 0 <= i < |list| ::
      list[i].infoType == m.infoType && dist(list[i].coords, m.coords) < ProximityRadius
  }

  /** `MarkerCache.Contains`: `base.Contains`, then the proximity test. */
  predicate Contains(list: seq<Signal>, m: Signal, dist: Metric): (r: bool)
    ensures m in list ==> r
    ensures r ==> exists e | e in list :: e.infoType == m.infoType
  {
    m in list || Near(list, m, dist)
  }

  /** Every mark the code queries is a freshly decoded object, so C#'s
      reference test never holds; the model's value test stands in for it.
      It changes nothing as long as a point lies within 50 of itself, as
      any distance puts it at 0: then a cached equal mark is also near. */
  lemma ValueTestRedundant(list: seq<Signal>, m: Signal, dist: Metric)
    requires dist(m.coords, m.coords) < ProximityRadius
    ensures Contains(list, m, dist) <==> Near(list, m, dist)
  {
    if m in list {
      var i :| 0 <= i < |list| && list[i] == m;
      assert list[i].infoType == m.infoType && dist(list[i].coords, m.coords) < ProximityRadius;
    }
  }

  /** The inherited `Add`: append unless `Contains`. */
  function Add(list: seq<Signal>, m: Signal, dist: Metric): (r: seq<Signal>)
    ensures Contains(list, m, dist) ==> r == list
    ensures !Contains(list, m, dist) ==> r == list + [m]
  {
    AddWith(list, m, (l, x) => Contains(l, x, dist))
  }

  /** No two same-type entries lie closer than 50 (measured from the earlier
      one, as `Contains` measures). */
  predicate Spread(list: seq<Signal>, dist: Metric) {
    forall i, j | 0 <= i < j < |list| && list[i].infoType == list[j].infoType ::
      dist(list[i].coords, list[j].coords) >= ProximityRadius
  }

  lemma AddKeepsSpread(list: seq<Signal>, m: Signal, dist: Metric)
    requires Spread(list, dist)
    ensures Spread(Add(list, m, dist), dist)
  {
    if !Contains(list, m, dist) {
      var r := list + [m];
      forall i, j | 0 <= i < j < |r| && r[i].infoType == r[j].infoType
        ensures dist(r[i].coords, r[j].coords) >= ProximityRadius
      {
        if j == |list| {
          assert !(list[i].infoType == m.infoType && dist(list[i].coords, m.coords) < ProximityRadius);
        }
      }
    }
  }

  /** A cache filled only by `Add`, starting empty. */
  function AddAll(list: seq<Signal>, ms: seq<Signal>, dist: Metric): seq<Signal>
    decreases |ms|
  {
    if ms == [] then list else AddAll(Add(list, ms[0], dist), ms[1..], dist)
  }

  /** However the marks arrive, a cache built by `Add` never holds two
      same-type marks closer than 50. */
  lemma {:induction false} AddAllSpread(list: seq<Signal>, ms: seq<Signal>, dist: Metric)
    requires Spread(list, dist)
    ensures Spread(AddAll(list, ms, dist), dist)
    decreases |ms|
  {
    if ms != [] {
      AddKeepsSpread(list, ms[0], dist);
      AddAllSpread(Add(list, ms[0], dist), ms[1..], dist);
    }
  }

  // ----- cleanup -----

  /** How old a mark may get: 1 for bug and ant reports, 6 otherwise. */
  function MaxAge(infoType: nat): nat {
    if infoType == BugSpotted || infoType == AntSpotted then 1 else 6
  }

  /** Past the lifetime of its type: anything older than 6 is expired, nothing
      of age 1 or less is, and only bug and ant marks expire in between. */
  predicate Expired(m: Signal): (r: bool)
    ensures m.age > 6 ==> r
    ensures m.age <= 1 ==> !r
    ensures m.infoType != BugSpotted && m.infoType != AntSpotted ==> (r <==> m.age > 6)
  {
    m.age > MaxAge(m.infoType)
  }

  /** `MarkerCache.IsDeprecated`: `Age++`, then the age test on the new age. */
  function Examiner(): Examine<Signal> {
    (others: seq<Signal>, m: Signal) => (Older(m), Expired(Older(m)))
  }

  /** The meaning of one cleanup: every mark one tick older, then the expired
      ones dropped. */
  function CleanupSpec(list: seq<Signal>): seq<Signal> {
    Keep(Aged(list), Expired)
  }

  /** The base cleanup loop with the ageing predicate. Every mark is examined
      exactly once, so every survivor is exactly one tick older. */
  method Cleanup(list: seq<Signal>) returns (r: seq<Signal>)
    ensures r == CleanupSpec(list)
    ensures SubSeq(r, Aged(list))
  {
    r := CacheBase.Cleanup(list, Examiner());
    SweepIsKeep(list);
    KeepSubSeq(Aged(list), Expired);
  }

  /** No dominance: the examination never looks at the other entries. */
  lemma ExaminerIndependent()
    ensures ListIndependent(Examiner())
  {
  }

  lemma {:induction false} SurvivorsAreKeep(list: seq<Signal>)
    ensures Survivors(list, Examiner()) == Keep(Aged(list), Expired)
    decreases |list|
  {
    if list != [] {
      SurvivorsAreKeep(list[1..]);
      assert Aged(list)[1..] == Aged(list[1..]);
    }
  }

  lemma SweepIsKeep(list: seq<Signal>)
    ensures Sweep([], list, Examiner()) == CleanupSpec(list)
  {
    ExaminerIndependent();
    SweepIndependent([], list, Examiner());
    SurvivorsAreKeep(list);
  }

  /** Applying the cleanup `n` times. */
  function Iterate(n: nat, list: seq<Signal>): seq<Signal> {
    if n == 0 then list else CleanupSpec(Iterate(n - 1, list))
  }

  /** A fresh mark survives `MaxAge` cleanups and goes on the next: bug and
      ant marks on the 2nd cleanup, all other types on the 7th. Other marks
      in the cache make no difference, since each is judged alone. */
  lemma {:induction false} Lifetime(m: Signal, n: nat)
    requires m.age == 0
    ensures n <= MaxAge(m.infoType) ==> Iterate(n, [m]) == [m.(age := n)]
    ensures n == MaxAge(m.infoType) + 1 ==> Iterate(n, [m]) == []
  {
    if n > 0 && n - 1 <= MaxAge(m.infoType) {
      Lifetime(m, n - 1);
      var prev := m.(age := n - 1);
      assert Iterate(n - 1, [m]) == [prev];
      assert Iterate(n, [m]) == CleanupSpec([prev]);
      SingletonStep(prev);
      assert Older(prev) == m.(age := n);
    }
  }

  /** A mark alone in its list ages by one and stays unless it expires. */
  lemma SingletonStep(m: Signal)
    ensures !Expired(Older(m)) ==> CleanupSpec([m]) == [Older(m)]
    ensures Expired(Older(m)) ==> CleanupSpec([m]) == []
  {
    assert Aged([m]) == [Older(m)];
    assert [Older(m)][1..] == [];
  }

  /** The fate of a mark does not depend on its neighbours: cleaning a list
      is cleaning each part separately. */
  lemma CleanupSplits(a: seq<Signal>, b: seq<Signal>)
    ensures CleanupSpec(a + b) == CleanupSpec(a) + CleanupSpec(b)
  {
    AgedAppend(a, b);
    KeepAppend(Aged(a), Aged(b), Expired);
  }

  lemma AgedAppend(a: seq<Signal>, b: seq<Signal>)
    ensures Aged(a + b) == Aged(a) + Aged(b)
  {
  }
}
