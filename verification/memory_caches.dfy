/**
 * The composite caches: `SignalMemoryCache` and `MarkerMemoryCache`, which
 * route a signal or mark to one of four per-type lists and drop every other
 * type, and `MemoryCache`, the ant's whole memory of items and marks.
 *
 * The two routing caches have the same shape and differ only in the list
 * they route into, so one `Routed` record and one routing function serve
 * both.
 */
module MemoryCaches {
  import opened Geometry
  import opened Signals
  import opened Items
  import opened CacheBase
  import SignalCache
  import MarkerCache
  import ItemCaches

  /** Four per-type lists: fruit needing carriers, sugar, bugs, enemy ants. */
  datatype Routed = Routed(fruits: seq<Signal>, sugar: seq<Signal>, bugs: seq<Signal>, ants: seq<Signal>)

  /** The state the constructor leaves: four empty lists. */
  const EmptyRouted := Routed([], [], [], [])

  /** The list a given type is routed to; no list for types 4 and above. */
  function Slot(m: Routed, t: nat): seq<Signal> {
    if t == BugSpotted then m.bugs
    else if t == AntSpotted then m.ants
    else if t == SugarSpotted then m.sugar
    else if t == FruitNeedsCarriers then m.fruits
    else []
  }

  predicate OnlyType(list: seq<Signal>, t: nat) {
    forall x | x in list :: x.infoType == t
  }

  /** Every list holds only its own type. */
  predicate WellRouted(m: Routed) {
    OnlyType(m.bugs, BugSpotted) && OnlyType(m.ants, AntSpotted) &&
    OnlyType(m.sugar, SugarSpotted) && OnlyType(m.fruits, FruitNeedsCarriers)
  }

  lemma EmptyIsWellRouted()
    ensures WellRouted(EmptyRouted)
  {
  }

  /** Two routed caches are equal when all four lists are. */
  lemma SlotsDetermine(a: Routed, b: Routed)
    requires forall t | 0 <= t < 4 :: Slot(a, t) == Slot(b, t)
    ensures a == b
  {
    assert Slot(a, 0) == Slot(b, 0) && Slot(a, 1) == Slot(b, 1);
    assert Slot(a, 2) == Slot(b, 2) && Slot(a, 3) == Slot(b, 3);
  }

  /** The `Add` of both routing caches, given the sub-cache's own `Add`: the
      type tests in order bug, ant, sugar, fruit-needs-carriers, and nothing
      for any other type. */
  function Route(m: Routed, s: Signal, add: (seq<Signal>, Signal) -> seq<Signal>): (r: Routed)
    ensures forall t | t != s.infoType :: Slot(r, t) == Slot(m, t)
    ensures s.infoType < 4 ==> Slot(r, s.infoType) == add(Slot(m, s.infoType), s)
    ensures s.infoType >= 4 ==> r == m
  {
    if s.IsBugSpotted() then m.(bugs := add(m.bugs, s))
    else if s.IsAntSpotted() then m.(ants := add(m.ants, s))
    else if s.IsSugarSpotted() then m.(sugar := add(m.sugar, s))
    else if s.IsFruitNeedsCarriers() then m.(fruits := add(m.fruits, s))
    else m
  }

  /** The `Contains` of both routing caches: the disjunction over the four
      lists, in the order fruit, sugar, bugs, ants. */
  predicate AnyContains(m: Routed, s: Signal, contains: (seq<Signal>, Signal) -> bool) {
    contains(m.fruits, s) || contains(m.sugar, s) || contains(m.bugs, s) || contains(m.ants, s)
  }

  // ----- SignalMemoryCache -----

  function AddSignal(m: Routed, s: Signal): (r: Routed)
    ensures forall t | t != s.infoType :: Slot(r, t) == Slot(m, t)
    ensures s.infoType < 4 ==> Slot(r, s.infoType) == Slot(m, s.infoType) + [s]
    ensures s.infoType >= 4 ==> r == m
  {
    Route(m, s, SignalCache.Add)
  }

  /** Any cached copy of the signal is found, and a hit needs a cached
      signal of the same type in one of the four lists. */
  predicate ContainsSignal(m: Routed, s: Signal, dist: Metric): (r: bool)
    ensures s in m.fruits + m.sugar + m.bugs + m.ants ==> r
    ensures r ==> exists x | x in m.fruits + m.sugar + m.bugs + m.ants :: x.infoType == s.infoType
  {
    AnyContains(m, s, (l, x) => SignalCache.Contains(l, x, dist))
  }

  lemma AddSignalWellRouted(m: Routed, s: Signal)
    requires WellRouted(m)
    ensures WellRouted(AddSignal(m, s))
  {
  }

  /** In a well-routed cache, `Contains` asks only the list of the signal's
      own type, and is false for any type that has no list. */
  lemma ContainsSignalRoutes(m: Routed, s: Signal, dist: Metric)
    requires WellRouted(m)
    ensures s.infoType < 4 ==> (ContainsSignal(m, s, dist) <==> SignalCache.Contains(Slot(m, s.infoType), s, dist))
    ensures s.infoType >= 4 ==> !ContainsSignal(m, s, dist)
  {
    if s.infoType != FruitNeedsCarriers { ForeignSignal(m.fruits, FruitNeedsCarriers, s, dist); }
    if s.infoType != SugarSpotted { ForeignSignal(m.sugar, SugarSpotted, s, dist); }
    if s.infoType != BugSpotted { ForeignSignal(m.bugs, BugSpotted, s, dist); }
    if s.infoType != AntSpotted { ForeignSignal(m.ants, AntSpotted, s, dist); }
  }

  /** A list holding only another type never contains the signal. */
  lemma ForeignSignal(list: seq<Signal>, t: nat, s: Signal, dist: Metric)
    requires OnlyType(list, t)
    requires s.infoType != t
    ensures !SignalCache.Contains(list, s, dist)
  {
    assert forall i | 0 <= i < |list| :: list[i] in list;
  }

  /** `SignalMemoryCache.Cleanup`: each list cleaned once, in the order
      fruit, sugar, bugs, ants. */
  method CleanupSignals(m: Routed, dist: Metric) returns (r: Routed)
    ensures forall t | 0 <= t < 4 :: Slot(r, t) == SignalCache.CleanupSpec(Slot(m, t), dist)
    ensures WellRouted(m) ==> WellRouted(r)
  {
    var fruits := SignalCache.Cleanup(m.fruits, dist);
    var sugar := SignalCache.Cleanup(m.sugar, dist);
    var bugs := SignalCache.Cleanup(m.bugs, dist);
    var ants := SignalCache.Cleanup(m.ants, dist);
    r := Routed(fruits, sugar, bugs, ants);
    if WellRouted(m) {
      SignalCleanupKeepsType(m.fruits, FruitNeedsCarriers, dist);
      SignalCleanupKeepsType(m.sugar, SugarSpotted, dist);
      SignalCleanupKeepsType(m.bugs, BugSpotted, dist);
      SignalCleanupKeepsType(m.ants, AntSpotted, dist);
    }
  }

  lemma SignalCleanupKeepsType(list: seq<Signal>, t: nat, dist: Metric)
    requires OnlyType(list, t)
    ensures OnlyType(SignalCache.CleanupSpec(list, dist), t)
  {
    SignalCache.ExaminerNonMutating(dist);
    SweepSubSeq([], Aged(list), SignalCache.Examiner(dist));
    var r := SignalCache.CleanupSpec(list, dist);
    assert r[0..] == r;
    SubSeqMembers(r, Aged(list));
    AgedKeepsTypes(list, t);
  }

  lemma AgedKeepsTypes(list: seq<Signal>, t: nat)
    requires OnlyType(list, t)
    ensures OnlyType(Aged(list), t)
  {
    forall x | x in Aged(list)
      ensures x.infoType == t
    {
      var i :| 0 <= i < |list| && Aged(list)[i] == x;
      assert list[i] in list;
    }
  }

  // ----- MarkerMemoryCache -----

  function AddMarker(m: Routed, s: Signal, dist: Metric): (r: Routed)
    ensures forall t | t != s.infoType :: Slot(r, t) == Slot(m, t)
    ensures s.infoType < 4 ==> Slot(r, s.infoType) == MarkerCache.Add(Slot(m, s.infoType), s, dist)
    ensures s.infoType >= 4 ==> r == m
  {
    Route(m, s, (l, x) => MarkerCache.Add(l, x, dist))
  }

  /** Any cached copy of the mark is found, and a hit needs a cached mark of
      the same type in one of the four lists. */
  predicate ContainsMarker(m: Routed, s: Signal, dist: Metric): (r: bool)
    ensures s in m.fruits + m.sugar + m.bugs + m.ants ==> r
    ensures r ==> exists x | x in m.fruits + m.sugar + m.bugs + m.ants :: x.infoType == s.infoType
  {
    AnyContains(m, s, (l, x) => MarkerCache.Contains(l, x, dist))
  }

  /** Every list of the marker memory keeps same-type marks 50 apart. */
  predicate Spread(m: Routed, dist: Metric) {
    MarkerCache.Spread(m.bugs, dist) && MarkerCache.Spread(m.ants, dist) &&
    MarkerCache.Spread(m.sugar, dist) && MarkerCache.Spread(m.fruits, dist)
  }

  lemma AddMarkerInvariants(m: Routed, s: Signal, dist: Metric)
    requires WellRouted(m) && Spread(m, dist)
    ensures WellRouted(AddMarker(m, s, dist)) && Spread(AddMarker(m, s, dist), dist)
  {
    var r := AddMarker(m, s, dist);
    if s.infoType < 4 {
      var t := s.infoType;
      MarkerCache.AddKeepsSpread(Slot(m, t), s, dist);
      AddMarkerKeepsType(Slot(m, t), s, dist);
      assert Slot(r, t) == MarkerCache.Add(Slot(m, t), s, dist);
      assert forall u | u != t :: Slot(r, u) == Slot(m, u);
      assert Slot(r, 0) == r.bugs && Slot(r, 1) == r.ants && Slot(r, 2) == r.sugar && Slot(r, 3) == r.fruits;
      assert Slot(m, 0) == m.bugs && Slot(m, 1) == m.ants && Slot(m, 2) == m.sugar && Slot(m, 3) == m.fruits;
    }
  }

  lemma AddMarkerKeepsType(list: seq<Signal>, s: Signal, dist: Metric)
    requires OnlyType(list, s.infoType)
    ensures OnlyType(MarkerCache.Add(list, s, dist), s.infoType)
  {
  }

  lemma ContainsMarkerRoutes(m: Routed, s: Signal, dist: Metric)
    requires WellRouted(m)
    ensures s.infoType < 4 ==> (ContainsMarker(m, s, dist) <==> MarkerCache.Contains(Slot(m, s.infoType), s, dist))
    ensures s.infoType >= 4 ==> !ContainsMarker(m, s, dist)
  {
    if s.infoType != FruitNeedsCarriers { ForeignMarker(m.fruits, FruitNeedsCarriers, s, dist); }
    if s.infoType != SugarSpotted { ForeignMarker(m.sugar, SugarSpotted, s, dist); }
    if s.infoType != BugSpotted { ForeignMarker(m.bugs, BugSpotted, s, dist); }
    if s.infoType != AntSpotted { ForeignMarker(m.ants, AntSpotted, s, dist); }
  }

  lemma ForeignMarker(list: seq<Signal>, t: nat, s: Signal, dist: Metric)
    requires OnlyType(list, t)
    requires s.infoType != t
    ensures !MarkerCache.Contains(list, s, dist)
  {
    assert forall i | 0 <= i < |list| :: list[i] in list;
  }

  /** Once routed, a mark is contained: after adding, `Contains` is true. */
  lemma AddedMarkerContained(m: Routed, s: Signal, dist: Metric)
    requires s.infoType < 4
    ensures ContainsMarker(AddMarker(m, s, dist), s, dist)
  {
    var before := Slot(m, s.infoType);
    var after := Slot(AddMarker(m, s, dist), s.infoType);
    assert MarkerCache.Contains(after, s, dist) by {
      if !MarkerCache.Contains(before, s, dist) {
        assert after[|before|] == s;
      }
    }
  }

  /** `MarkerMemoryCache.Cleanup`: each list cleaned once. */
  method CleanupMarkers(m: Routed) returns (r: Routed)
    ensures forall t | 0 <= t < 4 :: Slot(r, t) == MarkerCache.CleanupSpec(Slot(m, t))
    ensures WellRouted(m) ==> WellRouted(r)
  {
    var fruits := MarkerCache.Cleanup(m.fruits);
    var sugar := MarkerCache.Cleanup(m.sugar);
    var bugs := MarkerCache.Cleanup(m.bugs);
    var ants := MarkerCache.Cleanup(m.ants);
    r := Routed(fruits, sugar, bugs, ants);
    forall t | 0 <= t < 4
      ensures Slot(r, t) == MarkerCache.CleanupSpec(Slot(m, t))
    {
      if t == BugSpotted {
        assert Slot(r, t) == bugs && Slot(m, t) == m.bugs;
      } else if t == AntSpotted {
        assert Slot(r, t) == ants && Slot(m, t) == m.ants;
      } else if t == SugarSpotted {
        assert Slot(r, t) == sugar && Slot(m, t) == m.sugar;
      } else {
        assert Slot(r, t) == fruits && Slot(m, t) == m.fruits;
      }
    }
    if WellRouted(m) {
      MarkerCleanupKeepsType(m.fruits, FruitNeedsCarriers);
      MarkerCleanupKeepsType(m.sugar, SugarSpotted);
      MarkerCleanupKeepsType(m.bugs, BugSpotted);
      MarkerCleanupKeepsType(m.ants, AntSpotted);
    }
  }

  lemma MarkerCleanupKeepsType(list: seq<Signal>, t: nat)
    requires OnlyType(list, t)
    ensures OnlyType(MarkerCache.CleanupSpec(list), t)
  {
    AgedKeepsTypes(list, t);
  }

  // ----- MemoryCache -----

  /** The ant's whole memory. The five sub-caches are fields of a value, so
      none can be replaced other than by the operations below. */
  datatype Memory = Memory(fruits: seq<Food>, sugar: seq<Food>, bugs: seq<Insect>, ants: seq<Insect>, markers: Routed)

  const EmptyMemory := Memory([], [], [], [], EmptyRouted)

  /** `MemoryCache.Add(Fruit)`: by reference, so a fruit already cached is
      refreshed in place and a new one appended; no other cache changes. */
  function AddFruit(m: Memory, f: Food): (r: Memory)
    ensures r == m.(fruits := r.fruits)
    ensures forall x :: x in r.fruits <==> x == f || (x in m.fruits && x.id != f.id)
    ensures |r.fruits| == if KeyIn(m.fruits, f.id, FoodRef) then |m.fruits| else |m.fruits| + 1
  {
    AddObjectMembers(m.fruits, f, FoodRef);
    m.(fruits := AddObject(m.fruits, f, FoodRef))
  }

  /** `MemoryCache.Add(Sugar)`, likewise on the sugar cache. */
  function AddSugar(m: Memory, f: Food): (r: Memory)
    ensures r == m.(sugar := r.sugar)
    ensures forall x :: x in r.sugar <==> x == f || (x in m.sugar && x.id != f.id)
    ensures |r.sugar| == if KeyIn(m.sugar, f.id, FoodRef) then |m.sugar| else |m.sugar| + 1
  {
    AddObjectMembers(m.sugar, f, FoodRef);
    m.(sugar := AddObject(m.sugar, f, FoodRef))
  }

  /** `MemoryCache.Add(Bug)`, likewise on the bug cache. */
  function AddBug(m: Memory, b: Insect): (r: Memory)
    ensures r == m.(bugs := r.bugs)
    ensures forall x :: x in r.bugs <==> x == b || (x in m.bugs && x.id != b.id)
    ensures |r.bugs| == if KeyIn(m.bugs, b.id, InsectRef) then |m.bugs| else |m.bugs| + 1
  {
    AddObjectMembers(m.bugs, b, InsectRef);
    m.(bugs := AddObject(m.bugs, b, InsectRef))
  }

  /** `MemoryCache.Add(Ant)`, likewise on the enemy-ant cache. */
  function AddAnt(m: Memory, a: Insect): (r: Memory)
    ensures r == m.(ants := r.ants)
    ensures forall x :: x in r.ants <==> x == a || (x in m.ants && x.id != a.id)
    ensures |r.ants| == if KeyIn(m.ants, a.id, InsectRef) then |m.ants| else |m.ants| + 1
  {
    AddObjectMembers(m.ants, a, InsectRef);
    m.(ants := AddObject(m.ants, a, InsectRef))
  }

  /** A sugar heap cached at amount 100 and seen again at 90 keeps one entry,
      now showing 90; seen once more at 0, the food cleanup removes it. */
  lemma ResightedSugar(p: Coord)
    ensures var m1 := AddSugar(EmptyMemory.(sugar := [Food(7, p, 100, false)]), Food(7, p, 90, false));
      && m1.sugar == [Food(7, p, 90, false)]
      && Keep(AddSugar(m1, Food(7, p, 0, false)).sugar, ItemCaches.Exhausted) == []
  {
    var m0 := EmptyMemory.(sugar := [Food(7, p, 100, false)]);
    assert KeyIn(m0.sugar, 7, FoodRef) by { assert FoodRef(m0.sugar[0]) == 7; }
    var m1 := AddSugar(m0, Food(7, p, 90, false));
    assert m1.sugar == [Food(7, p, 90, false)];
    assert KeyIn(m1.sugar, 7, FoodRef) by { assert FoodRef(m1.sugar[0]) == 7; }
    var m2 := AddSugar(m1, Food(7, p, 0, false));
    assert m2.sugar == [Food(7, p, 0, false)];
  }

  /** Adding a mark delegates to the marker memory and touches nothing else. */
  function AddMark(m: Memory, s: Signal, dist: Metric): (r: Memory)
    ensures r == m.(markers := r.markers)
    ensures forall t | t != s.infoType :: Slot(r.markers, t) == Slot(m.markers, t)
    ensures s.infoType < 4 ==> Slot(r.markers, s.infoType) == MarkerCache.Add(Slot(m.markers, s.infoType), s, dist)
    ensures s.infoType >= 4 ==> r == m
  {
    m.(markers := AddMarker(m.markers, s, dist))
  }

  /** `MemoryCache.Cleanup`: the five sub-caches, each once. */
  method Cleanup(m: Memory) returns (r: Memory)
    ensures r.fruits == Keep(m.fruits, ItemCaches.Exhausted)
    ensures r.sugar == Keep(m.sugar, ItemCaches.Exhausted)
    ensures r.bugs == Keep(m.bugs, ItemCaches.Defeated)
    ensures r.ants == Keep(m.ants, ItemCaches.Defeated)
    ensures forall t | 0 <= t < 4 :: Slot(r.markers, t) == MarkerCache.CleanupSpec(Slot(m.markers, t))
    ensures WellRouted(m.markers) ==> WellRouted(r.markers)
  {
    var fruits := ItemCaches.FoodCleanup(m.fruits);
    var sugar := ItemCaches.FoodCleanup(m.sugar);
    var bugs := ItemCaches.OpponentCleanup(m.bugs);
    var ants := ItemCaches.OpponentCleanup(m.ants);
    var markers := CleanupMarkers(m.markers);
    r := Memory(fruits, sugar, bugs, ants, markers);
  }

  /** The meaning of one memory cleanup, as a value. */
  function CleanupSpec(m: Memory): (r: Memory)
    ensures forall t | 0 <= t < 4 :: Slot(r.markers, t) == MarkerCache.CleanupSpec(Slot(m.markers, t))
  {
    var markers := Routed(MarkerCache.CleanupSpec(m.markers.fruits), MarkerCache.CleanupSpec(m.markers.sugar),
                          MarkerCache.CleanupSpec(m.markers.bugs), MarkerCache.CleanupSpec(m.markers.ants));
    assert forall t | 0 <= t < 4 :: Slot(markers, t) == MarkerCache.CleanupSpec(Slot(m.markers, t)) by {
      forall t | 0 <= t < 4
        ensures Slot(markers, t) == MarkerCache.CleanupSpec(Slot(m.markers, t))
      {
        if t == BugSpotted {
          assert Slot(markers, t) == markers.bugs && Slot(m.markers, t) == m.markers.bugs;
        } else if t == AntSpotted {
          assert Slot(markers, t) == markers.ants && Slot(m.markers, t) == m.markers.ants;
        } else if t == SugarSpotted {
          assert Slot(markers, t) == markers.sugar && Slot(m.markers, t) == m.markers.sugar;
        } else {
          assert Slot(markers, t) == markers.fruits && Slot(m.markers, t) == m.markers.fruits;
        }
      }
    }
    Memory(Keep(m.fruits, ItemCaches.Exhausted), Keep(m.sugar, ItemCaches.Exhausted),
           Keep(m.bugs, ItemCaches.Defeated), Keep(m.ants, ItemCaches.Defeated), markers)
  }

  lemma CleanupMeetsSpec(m: Memory, r: Memory)
    requires r.fruits == Keep(m.fruits, ItemCaches.Exhausted)
    requires r.sugar == Keep(m.sugar, ItemCaches.Exhausted)
    requires r.bugs == Keep(m.bugs, ItemCaches.Defeated)
    requires r.ants == Keep(m.ants, ItemCaches.Defeated)
    requires forall t | 0 <= t < 4 :: Slot(r.markers, t) == MarkerCache.CleanupSpec(Slot(m.markers, t))
    ensures r == CleanupSpec(m)
  {
    SlotsDetermine(r.markers, CleanupSpec(m).markers);
  }
}
