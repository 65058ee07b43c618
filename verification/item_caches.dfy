/**
 * The caches of host items: `FoodCache` (sugar, and fruit through
 * `FruitCache`) and `OpponentCache` (bugs and enemy ants). They add no
 * state of their own; each only chooses the deprecation predicate of the
 * base cleanup and, for fruit, which entries `GetNearest` may return.
 */
module ItemCaches {
  import opened Wrappers
  import opened Geometry
  import opened Items
  import opened CacheBase

  /** `FoodCache.IsDeprecated`: nothing left to carry. */
  predicate Exhausted(f: Food) { f.amount <= 0 }

  /** `OpponentCache.IsDeprecated`: no energy left. */
  predicate Defeated(i: Insect) { i.energy <= 0 }

  /** The base cleanup with the food predicate. */
  method FoodCleanup(list: seq<Food>) returns (r: seq<Food>)
    ensures forall f :: f in r <==> f in list && f.amount > 0
    ensures SubSeq(r, list)
    ensures r == Keep(list, Exhausted)
  {
    r := Cleanup(list, Judge(Exhausted));
    CleanupPure(list, Exhausted);
    JudgeNonMutating(Exhausted);
    SweepSubSeq([], list, Judge(Exhausted));
    assert Sweep([], list, Judge(Exhausted))[0..] == r;
  }

  /** The base cleanup with the opponent predicate. */
  method OpponentCleanup(list: seq<Insect>) returns (r: seq<Insect>)
    ensures forall i :: i in r <==> i in list && i.energy > 0
    ensures SubSeq(r, list)
    ensures r == Keep(list, Defeated)
  {
    r := Cleanup(list, Judge(Defeated));
    CleanupPure(list, Defeated);
    JudgeNonMutating(Defeated);
    SweepSubSeq([], list, Judge(Defeated));
    assert Sweep([], list, Judge(Defeated))[0..] == r;
  }

  lemma JudgeNonMutating<T(!new)>(deprecated: T -> bool)
    ensures NonMutating(Judge(deprecated))
  {
  }

  /** Neither predicate changes an entry, so a second cleanup right after the
      first removes nothing. */
  lemma CleanupsIdempotent(foods: seq<Food>, insects: seq<Insect>)
    ensures Keep(Keep(foods, Exhausted), Exhausted) == Keep(foods, Exhausted)
    ensures Keep(Keep(insects, Defeated), Defeated) == Keep(insects, Defeated)
  {
    KeepIdempotent(foods, Exhausted);
    KeepIdempotent(insects, Defeated);
  }

  /** `GetNearest` on an opponent cache: no `IsValid` override, so every
      cached insect is a candidate; the ant's distance to it is the host's. */
  function NearestOpponent(list: seq<Insect>, me: Coord, dist: Metric): (r: Option<Insect>)
    ensures r.None? <==> list == []
    ensures r.Some? ==> r.value in list
    ensures r.Some? ==> forall i | i in list :: dist(me, r.value.pos) <= dist(me, i.pos)
    ensures r.Some? ==> exists k | 0 <= k < |list| ::
                          list[k] == r.value && forall j | 0 <= j < k :: dist(me, list[j].pos) > dist(me, r.value.pos)
  {
    var d := (i: Insect) => dist(me, i.pos);
    var r := Nearest(list, AnyEntry, d);
    if r.Some? then
      var k :| IsNearestAt(list, AnyEntry, d, k) && list[k] == r.value;
      assert forall i | i in list :: d(r.value) <= d(i);
      r
    else
      r
  }

  /** `GetNearest` on a plain food cache (sugar): every entry is a candidate. */
  function NearestFood(list: seq<Food>, me: Coord, dist: Metric): (r: Option<Food>)
    ensures r.None? <==> list == []
    ensures r.Some? ==> r.value in list
    ensures r.Some? ==> forall f | f in list :: dist(me, r.value.pos) <= dist(me, f.pos)
    ensures r.Some? ==> exists k | 0 <= k < |list| ::
                          list[k] == r.value && forall j | 0 <= j < k :: dist(me, list[j].pos) > dist(me, r.value.pos)
  {
    var d := (f: Food) => dist(me, f.pos);
    var r := Nearest(list, AnyEntry, d);
    NearestOfAny(list, d);
    if r.Some? then
      var k :| IsNearestAt(list, AnyEntry, d, k) && list[k] == r.value;
      assert forall f | f in list :: d(r.value) <= d(f);
      r
    else
      r
  }

  /** `FruitCache.IsValid`: the host says the fruit still needs carriers. */
  predicate NeedsCarriers(f: Food) { f.needsCarriers }

  /** `GetNearest` on the fruit cache: only fruit that needs carriers counts;
      ties go to the earliest. */
  function NearestFruit(list: seq<Food>, me: Coord, dist: Metric): (r: Option<Food>)
    ensures r.None? <==> forall f | f in list :: !f.needsCarriers
    ensures r.Some? ==> r.value in list && r.value.needsCarriers
    ensures r.Some? ==> forall f | f in list && f.needsCarriers :: dist(me, r.value.pos) <= dist(me, f.pos)
    ensures r.Some? ==> exists k | 0 <= k < |list| ::
                          list[k] == r.value &&
                          forall j | 0 <= j < k && list[j].needsCarriers :: dist(me, list[j].pos) > dist(me, r.value.pos)
  {
    var d := (f: Food) => dist(me, f.pos);
    var r := Nearest(list, NeedsCarriers, d);
    if r.Some? then
      var k :| IsNearestAt(list, NeedsCarriers, d, k) && list[k] == r.value;
      r
    else
      r
  }

  /** Validity and deprecation are independent: a fruit that no longer needs
      carriers but still has an amount stays cached, yet is never returned by
      `GetNearest`; a non-empty cache may answer null. */
  lemma FruitKeptButNotOffered(list: seq<Food>, f: Food, me: Coord, dist: Metric)
    requires f in list && f.amount > 0 && !f.needsCarriers
    ensures f in Keep(list, Exhausted)
    ensures NearestFruit(Keep(list, Exhausted), me, dist) != Some(f)
    ensures list == [f] ==> NearestFruit(list, me, dist).None?
  {
  }
}
