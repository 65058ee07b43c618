/**
 * `CacheBase<T>`: the list behind every cache, with insertion, membership,
 * nearest-valid lookup and the in-place cleanup loop. The virtual members a
 * subclass overrides (`Contains`, `IsValid`, `IsDeprecated`,
 * `GetDistanceToAnt`) are parameters here.
 */
module CacheBase {
  import opened Wrappers

  // ----- Add and Contains -----

  /** The default `Contains`: the object itself is in the list. */
  predicate RefContains<T(==)>(list: seq<T>, obj: T) {
    obj in list
  }

  /** `Add` with an overridable `Contains`: append unless contained. */
  function AddWith<T>(list: seq<T>, obj: T, contains: (seq<T>, T) -> bool): (r: seq<T>)
    ensures contains(list, obj) ==> r == list
    ensures !contains(list, obj) ==> |r| == |list| + 1 && r[..|list|] == list && r[|list|] == obj
  {
    if contains(list, obj) then list else list + [obj]
  }

  /** `Add` with the default `Contains`: the result holds exactly the old
      entries and the object, appended at the end when it was new. */
  function Add<T(==,!new)>(list: seq<T>, obj: T): (r: seq<T>)
    ensures |r| == if obj in list then |list| else |list| + 1
    ensures r[..|list|] == list
    ensures obj in r
    ensures forall x :: x in r <==> x in list || x == obj
  {
    AddWith(list, obj, RefContains)
  }

  /** No object occurs twice. */
  predicate Distinct<T(==)>(list: seq<T>) {
    forall i, j | 0 <= i < j < |list| :: list[i] != list[j]
  }

  /** `Add` never introduces a duplicate. */
  lemma AddKeepsDistinct<T(!new)>(list: seq<T>, obj: T)
    requires Distinct(list)
    ensures Distinct(Add(list, obj))
  {
  }

  /** A cache filled only through `Add`, starting empty. */
  function AddAll<T(==,!new)>(list: seq<T>, objs: seq<T>): seq<T>
    decreases |objs|
  {
    if objs == [] then list else AddAll(Add(list, objs[0]), objs[1..])
  }

  /** A list built only through `Add` never holds the same object twice, and it
      holds every object that was added. */
  lemma {:induction false} AddAllDistinct<T(!new)>(list: seq<T>, objs: seq<T>)
    requires Distinct(list)
    ensures Distinct(AddAll(list, objs))
    ensures forall x :: x in AddAll(list, objs) <==> x in list || x in objs
    decreases |objs|
  {
    if objs != [] {
      AddKeepsDistinct(list, objs[0]);
      AddAllDistinct(Add(list, objs[0]), objs[1..]);
      assert forall x :: x in objs <==> x == objs[0] || x in objs[1..];
    }
  }

  // ----- caches of host objects -----

  /** Some entry stands for the host object with reference `k`. */
  predicate KeyIn<T>(list: seq<T>, k: nat, key: T -> nat) {
    exists i | 0 <= i < |list| :: key(list[i]) == k
  }

  /** No host object has two entries. */
  predicate KeysDistinct<T>(list: seq<T>, key: T -> nat) {
    forall i, j | 0 <= i < j < |list| :: key(list[i]) != key(list[j])
  }

  /** The entries for `obj`'s host object now show its latest fields. */
  function Refresh<T>(list: seq<T>, obj: T, key: T -> nat): (r: seq<T>)
    ensures |r| == |list|
    ensures forall i | 0 <= i < |list| :: r[i] == if key(list[i]) == key(obj) then obj else list[i]
  {
    seq(|list|, i requires 0 <= i < |list| => if key(list[i]) == key(obj) then obj else list[i])
  }

  /** `Add` on a cache of host objects, whose C# reference the model carries
      as `key`. A record holds the fields of the object's latest sighting,
      whereas a cached C# reference always shows the current ones. So an
      object already cached (`_list.Contains(obj)` by reference) keeps its
      place and shows the new fields; any other object is appended. */
  function AddObject<T>(list: seq<T>, obj: T, key: T -> nat): (r: seq<T>)
    ensures |r| == if KeyIn(list, key(obj), key) then |list| else |list| + 1
    ensures forall i | 0 <= i < |list| :: r[i] == if key(list[i]) == key(obj) then obj else list[i]
    ensures !KeyIn(list, key(obj), key) ==> r[|list|] == obj
  {
    if KeyIn(list, key(obj), key) then Refresh(list, obj, key) else list + [obj]
  }

  /** The result holds the object and every entry for another host object,
      and nothing else. */
  lemma AddObjectMembers<T>(list: seq<T>, obj: T, key: T -> nat)
    ensures var r := AddObject(list, obj, key);
      forall x :: x in r <==> x == obj || (x in list && key(x) != key(obj))
  {
    var r := AddObject(list, obj, key);
    if KeyIn(list, key(obj), key) {
      var i :| 0 <= i < |list| && key(list[i]) == key(obj);
      assert r[i] == obj;
    } else {
      assert r[|list|] == obj;
    }
    forall x | x in list && key(x) != key(obj) ensures x in r {
      var i :| 0 <= i < |list| && list[i] == x;
      assert r[i] == x;
    }
  }

  /** The cached host objects are the old ones plus the added one, each
      still with a single entry. */
  lemma AddObjectKeys<T>(list: seq<T>, obj: T, key: T -> nat)
    requires KeysDistinct(list, key)
    ensures var r := AddObject(list, obj, key);
      && KeysDistinct(r, key)
      && forall k :: KeyIn(r, k, key) <==> KeyIn(list, k, key) || k == key(obj)
  {
    var r := AddObject(list, obj, key);
    forall k | KeyIn(list, k, key) || k == key(obj) ensures KeyIn(r, k, key) {
      if k == key(obj) {
        if KeyIn(list, key(obj), key) {
          var i :| 0 <= i < |list| && key(list[i]) == key(obj);
          assert key(r[i]) == k;
        } else {
          assert key(r[|list|]) == k;
        }
      } else {
        var i :| 0 <= i < |list| && key(list[i]) == k;
        assert key(r[i]) == k;
      }
    }
    forall k | KeyIn(r, k, key) ensures KeyIn(list, k, key) || k == key(obj) {
      var i :| 0 <= i < |r| && key(r[i]) == k;
      if i < |list| && key(list[i]) != key(obj) {
        assert key(list[i]) == k;
      }
    }
  }

  /** While every record shows its object's current fields, adding by
      reference is the plain `Add`: a cached object's record is the object
      itself, so nothing changes. */
  lemma AddObjectIsAdd<T(!new)>(list: seq<T>, obj: T, key: T -> nat)
    requires KeysDistinct(list, key)
    requires forall i | 0 <= i < |list| && key(list[i]) == key(obj) :: list[i] == obj
    ensures AddObject(list, obj, key) == Add(list, obj)
  {
    if KeyIn(list, key(obj), key) {
      var i :| 0 <= i < |list| && key(list[i]) == key(obj);
      assert list[i] == obj;
      assert AddObject(list, obj, key) == list;
    } else {
      assert obj !in list;
    }
  }

  // ----- GetNearest -----

  /** `k` is the entry `GetNearest` picks: valid, no valid entry strictly
      closer, and every earlier valid entry strictly farther. */
  predicate IsNearestAt<T>(list: seq<T>, valid: T -> bool, dist: T -> int, k: int) {
    && 0 <= k < |list|
    && valid(list[k])
    && (forall j | 0 <= j < |list| && valid(list[j]) :: dist(list[k]) <= dist(list[j]))
    && (forall j | 0 <= j < k && valid(list[j]) :: dist(list[k]) < dist(list[j]))
  }

  /** The position `GetNearest` settles on: its `foreach` keeps the running
      nearest and replaces it only by a valid entry that is strictly closer. */
  function NearestIndex<T>(list: seq<T>, valid: T -> bool, dist: T -> int): (r: Option<nat>)
    ensures r.None? <==> forall i | 0 <= i < |list| :: !valid(list[i])
    ensures r.Some? ==> IsNearestAt(list, valid, dist, r.value)
    decreases |list|
  {
    if |list| == 0 then None
    else
      var prev := NearestIndex(list[..|list| - 1], valid, dist);
      var last := list[|list| - 1];
      if valid(last) && (prev.None? || dist(last) < dist(list[prev.value])) then Some(|list| - 1)
      else prev
  }

  /** Only one position satisfies `IsNearestAt`, so the choice is determined by
      the list order. */
  lemma NearestUnique<T>(list: seq<T>, valid: T -> bool, dist: T -> int, k: int, l: int)
    requires IsNearestAt(list, valid, dist, k) && IsNearestAt(list, valid, dist, l)
    ensures k == l
  {
  }

  /** `GetNearest`: null iff no entry is valid. */
  function Nearest<T>(list: seq<T>, valid: T -> bool, dist: T -> int): (r: Option<T>)
    ensures r.None? <==> forall i | 0 <= i < |list| :: !valid(list[i])
    ensures r.Some? ==> exists k :: IsNearestAt(list, valid, dist, k) && list[k] == r.value
  {
    var k := NearestIndex(list, valid, dist);
    if k.Some? then Some(list[k.value]) else None
  }

  /** Every entry is a candidate: the default `IsValid`, and also what LINQ's
      stable `OrderBy(distance).FirstOrDefault()` picks. */
  function AnyEntry<T>(x: T): bool { true }

  /** With every entry a candidate, `GetNearest` is null only on an empty
      list. */
  lemma NearestOfAny<T>(list: seq<T>, dist: T -> int)
    ensures Nearest(list, AnyEntry, dist).None? <==> list == []
  {
    if list != [] {
      assert AnyEntry(list[0]);
    }
  }

  // ----- Cleanup -----

  /** What `IsDeprecated` does to one entry: given the other entries of the
      list as it currently stands and the entry itself, the entry as left
      behind (it may have been mutated) and whether it is deprecated. */
  type Examine<!T> = (seq<T>, T) -> (T, bool)

  /** The reference meaning of the cleanup loop. `kept` holds the entries
      already examined and kept, `rest` those not yet examined; the next entry
      is judged against the list as it stands, minus itself. */
  function Sweep<T>(kept: seq<T>, rest: seq<T>, examine: Examine<T>): seq<T>
    decreases |rest|
  {
    if rest == [] then kept
    else
      var verdict := examine(kept + rest[1..], rest[0]);
      if verdict.1 then Sweep(kept, rest[1..], examine)
      else Sweep(kept + [verdict.0], rest[1..], examine)
  }

  /** `CacheBase.Cleanup`: the `for` loop with `RemoveAt(i--)`. After a
      removal the index stays put, so every original entry is examined
      exactly once, in order. */
  method Cleanup<T>(list0: seq<T>, examine: Examine<T>) returns (list: seq<T>)
    ensures list == Sweep([], list0, examine)
  {
    list := list0;
    var i := 0;
    while i < |list|
      invariant 0 <= i <= |list|
      invariant Sweep(list[..i], list[i..], examine) == Sweep([], list0, examine)
      decreases |list| - i
    {
      var verdict := examine(list[..i] + list[i + 1..], list[i]);
      var before := list;
      assert before[i..][1..] == before[i + 1..];
      if verdict.1 {
        // RemoveAt(i--), and the loop's i++ brings i back
        list := before[..i] + before[i + 1..];
        assert list[..i] == before[..i];
        assert list[i..] == before[i + 1..];
      } else {
        list := before[..i] + [verdict.0] + before[i + 1..];
        assert list[..i + 1] == before[..i] + [verdict.0];
        assert list[i + 1..] == before[i + 1..];
        i := i + 1;
      }
    }
  }

  /** The sweep of an examination that does not look at the other entries:
      each entry examined on its own. */
  function Survivors<T>(list: seq<T>, examine: Examine<T>): seq<T>
    decreases |list|
  {
    if list == [] then []
    else
      var verdict := examine([], list[0]);
      (if verdict.1 then [] else [verdict.0]) + Survivors(list[1..], examine)
  }

  /** The examination ignores the rest of the list. */
  ghost predicate ListIndependent<T(!new)>(examine: Examine<T>) {
    forall others, x :: examine(others, x) == examine([], x)
  }

  /** For a list-independent examination, the cleanup keeps the examined form
      of exactly the entries not found deprecated, in their original order. */
  lemma {:induction false} SweepIndependent<T(!new)>(kept: seq<T>, rest: seq<T>, examine: Examine<T>)
    requires ListIndependent(examine)
    ensures Sweep(kept, rest, examine) == kept + Survivors(rest, examine)
    decreases |rest|
  {
    if rest != [] {
      var verdict := examine(kept + rest[1..], rest[0]);
      assert verdict == examine([], rest[0]);
      var tail := Survivors(rest[1..], examine);
      if verdict.1 {
        assert Survivors(rest, examine) == [] + tail;
        SweepIndependent(kept, rest[1..], examine);
      } else {
        assert Survivors(rest, examine) == [verdict.0] + tail;
        assert Sweep(kept, rest, examine) == Sweep(kept + [verdict.0], rest[1..], examine);
        SweepIndependent(kept + [verdict.0], rest[1..], examine);
        assert kept + [verdict.0] + tail == kept + ([verdict.0] + tail);
      }
    }
  }

  /** The entries a pure deprecation predicate keeps, in order. */
  function Keep<T(!new)>(list: seq<T>, deprecated: T -> bool): (r: seq<T>)
    ensures |r| <= |list|
    ensures forall x :: x in r <==> x in list && !deprecated(x)
    decreases |list|
  {
    if list == [] then []
    else (if deprecated(list[0]) then [] else [list[0]]) + Keep(list[1..], deprecated)
  }

  /** The examination of a pure, non-mutating, list-independent predicate. */
  function Judge<T>(deprecated: T -> bool): Examine<T> {
    (others: seq<T>, x: T) => (x, deprecated(x))
  }

  /** With a pure, non-mutating predicate, the cleanup removes exactly the
      deprecated entries and keeps the rest in their original order. */
  lemma {:induction false} CleanupPure<T(!new)>(list: seq<T>, deprecated: T -> bool)
    ensures Sweep([], list, Judge(deprecated)) == Keep(list, deprecated)
  {
    SweepIndependent([], list, Judge(deprecated));
    SurvivorsKeep(list, deprecated);
  }

  lemma {:induction false} SurvivorsKeep<T(!new)>(list: seq<T>, deprecated: T -> bool)
    ensures Survivors(list, Judge(deprecated)) == Keep(list, deprecated)
    decreases |list|
  {
    if list != [] {
      SurvivorsKeep(list[1..], deprecated);
    }
  }

  /** With a pure, non-mutating predicate, a second cleanup changes nothing. */
  lemma {:induction false} KeepIdempotent<T(!new)>(list: seq<T>, deprecated: T -> bool)
    ensures Keep(Keep(list, deprecated), deprecated) == Keep(list, deprecated)
    decreases |list|
  {
    if list != [] {
      KeepIdempotent(list[1..], deprecated);
      var tail := Keep(list[1..], deprecated);
      if !deprecated(list[0]) {
        assert Keep(list, deprecated) == [list[0]] + tail;
        assert ([list[0]] + tail)[1..] == tail;
        assert Keep([list[0]] + tail, deprecated) == [list[0]] + Keep(tail, deprecated);
      } else {
        assert Keep(list, deprecated) == tail;
      }
    }
  }

  /** `Keep` distributes over concatenation. */
  lemma {:induction false} KeepAppend<T(!new)>(a: seq<T>, b: seq<T>, deprecated: T -> bool)
    ensures Keep(a + b, deprecated) == Keep(a, deprecated) + Keep(b, deprecated)
    decreases |a|
  {
    if a != [] {
      assert (a + b)[1..] == a[1..] + b;
      KeepAppend(a[1..], b, deprecated);
    } else {
      assert a + b == b;
    }
  }

  // ----- order preservation -----

  /** `a` is `b` with some entries left out, the rest in the same order. */
  predicate SubSeq<T(==)>(a: seq<T>, b: seq<T>)
    decreases |b|
  {
    if a == [] then true
    else if b == [] then false
    else (a[0] == b[0] && SubSeq(a[1..], b[1..])) || SubSeq(a, b[1..])
  }

  lemma {:induction false} SubSeqMembers<T>(a: seq<T>, b: seq<T>)
    requires SubSeq(a, b)
    ensures |a| <= |b|
    ensures forall x | x in a :: x in b
    decreases |b|
  {
    if a != [] && b != [] {
      if a[0] == b[0] && SubSeq(a[1..], b[1..]) {
        SubSeqMembers(a[1..], b[1..]);
        assert forall x | x in a :: x == a[0] || x in a[1..];
      } else {
        SubSeqMembers(a, b[1..]);
      }
    }
  }

  /** The examination never changes the entry it looks at. */
  ghost predicate NonMutating<T(!new)>(examine: Examine<T>) {
    forall others, x :: examine(others, x).0 == x
  }

  /** A cleanup whose examination does not mutate keeps the entries already
      kept and then a selection of the remaining entries in their original
      relative order. */
  lemma {:induction false} SweepSubSeq<T(!new)>(kept: seq<T>, rest: seq<T>, examine: Examine<T>)
    requires NonMutating(examine)
    ensures |kept| <= |Sweep(kept, rest, examine)|
    ensures Sweep(kept, rest, examine)[..|kept|] == kept
    ensures SubSeq(Sweep(kept, rest, examine)[|kept|..], rest)
    decreases |rest|
  {
    if rest != [] {
      var verdict := examine(kept + rest[1..], rest[0]);
      if verdict.1 {
        SweepSubSeq(kept, rest[1..], examine);
        var tail := Sweep(kept, rest, examine)[|kept|..];
        assert tail != [] ==> SubSeq(tail, rest[1..]);
      } else {
        SweepSubSeq(kept + [rest[0]], rest[1..], examine);
        var r := Sweep(kept, rest, examine);
        assert r[..|kept| + 1] == kept + [rest[0]];
        assert r[|kept|..][1..] == r[|kept| + 1..];
        assert r[|kept|..][0] == rest[0];
      }
    }
  }

  /** The entries `Keep` retains stay in their original relative order. */
  lemma {:induction false} KeepSubSeq<T(!new)>(list: seq<T>, deprecated: T -> bool)
    ensures SubSeq(Keep(list, deprecated), list)
    decreases |list|
  {
    if list != [] {
      KeepSubSeq(list[1..], deprecated);
      var tail := Keep(list[1..], deprecated);
      if !deprecated(list[0]) {
        assert ([list[0]] + tail)[1..] == tail;
      } else if tail != [] {
        assert Keep(list, deprecated) == tail;
      }
    }
  }
}
