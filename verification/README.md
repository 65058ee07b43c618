# ArndtBalke ant colony: a Dafny model of the decision core

This project models the per-ant decision logic of the ArndtBalke player for
the AntMe! simulation, in three layers:

1. **Mark codecs.** `Signal` packs a mark into one C# `int`:
   - the type goes in bits 0-3;
   - Y goes in bits 4-16 and X in bits 17-29, each a 13-bit sign-magnitude field;
   - the hop count goes in bits 30-31.

   The older `MarkerInformation` packs a polar position instead. The model covers both
   codecs, the relay constructor and the coordinate records (`RelativeCoordinate`,
   `RotationCoordinates`, `AttackPoint`, `Target`).
2. **Perception caches.**
   - `CacheBase` is the generic list. It has `Add`, `Contains`, `GetNearest` and the
     in-place `RemoveAt(i--)` cleanup loop.
   - Four caches refine it:
     - `SignalCache` adds ageing, proximity deduplication and the dominance rule.
     - `MarkerCache` ages each entry as a side effect of its deprecation test.
     - `FoodCache` (with `FruitCache`) and `OpponentCache` supply their own deprecation rules.
   - The routing caches `SignalMemoryCache` and `MarkerMemoryCache` sort entries by type.
   - `MemoryCache` is the aggregate of all of these.
3. **Role policies.** Each tick, a role chooses a target and a mark to emit:
   - `BaseBehavior`: the tick pipeline, the relay rule, the sighting marks, `GoTo` and `Attack`.
   - `GathererBehavior`, `HunterBehavior`, `CommanderBehavior` and `ScoutBehavior`: each role's own choice.

Layout (one module per file):

- `wrappers.dfy`: `Option`.
- `geometry.dfy`: coordinates, polar coordinates, attack points and the distance oracle `Metric`.
- `signal.dfy`: the `Signal` record, its constructors and the type constants.
- `signal_codec.dfy`, `marker_codec.dfy`: the two wire formats.
- `items.dfy`: host food and insects.
- `target.dfy`: the target union.
- `views.dfy`: what a role sees in one tick, and the shared item-versus-signal rule.
- `cache_base.dfy`, `signal_cache.dfy`, `marker_cache.dfy`, `item_caches.dfy`, `memory_caches.dfy`: the caches.
- `base_behavior.dfy`, `gatherer.dfy`, `hunter.dfy`, `commander.dfy`, `scout.dfy`: the roles.

Modelling conventions:

- **Bit operations** are written as integer arithmetic on two's-complement values:
  - `& (2^k - 1)` is `% 2^k`;
  - `>> k` is `/ 2^k`;
  - a bitwise OR of disjoint fields is a sum.
- **Distances** are never computed. Every operation that needs one takes an oracle
  `dist: (Coord, Coord) -> int`. The ant's distance to a position `p` is `dist(me, p)`.
- **Cache entries** are separate host objects. A cache is a sequence and an entry's
  identity is its position in it. The reference test `signal != obj` is therefore
  "another position".
- **Host objects** (sugar, fruit, bugs, enemy ants) carry their C# reference as `id`.
  A record holds the object's fields as of its latest sighting. The item caches test
  membership by `id`, as C#'s `_list.Contains` tests the reference. When an object
  is already cached, its record is refreshed in place, because the cached C#
  reference shows the object's current fields.
- **Roles** do not mutate anything. Each role is a function or method from a `View` to
  its decision (and its new attack point, where it keeps one). A `View` holds:
  - the ant's memory;
  - the received signals;
  - the ant's position;
  - its destination;
  - what it carries.
- **Host primitives return values instead of acting.** Movement, `Take`, `Drop`,
  `MakeMark` and `Think` do not happen: operations return the marks, commands or acts
  they would issue, in order.
- **Randomness** (`RandomNumber.Number`) is passed in as oracle functions.

## Where revisions of the code disagree

The code mixes an older and a newer mark format and leaves a few names undefined.
The model takes the reading below in each case.

- **Bit positions.** Y occupies bits 4-16 of a signal word and X bits 17-29
  (`Signal.cs:104-108`).
- **Clustering order.** `GetAttackPoints` adds priorities in place, in list order
  (`CommanderBehavior.cs:122-129`). A later point therefore sees the already-raised
  priority of an earlier one: two mutually close points weighted 5 and 7 end at 12 and 19.
- **Clustering before pruning.** Clustering happens inside `GetAttackPoints`, before
  `GetNextAttackPoint` prunes.
- **Marks use the `Signal` record.** The marker caches (`MarkerCache.cs:6`,
  `MarkerMemoryCache.cs:24-34`, `MemoryCache.cs:35-38`) and `DetectedScentFriend`
  (`BaseBehavior.cs:304-309`) are typed on `MarkerInformation` and decode with its polar
  constructor (`MarkerInformation.cs:42-50`). `MakeMark` sends `MarkerInformation.Encode()`
  (`BaseBehavior.cs:312-330`). Yet this revision of `MarkerInformation` has no `HopCount`,
  `Age` or `Is*Spotted` members, and the copy constructor `new MarkerInformation(markerInfo)`
  used for relaying does not exist. Those members belong to `Signal`. The model therefore
  carries every mark as a `Signal`: a received word is decoded with `SignalCodec.Decode`,
  a relay is `Signals.Relay`, and an issued mark is a `Signal` whose wire form is
  `SignalCodec.Encode`. The polar format is modelled on its own in `MarkerCodec`.
- **Hunter's attack-point target.** `GetNextAttackPoint` returns
  `new Target(currentAttackPoint)` (`HunterBehavior.cs:72`), but `Target` has constructors
  only for an `Item` and a `Signal` (`Target.cs:24-38`). The model reads it as a signal
  target: an attack-point signal at the current point.
- **Base target and signal.** The roles call `base.GetNextTarget()` and
  `base.GetNextSignal()`, which this revision of `BaseBehavior` does not define. Each role
  takes the base result as a parameter `base`.
- **Attack-point signal type.** This revision does not define the `AttackPoint` type
  constant. The model uses type 5, distinct from the five types the code tests
  (0 bug, 1 ant, 2 sugar, 3 fruit-needs-carriers, 4 fruit-needs-protection).
- **Received-signal list.** The roles read a flat `_cache.Signals` list, which this
  revision of `MemoryCache` does not have. A `View` carries that list as `signals`.

## Model

| member | source | states |
|---|---|---|
| Signals.TypePredicatesExclusive | ArndtBalke/Markers/Signal.cs:31-47 | at most one of the five type predicates holds for a signal |
| Signals.NewSignal | ArndtBalke/Markers/Signal.cs:54-59 | a new signal keeps the given type and coordinates, with hop count 0 and age 0 |
| Signals.Relay | ArndtBalke/Markers/Signal.cs:65-71 | the relay copy keeps type and coordinates, adds one hop (wrapping as a C# `short` at 32767) and starts at age 0 |
| Signals.ToShort | ArndtBalke/Markers/Signal.cs:70 | the `(short)` cast yields a 16-bit value congruent to its input modulo 2^16, unchanged when already in range |
| SignalCodec.Int13Fields | ArndtBalke/Markers/Signal.cs:121-131 | `GetInt13` stores \|v\| mod 4096 below bit 12, with bit 12 set exactly when v is negative |
| SignalCodec.Int13RoundTrip | ArndtBalke/Markers/Signal.cs:121-150 | `GetInt32` inverts `GetInt13` on every v with \|v\| <= 4095 |
| SignalCodec.Int32RoundTrip | ArndtBalke/Markers/Signal.cs:138-150 | re-encoding a decoded 13-bit field restores it, except that "negative zero" (0x1000) comes back as 0 |
| SignalCodec.Int13Truncates | ArndtBalke/Markers/Signal.cs:124-128 | larger magnitudes are truncated to their low 12 bits and keep their sign |
| SignalCodec.PackLayout | ArndtBalke/Markers/Signal.cs:99-111 | fields packed at bits 0-3, 4-16, 17-29 and 30-31 are read back unchanged by the decoder's masks and shifts, so no field overlaps another; the word is negative exactly when the hop is 2 or 3 |
| SignalCodec.Unpack | ArndtBalke/Markers/Signal.cs:77-88 | every C# `int` is the packing of its own four decoded fields, each within its width |
| SignalCodec.EncodeLayout | ArndtBalke/Markers/Signal.cs:94-114 | `Encode` puts the type mod 16, the 13-bit X and Y fields and the hop mod 4 where the layout says |
| SignalCodec.Encode | ArndtBalke/Markers/Signal.cs:94-114 | every encodable signal encodes to a C# `int` |
| SignalCodec.Decode | ArndtBalke/Markers/Signal.cs:77-88 | decoding is total on C# `int`s: type below 16, \|X\|,\|Y\| <= 4095, hop in 0..3, age 0 |
| SignalCodec.RoundTrip | ArndtBalke/Markers/Signal.cs:77-114 | decoding the encoding of a signal with type < 16, \|x\|,\|y\| <= 4095 and hop in 0..3 returns the same type, coordinates and hop |
| SignalCodec.Truncation | ArndtBalke/Markers/Signal.cs:124-128 | out-of-range coordinates are truncated, not rejected: each reads back as sign(x)·(\|x\| mod 4096); type and hop wrap modulo 16 and 4 |
| SignalCodec.TruncationExamples | ArndtBalke/Markers/Signal.cs:124-128 | 5000 reads back as 904 and -4096 as 0 |
| SignalCodec.NegativeWords | ArndtBalke/Markers/Signal.cs:87 | a word is negative exactly when its decoded hop count is 2 or 3, and the hop is still recovered |
| SignalCodec.DecodeEncode | ArndtBalke/Markers/Signal.cs:83-111 | re-encoding a decoded word gives the same word back exactly when neither coordinate field holds "negative zero" |
| SignalCodec.NoNegativeZeroKept | ArndtBalke/Markers/Signal.cs:83-111 | without a negative zero, decode-then-encode is the identity on words |
| SignalCodec.DecodedFields | ArndtBalke/Markers/Signal.cs:83-87 | without a negative zero, the decoded signal's fields re-encode to the word's own fields |
| SignalCodec.NegativeZeroLost | ArndtBalke/Markers/Signal.cs:141-147 | a word with a negative-zero field never survives decode-then-encode |
| SignalCodec.HopWraps | ArndtBalke/Markers/Signal.cs:111 | the hop count wraps modulo 4 on the wire: hops differing by a multiple of 4 encode the same, and a hop of 4 reads back as 0 |
| SignalCodec.RelayOnTheWire | ArndtBalke/Markers/Signal.cs:65-71 | relaying a received word whose hop is below 3 sends a word that decodes to the same mark with one more hop |
| MarkerCodec.Encode | ArndtBalke/MarkerInfo/MarkerInformation.cs:56-75 | bit 31 of an encoded marker is always 0, so encodings are non-negative |
| MarkerCodec.Decode | ArndtBalke/MarkerInfo/MarkerInformation.cs:42-50 | decoding any C# `int` yields a type below 16, a distance in [0, 2^18) and a rotation in [0, 512) |
| MarkerCodec.RoundTrip | ArndtBalke/MarkerInfo/MarkerInformation.cs:42-75 | decoding the encoding of a marker with type < 16, rotation in [0, 512) and distance in [0, 2^18) returns it |
| MarkerCodec.Truncation | ArndtBalke/MarkerInfo/MarkerInformation.cs:61-72 | the rotation is reduced with `& 0x1FF`, distance bits above bit 17 are dropped, and the type keeps its low 4 bits |
| MarkerCodec.NullCoordinates | ArndtBalke/MarkerInfo/MarkerInformation.cs:64-69 | null coordinates encode with every coordinate bit zero, so only the type survives |
| MarkerCodec.IgnoresSignBit | ArndtBalke/MarkerInfo/MarkerInformation.cs:48-49 | decoding ignores bit 31 |
| MarkerCodec.RotationCoordinatesRoundTrip | ArndtBalke/Map/RotationCoordinates.cs:22-26 | a position built by the `RotationCoordinates` constructor from a rotation in [-360, 360) and a distance below 2^18 survives the polar round trip |
| Geometry.MakeCoord | ArndtBalke/Map/RelativeCoordinate.cs:22-26 | the constructor stores X and Y exactly, with no clamping; a `Coord` value cannot change afterwards |
| Geometry.MakePolar | ArndtBalke/Map/RotationCoordinates.cs:22-26 | distance is never negative; a non-negative distance or rotation is kept; a rotation in [-360, 0) is shifted by exactly +360; one below -360 stays negative |
| Geometry.MakePolarNormalises | ArndtBalke/Map/RotationCoordinates.cs:25 | every rotation in [-360, 360) ends in [0, 360) |
| Geometry.AttackPointAt | ArndtBalke/Map/AttackPoint.cs:10-14 | a point built from a coordinate keeps X and Y and the given priority, with age 0, and is not deprecated |
| Geometry.AttackPointXY | ArndtBalke/Map/AttackPoint.cs:16-18 | the (x, y) constructor yields priority 0 and age 0 |
| Geometry.DeprecationBoundary | ArndtBalke/Map/AttackPoint.cs:8 | age 60 is live and age 61 is deprecated |
| Geometry.DeprecationIsMonotone | ArndtBalke/Map/AttackPoint.cs:5-8 | once deprecated, ageing keeps a point deprecated; a fresh point is deprecated after exactly 61 ticks |
| Targets.ItemOf | ArndtBalke/Map/Target.cs:24-28 | a target has an item exactly when it was built from an item |
| Targets.SignalOf | ArndtBalke/Map/Target.cs:34-38 | a target has a signal exactly when it was built from a signal |
| Targets.ExactlyOneSet | ArndtBalke/Map/Target.cs:24-38 | no target holds both an item and a signal, and none holds neither |
| CacheBase.AddWith | ArndtBalke/Cache/CacheBase.cs:29-33 | `Add` appends at the end exactly when the overridable `Contains` is false, and leaves the list unchanged otherwise |
| CacheBase.Add | ArndtBalke/Cache/CacheBase.cs:29-58 | with the default `Contains`, the list grows only for a new object, keeps its old entries as a prefix, and holds exactly the old entries plus the object |
| CacheBase.AddAllDistinct | ArndtBalke/Cache/CacheBase.cs:29-58 | a list built only through `Add` never holds the same object twice and holds every added object |
| CacheBase.Refresh | ArndtBalke/Cache/CacheBase.cs:29-33 | the entries for the object's reference show its new fields, and every other entry is unchanged, in place |
| CacheBase.AddObject | ArndtBalke/Cache/CacheBase.cs:29-33 | `Add` by reference: a cached object keeps its place, showing the new fields; any other object is appended at the end |
| CacheBase.AddObjectMembers | ArndtBalke/Cache/CacheBase.cs:29-33 | afterwards the cache holds the object and every entry for another object, and nothing else |
| CacheBase.AddObjectKeys | ArndtBalke/Cache/CacheBase.cs:29-33 | the cached references are the old ones plus the added one, each still with a single entry |
| CacheBase.AddObjectIsAdd | ArndtBalke/Cache/CacheBase.cs:29-58 | while every record shows its object's current fields, adding by reference is the value `Add` |
| CacheBase.NearestIndex | ArndtBalke/Cache/CacheBase.cs:35-46 | `GetNearest` finds nothing exactly when no entry is valid; otherwise it finds a valid entry with no strictly closer valid entry and every earlier valid entry strictly farther, so ties go to the earliest |
| CacheBase.NearestUnique | ArndtBalke/Cache/CacheBase.cs:41 | only one position meets that description, so the list order alone decides ties |
| CacheBase.Nearest | ArndtBalke/Cache/CacheBase.cs:35-46 | the nearest-valid entry is null exactly when no entry is valid |
| CacheBase.NearestOfAny | ArndtBalke/Cache/CacheBase.cs:48-51 | with the default `IsValid`, `GetNearest` is null only on an empty list |
| CacheBase.Cleanup | ArndtBalke/Cache/CacheBase.cs:60-67 | the in-place loop with `RemoveAt(i--)` examines each original entry exactly once, in order, against the list as it stands at that moment (the `Sweep` reference definition) |
| CacheBase.SweepIndependent | ArndtBalke/Cache/CacheBase.cs:60-67 | when deprecation ignores the other entries, the cleanup keeps the examined form of exactly the entries not found deprecated, in order |
| CacheBase.CleanupPure | ArndtBalke/Cache/CacheBase.cs:60-67 | with a pure, non-mutating predicate, the cleanup removes exactly the deprecated entries and keeps the rest in their original order |
| CacheBase.Keep | ArndtBalke/Cache/CacheBase.cs:60-67 | the entries kept are exactly the non-deprecated ones, and never more than the list had |
| CacheBase.KeepIdempotent | ArndtBalke/Cache/CacheBase.cs:60-67 | with a pure, non-mutating predicate, a second cleanup changes nothing |
| CacheBase.KeepAppend | ArndtBalke/Cache/CacheBase.cs:60-67 | the pure cleanup of a concatenation is the concatenation of the cleanups |
| CacheBase.SweepSubSeq | ArndtBalke/Cache/CacheBase.cs:60-67 | a non-mutating cleanup keeps a selection of the entries in their original relative order |
| CacheBase.KeepSubSeq | ArndtBalke/Cache/CacheBase.cs:60-67 | the survivors of a pure cleanup keep their relative order |
| CacheBase.SubSeqMembers | ArndtBalke/Cache/CacheBase.cs:60-67 | an order-preserving selection is no longer than the list and holds only its entries |
| SignalCache.Add | ArndtBalke/Cache/SignalCache.cs:7-10 | `Add` always appends: the list grows by one, with the signal last |
| SignalCache.AddIgnoresContains | ArndtBalke/Cache/SignalCache.cs:7-10 | even when `Contains` holds, the signal cache grows, whereas the inherited `Add` would have left the list unchanged |
| SignalCache.Contains | ArndtBalke/Cache/SignalCache.cs:12-25 | a cached copy is always found, and a hit needs a cached signal of the same type |
| SignalCache.Deprecated | ArndtBalke/Cache/SignalCache.cs:37-54 | a signal past its type's lifetime is deprecated whatever else is cached; with no other entry, age alone decides |
| SignalCache.ContainsRadius | ArndtBalke/Cache/SignalCache.cs:12-25 | a different same-type signal makes `Contains` true at distance 49 and false at exactly 50 |
| SignalCache.Cleanup | ArndtBalke/Cache/SignalCache.cs:27-35 | every signal is one tick older before any removal; the survivors keep their order and none is past its type's age limit |
| SignalCache.SweepFresh | ArndtBalke/Cache/SignalCache.cs:48-53 | nothing the sweep keeps is past its age limit |
| SignalCache.SingletonStep | ArndtBalke/Cache/SignalCache.cs:37-54 | a signal alone in the cache ages by one and stays unless it is now past its limit |
| SignalCache.IsolatedLifetime | ArndtBalke/Cache/SignalCache.cs:48-53 | an isolated fresh signal survives exactly its type's limit of cleanups and is gone on the next: bug or ant on the 2nd, sugar on the 16th, any other type on the 7th |
| SignalCache.EqualAgePair | ArndtBalke/Cache/SignalCache.cs:39-46 | of two same-type signals of equal age within 70 of each other, the earlier is evicted and the later alone remains (unless it is past its limit) |
| SignalCache.SweepKeepsUndominated | ArndtBalke/Cache/SignalCache.cs:37-54 | a signal that no other entry dominates and that is not past its limit is kept by the sweep |
| SignalCache.YoungestSurvives | ArndtBalke/Cache/SignalCache.cs:41-45 | a signal strictly younger than every same-type signal within 70 survives the cleanup exactly when it is not past its limit |
| SignalCache.DominatorsOfType | ArndtBalke/Cache/SignalCache.cs:43 | only same-type signals can cause an eviction |
| SignalCache.CleanupByType | ArndtBalke/Cache/SignalCache.cs:27-54 | signals of other types never affect the eviction of a type: cleaning and then selecting a type equals selecting it and then cleaning |
| SignalCache.OfType | ArndtBalke/Cache/SignalCache.cs:43 | the selection of one type holds exactly the list's signals of that type |
| MarkerCache.Add | ArndtBalke/Cache/MarkerCache.cs:12-25 | the inherited `Add` appends a mark exactly when no same-type mark lies within 50 and the mark is not already cached |
| MarkerCache.Contains | ArndtBalke/Cache/MarkerCache.cs:12-25 | a cached copy is always found, and a hit needs a cached mark of the same type |
| MarkerCache.ValueTestRedundant | ArndtBalke/Cache/MarkerCache.cs:12-25 | whenever a point lies within 50 of itself, `Contains` is exactly the same-type proximity test |
| MarkerCache.AddAllSpread | ArndtBalke/Cache/MarkerCache.cs:12-25 | a marker cache built only by `Add` never holds two same-type marks closer than 50 |
| MarkerCache.Cleanup | ArndtBalke/Cache/MarkerCache.cs:32-40 | the base cleanup with the ageing test leaves every mark one tick older and drops exactly the expired ones, in order |
| MarkerCache.Expired | ArndtBalke/Cache/MarkerCache.cs:36-39 | every mark older than 6 is expired and none of age 1 or less; marks other than bug and ant reports expire exactly past 6 |
| MarkerCache.ExaminerIndependent | ArndtBalke/Cache/MarkerCache.cs:32-40 | there is no dominance rule: a mark's fate depends on its own type and age alone |
| MarkerCache.Lifetime | ArndtBalke/Cache/MarkerCache.cs:36-39 | a fresh bug or ant mark is removed on the 2nd cleanup and any other type on the 7th |
| MarkerCache.CleanupSplits | ArndtBalke/Cache/MarkerCache.cs:32-40 | cleaning a list equals cleaning any split of it part by part |
| MemoryCaches.Route | ArndtBalke/Cache/SignalMemoryCache.cs:22-32 | `Add` routes type 0 to bugs, 1 to ants, 2 to sugar and 3 to fruits; it changes only that list and drops every other type without a trace |
| MemoryCaches.AddSignal | ArndtBalke/Cache/SignalMemoryCache.cs:22-32 | a signal of types 0-3 is appended to its own list and nothing else changes; any other type, such as 4, changes nothing |
| MemoryCaches.AddSignalWellRouted | ArndtBalke/Cache/SignalMemoryCache.cs:22-32 | after routed adds, each list holds only its own type |
| MemoryCaches.ContainsSignalRoutes | ArndtBalke/Cache/SignalMemoryCache.cs:34-40 | the four-list disjunction equals asking the signal's own list, and is false for types 4 and above |
| MemoryCaches.ContainsSignal | ArndtBalke/Cache/SignalMemoryCache.cs:34-40 | a copy cached in any of the four lists is found, and a hit needs a same-type signal in one of them |
| MemoryCaches.CleanupSignals | ArndtBalke/Cache/SignalMemoryCache.cs:42-48 | each of the four lists is cleaned exactly once, and routing stays intact |
| MemoryCaches.AddMarker | ArndtBalke/Cache/MarkerMemoryCache.cs:24-34 | a mark of types 0-3 goes through its own list's `Add`; every other list is unchanged and other types are dropped |
| MemoryCaches.AddMarkerInvariants | ArndtBalke/Cache/MarkerMemoryCache.cs:24-34 | routed adds keep every list single-typed, with same-type marks at least 50 apart |
| MemoryCaches.ContainsMarkerRoutes | ArndtBalke/Cache/MarkerMemoryCache.cs:36-42 | the four-list disjunction of `Contains` equals asking the mark's own list, and is false for types 4 and above |
| MemoryCaches.ContainsMarker | ArndtBalke/Cache/MarkerMemoryCache.cs:36-42 | a copy cached in any of the four lists is found, and a hit needs a same-type mark in one of them |
| MemoryCaches.AddedMarkerContained | ArndtBalke/Cache/MarkerMemoryCache.cs:24-42 | once added, a mark of types 0-3 is contained |
| MemoryCaches.CleanupMarkers | ArndtBalke/Cache/MarkerMemoryCache.cs:44-50 | each of the four lists is cleaned exactly once, and routing stays intact |
| MemoryCaches.AddFruit | ArndtBalke/Cache/MemoryCache.cs:29-33 | adding a fruit touches only the fruit cache. The cache then holds the new fruit and every cached fruit of another object. It grows by one exactly when the object was not cached |
| MemoryCaches.AddSugar | ArndtBalke/Cache/MemoryCache.cs:29-33 | adding sugar touches only the sugar cache, replacing the heap's earlier record or appending it when new |
| MemoryCaches.AddBug | ArndtBalke/Cache/MemoryCache.cs:29-33 | adding a bug touches only the bug cache, replacing the bug's earlier record or appending it when new |
| MemoryCaches.AddAnt | ArndtBalke/Cache/MemoryCache.cs:29-33 | adding an enemy ant touches only the ant cache, replacing the ant's earlier record or appending it when new |
| MemoryCaches.AddMark | ArndtBalke/Cache/MemoryCache.cs:35-38 | adding a mark touches only the marker memory. A mark of types 0-3 goes through its own list's `MarkerCache.Add`, and any other type changes nothing |
| MemoryCaches.ResightedSugar | ArndtBalke/Cache/FoodCache.cs:17-21 | a heap cached at 100 and seen at 90 keeps one entry showing 90. Seen again at 0, the food cleanup removes it |
| MemoryCaches.Cleanup | ArndtBalke/Cache/MemoryCache.cs:40-49 | one memory cleanup runs each of the five sub-cache cleanups once, with its own rule |
| MemoryCaches.CleanupMeetsSpec | ArndtBalke/Cache/MemoryCache.cs:40-49 | those five per-cache results determine the cleaned memory |
| ItemCaches.FoodCleanup | ArndtBalke/Cache/FoodCache.cs:17-21 | a food entry is removed exactly when its amount is at most 0; survivors keep their order |
| ItemCaches.OpponentCleanup | ArndtBalke/Cache/OpponentCache.cs:17-21 | an insect is removed exactly when its energy is at most 0; survivors keep their order |
| ItemCaches.JudgeNonMutating | ArndtBalke/Cache/FoodCache.cs:17-21 | a predicate-only deprecation test never changes the entry it examines |
| ItemCaches.CleanupsIdempotent | ArndtBalke/Cache/OpponentCache.cs:17-21 | a second food or opponent cleanup right after the first removes nothing |
| ItemCaches.NearestOpponent | ArndtBalke/Cache/CacheBase.cs:35-46 | with no `IsValid` override, every cached insect is a candidate: null only for an empty cache, otherwise the earliest of the nearest |
| ItemCaches.NearestFood | ArndtBalke/Cache/CacheBase.cs:35-46 | every cached sugar is a candidate: null only for an empty cache, otherwise the earliest of the nearest, since only a strictly closer entry replaces the running one |
| ItemCaches.NearestFruit | ArndtBalke/Cache/FruitCache.cs:12-15 | the fruit cache never offers a fruit that does not need carriers, and offers nothing exactly when no cached fruit needs them |
| ItemCaches.FruitKeptButNotOffered | ArndtBalke/Cache/FruitCache.cs:12-15 | a fruit that no longer needs carriers but has an amount stays cached yet is never offered, so a non-empty cache may answer null |
| BaseBehavior.MustReturn | ArndtBalke/Behavior/BaseBehavior.cs:123-124 | the rational abort test holds exactly when 50·(range − walked) − range < 50·home or 20·energy < 3·max |
| BaseBehavior.MustReturnExamples | ArndtBalke/Behavior/BaseBehavior.cs:123-128 | with range 1000 and 850 walked, a home 150 away forces the return; one 100 or 130 away does not |
| BaseBehavior.Tick | ArndtBalke/Behavior/BaseBehavior.cs:112-131 | the memory is cleaned first; the ant heads home and skips its role move exactly when the abort test holds; the role move sees the cleaned memory |
| BaseBehavior.DetectedScentFriend | ArndtBalke/Behavior/BaseBehavior.cs:299-310 | with no anthill known the mark is ignored; otherwise it is relayed with range 90 exactly when its hop is below 2 and the memory does not already contain it, and it is always added afterwards |
| BaseBehavior.RelayedWord | ArndtBalke/Behavior/BaseBehavior.cs:304-307 | the relayed mark carries the received type and coordinates with one more hop |
| BaseBehavior.RelayedOnce | ArndtBalke/Behavior/BaseBehavior.cs:306-309 | a mark of types 0-3 received twice is relayed at most once |
| BaseBehavior.UncachedTypeRelayedAgain | ArndtBalke/Cache/MarkerMemoryCache.cs:24-42 | a mark of type 4 or above is never cached, leaves the memory unchanged, and is relayed on every reception while it has fewer than two hops |
| BaseBehavior.Type4RelayedTwice | ArndtBalke/Behavior/BaseBehavior.cs:306-309 | the word 4, a fruit-needs-protection mark with no hops, is relayed on both its first and its second reception |
| BaseBehavior.MarkIfKnown | ArndtBalke/Behavior/BaseBehavior.cs:312-352 | every `Mark*` emits one mark of its type at the item, with its range, and none while the anthill is unknown |
| BaseBehavior.SpotsFruit | ArndtBalke/Behavior/BaseBehavior.cs:241-249 | a sighted fruit is cached, and marked with range 200 exactly when it needs carriers |
| BaseBehavior.SpotsSugar | ArndtBalke/Behavior/BaseBehavior.cs:257-265 | sighted sugar is cached, and marked with range 50 exactly when its amount exceeds four full loads |
| BaseBehavior.SugarThreshold | ArndtBalke/Behavior/BaseBehavior.cs:261 | the sugar threshold is strict: exactly four loads are not marked, one more is |
| BaseBehavior.SpotsEnemyAnt | ArndtBalke/Behavior/BaseBehavior.cs:395-400 | a sighted enemy ant is cached and marked with range 75 |
| BaseBehavior.SpotsBug | ArndtBalke/Behavior/BaseBehavior.cs:408-413 | a sighted bug is cached and marked with range 75 |
| BaseBehavior.GoTo | ArndtBalke/Behavior/BaseBehavior.cs:155-171 | `GoTo(coordinate)` does nothing when the anthill is unknown, either coordinate is null, or the distance is 0; otherwise it walks the offset to the target |
| BaseBehavior.ZeroLength | ArndtBalke/Behavior/BaseBehavior.cs:168-171 | the Euclidean distance is 0 only for the zero offset |
| BaseBehavior.Attack | ArndtBalke/Behavior/BaseBehavior.cs:380-386 | `Attack` approaches a foe beyond view range and strikes one within it |
| Views.NearestSignal | ArndtBalke/Behavior/GathererBehavior.cs:69 | the nearest signal of a type is null exactly when there is none; otherwise it is one of them, no other is nearer, and every earlier signal of that type is strictly farther, as the stable ordering keeps list order among ties |
| Views.NearestSignalSpots | ArndtBalke/Behavior/GathererBehavior.cs:69 | the nearest signal sits on a nearest position among the signals of its type |
| Views.Pursue | ArndtBalke/Behavior/GathererBehavior.cs:71-84 | the item-or-signal rule yields only the item or the signal it was given |
| Views.PursueChoice | ArndtBalke/Behavior/HunterBehavior.cs:102-112 | the item is chosen exactly when it beats every signal by the factor; failing that, a signal exactly when there is one and all lie beyond view range |
| Gatherer.NextTarget | ArndtBalke/Behavior/GathererBehavior.cs:43-56 | a base target wins; heading home, carrying fruit or carrying a load gives none; otherwise fruit, and sugar only when there is no fruit target |
| Gatherer.TargetFruit | ArndtBalke/Behavior/GathererBehavior.cs:63-85 | a fruit target is a cached fruit needing carriers, and a signal target is a fruit-needs-carriers signal |
| Gatherer.TargetSugar | ArndtBalke/Behavior/GathererBehavior.cs:91-113 | a sugar target is cached sugar, and a signal target is a sugar-spotted signal |
| Gatherer.FruitChoice | ArndtBalke/Behavior/GathererBehavior.cs:66-84 | the fruit is chosen exactly when some fruit needing carriers is strictly nearer than every carrier signal (or there is none); otherwise a signal exactly when there is one and all lie beyond view range |
| Gatherer.SugarChoice | ArndtBalke/Behavior/GathererBehavior.cs:94-112 | the same rule for sugar, where every cached sugar qualifies |
| Gatherer.FruitVersusSignalExample | ArndtBalke/Behavior/GathererBehavior.cs:71-84 | a fruit at 40 and a signal at 30 give the signal when 30 exceeds the view range, and nothing otherwise |
| Gatherer.NextSignal | ArndtBalke/Behavior/GathererBehavior.cs:119-133 | a base signal wins; otherwise a fruit-needs-carriers call at the carried fruit exactly when it needs carriers |
| Gatherer.ReachedFruit | ArndtBalke/Behavior/GathererBehavior.cs:146-154 | a reached fruit is taken home exactly when it needs carriers |
| Gatherer.ReachedSugar | ArndtBalke/Behavior/GathererBehavior.cs:163-168 | reached sugar is always taken home |
| Gatherer.UnderAttack | ArndtBalke/Behavior/GathererBehavior.cs:180-209 | under attack, any load is dropped first, then the ant heads home |
| Hunter.PursuitFactorExact | ArndtBalke/Behavior/HunterBehavior.cs:103 | d(item) < 1.75·d(signal) is exactly 4·d(item) < 7·d(signal) |
| Hunter.AgeCurrent | ArndtBalke/Behavior/HunterBehavior.cs:49-55 | the current point ages by one and is dropped once its age exceeds 55 |
| Hunter.NextTarget | ArndtBalke/Behavior/HunterBehavior.cs:42-64 | a base target wins and keeps the point; otherwise the point ages even when heading home, and heading home gives no target |
| Hunter.PriorityChain | ArndtBalke/Behavior/HunterBehavior.cs:60-63 | attack point, then fruit protection, then enemy ant, then bug: the first non-null wins |
| Hunter.AttackPointTarget | ArndtBalke/Behavior/HunterBehavior.cs:66-84 | a current point is the target exactly when it is more than 100 away; without one, the nearest attack-point signal is the target at any distance |
| Hunter.NoFallbackWithinReach | ArndtBalke/Behavior/HunterBehavior.cs:68-74 | a current point within 100 gives no attack-point target at all, and no fallback to attack-point signals |
| Hunter.NeverAdopts | ArndtBalke/Behavior/HunterBehavior.cs:15-81 | the hunter never acquires a current attack point |
| Hunter.PointLifetime | ArndtBalke/Behavior/HunterBehavior.cs:49-55 | a fresh point survives 55 calls and is gone on the 56th |
| Hunter.FruitProtection | ArndtBalke/Behavior/HunterBehavior.cs:86-94 | a fruit-protection call is targeted exactly when one exists and none lies within view range |
| Hunter.OpponentAnt | ArndtBalke/Behavior/HunterBehavior.cs:96-113 | an ant target is a cached enemy ant, and a signal target is an ant-spotted signal |
| Hunter.Bugs | ArndtBalke/Behavior/HunterBehavior.cs:115-132 | a bug target is a cached bug, and a signal target is a bug-spotted signal |
| Hunter.NearestInsectSpots | ArndtBalke/Behavior/HunterBehavior.cs:98 | the nearest cached insect sits on a nearest cached position |
| Hunter.OpponentAntChoice | ArndtBalke/Behavior/HunterBehavior.cs:102-112 | the enemy ant is chosen exactly when some cached ant satisfies 4·d(ant) < 7·d(signal) for every ant-spotted signal (or there is none); otherwise a signal exactly when there is one and all lie beyond view range |
| Hunter.BugChoice | ArndtBalke/Behavior/HunterBehavior.cs:121-131 | the same 1.75 rule for bugs |
| Hunter.NextSignal | ArndtBalke/Behavior/HunterBehavior.cs:134-147 | a base signal wins; otherwise ant-spotted or bug-spotted at the destination exactly when the destination is an enemy ant or a bug |
| Hunter.UnderAttack | ArndtBalke/Behavior/HunterBehavior.cs:163-181 | under attack the hunter fights back, approaching a foe beyond view range |
| Commander.AntPointsMembers | ArndtBalke/Behavior/CommanderBehavior.cs:98-105 | the ant candidates are exactly the positions of enemy ants carrying fruit or a load, each weighted 5 |
| Commander.BugPoints | ArndtBalke/Behavior/CommanderBehavior.cs:107-110 | every cached bug is a candidate weighted 7, in order |
| Commander.SignalPointsMembers | ArndtBalke/Behavior/CommanderBehavior.cs:112-120 | ant-spotted reports weigh 2, bug-spotted 4 and fruit-needs-protection 10; other types contribute nothing |
| Commander.NoCandidates | ArndtBalke/Behavior/CommanderBehavior.cs:94-120 | there is no candidate exactly when no ant raids, no bug is known and no report carries a weight |
| Commander.Candidates | ArndtBalke/Behavior/CommanderBehavior.cs:94-120 | every known bug is a candidate weighted 7, and there are at least as many candidates as bugs and at most one per ant, bug and report |
| Commander.Cluster | ArndtBalke/Behavior/CommanderBehavior.cs:122-129 | the nested loops update priorities in place, in list order, each point adding the current priority of every other point within 150 |
| Commander.ClusterUpTo | ArndtBalke/Behavior/CommanderBehavior.cs:122-129 | clustering changes priorities only: positions, ages and the number of points stay the same |
| Commander.ClusterPairExample | ArndtBalke/Behavior/CommanderBehavior.cs:122-129 | two mutually close points weighted 5 and 7 end at 12 and 19 |
| Commander.IsolatedKeepsWeight | ArndtBalke/Behavior/CommanderBehavior.cs:126-127 | a point with no other within 150 keeps its weight |
| Commander.ClusterRaises | ArndtBalke/Behavior/CommanderBehavior.cs:126-127 | with non-negative weights, clustering never lowers a priority |
| Commander.MinDistance | ArndtBalke/Behavior/CommanderBehavior.cs:57-65 | `minDistance` is the smallest distance to any candidate, and some candidate attains it |
| Commander.PrunedFacts | ArndtBalke/Behavior/CommanderBehavior.cs:67-71 | pruning keeps exactly the candidates within min + 100, in order, and the nearest always survives |
| Commander.Prune | ArndtBalke/Behavior/CommanderBehavior.cs:67-71 | the `RemoveAt(i--)` loop computes that pruning |
| Commander.Decay | ArndtBalke/Behavior/CommanderBehavior.cs:73-81 | the decay step happens only when there is a current point, and changes priorities only |
| Commander.SelectBest | ArndtBalke/Behavior/CommanderBehavior.cs:83-91 | selection returns the first candidate of maximal priority, and null exactly when there are none |
| Commander.NextAttackPointFacts | ArndtBalke/Behavior/CommanderBehavior.cs:47-52 | the next attack point is null exactly when there are no candidates; otherwise it is fresh and lies on some candidate's position |
| Commander.NextAttackPoint | ArndtBalke/Behavior/CommanderBehavior.cs:47-92 | candidates are clustered, pruned, decayed and the best selected, in that order |
| Commander.PickedFrom | ArndtBalke/Behavior/CommanderBehavior.cs:57-91 | a non-empty candidate list always yields a choice, at the position and age of one of its points |
| Commander.CandidatesFresh | ArndtBalke/Behavior/CommanderBehavior.cs:94-120 | every candidate starts at age 0 |
| Commander.NextTarget | ArndtBalke/Behavior/CommanderBehavior.cs:19-45 | a base target wins; heading home gives none without ageing; a live point ages and gives no target; a null or deprecated point is replaced, and a new point yields an attack-point target at it |
| Commander.NextSignal | ArndtBalke/Behavior/CommanderBehavior.cs:134-140 | an attack-point signal is emitted exactly when the current point has age 0, ahead of the base signal |
| Commander.AnnouncedOnce | ArndtBalke/Behavior/CommanderBehavior.cs:134-140 | a new point is announced on the tick it is chosen and not on the next |
| Scout.Draw | ArndtBalke/Behavior/ScoutBehavior.cs:62 | a random pick from a non-empty list is one of its entries |
| Scout.RandomAntSignal | ArndtBalke/Behavior/ScoutBehavior.cs:49-66 | the ant report names an enemy ant carrying fruit or a load, and there is one exactly when such an ant is cached |
| Scout.RandomBugSignal | ArndtBalke/Behavior/ScoutBehavior.cs:68-78 | the bug report names a cached bug, and there is one exactly when a bug is cached |
| Scout.RandomSugarSignal | ArndtBalke/Behavior/ScoutBehavior.cs:80-96 | the sugar report names sugar holding more than 250, and there is one exactly when such sugar is cached |
| Scout.FirstThreat | ArndtBalke/Behavior/ScoutBehavior.cs:104-108 | the inner loop finds the first ant within 75 of the fruit, or none exactly when no ant is that close |
| Scout.ProtectionCallWhen | ArndtBalke/Behavior/ScoutBehavior.cs:102-108 | a protection call is made exactly when some cached ant is within 75 of some cached fruit |
| Scout.ProtectionCall | ArndtBalke/Behavior/ScoutBehavior.cs:102-108 | a protection call is a fresh fruit-needs-protection signal (no hops, age 0), and there is none without fruits or ants |
| Scout.ProtectionCallNames | ArndtBalke/Behavior/ScoutBehavior.cs:102-108 | the call is at the first threatening ant of the first threatened fruit, before later fruits are considered |
| Scout.RandomFruitSignal | ArndtBalke/Behavior/ScoutBehavior.cs:98-120 | a protection call wins; otherwise a carrier call for a fruit needing carriers; nothing exactly when neither exists |
| Scout.RemoveAtDistinct | ArndtBalke/Behavior/ScoutBehavior.cs:43 | removing one generator leaves the others, all distinct |
| Scout.RandomInfoSignal | ArndtBalke/Behavior/ScoutBehavior.cs:22-47 | each generator is tried at most once, so the loop ends within 4 rounds; the result is the first non-null generator output in the drawn order, and null exactly when every generator gives null |
| Scout.NextSignal | ArndtBalke/Behavior/ScoutBehavior.cs:16-20 | a base signal wins; otherwise a random report, null exactly when every generator gives null |
| Scout.UnderAttack | ArndtBalke/Behavior/ScoutBehavior.cs:124-132 | under attack the scout does exactly one thing, head home: it neither drops its load nor fights back |

## Left out

- Host primitives. Movement and turning, `Take`, `Drop`, the host side of `Attack`,
  `Think`, and the transport of `MakeMark` are host calls. The model returns them as
  values.
- `Destination`, `NeedsCarrier(fruit)` and `RandomNumber.Number` are host queries. They
  appear as view fields, food fields and oracle arguments respectively.
- Distances: `Coordinate.GetDistanceBetween` and `RelativeCoordinate.GetDistanceTo` are
  not part of this model. They are replaced by the distance oracle.
- `ArndtBalke/Cache/ItemCache.cs` only forwards to the host distance, so it is covered
  by the oracle.
- `GetDistanceTo` returns -1 while the anthill's own coordinate is unknown. This is not
  modelled, except for `Tick`'s distance home.
- BaseBehavior.GoTo: the bearing computed with `atan` on doubles and the host's turn
  convention are left out. The model returns only the offset to walk.
- BaseBehavior.MustReturn: the 0.02 and 0.15 factors are exact rationals, so
  boundary cases can differ from the C# double comparison.
- Commander.Decay: the priority decay formula is double arithmetic, and it divides by
  zero when every remaining point coincides with the current one. It is an opaque
  `rescale` oracle; only its shape (when it applies and that it touches priorities
  alone) is stated.
- `ArndtBalke/MarkerInfo/InfoType.cs` is an unused enum whose numbering conflicts with
  the types the code tests. It is not modelled.
- `ArndtBalke/ArndtBalkeClass.cs` is host glue and caste bootstrapping with no decision
  logic of its own. It is not modelled.
- Commander.NextTarget: `Think` with the new point's coordinates is a host call and is
  omitted.
- Scout.RandomInfoSignal: the `Think` call is omitted.
- Live references. A cached C# reference shows its host object's current fields
  at all times. A cached record in the model is updated only when that object is
  sighted again. A cleanup therefore sees, for an object not seen since, the amount
  or energy of its latest sighting. A caller wanting C#'s exact view passes a memory
  whose records carry current fields. With such a memory, adding by `id` is the plain
  `Add` (`CacheBase.AddObjectIsAdd`).
- MarkerCache.Contains: its `base.Contains` is a value test. In C# every mark queried
  is a freshly decoded object, so the reference test never holds there. The value
  test only changes a result when a point does not lie within 50 of itself
  (`MarkerCache.ValueTestRedundant`), which no real distance allows.
- Commander.Cluster: priorities are unbounded integers, whereas C#'s `+=` on an `int`
  wraps past 2^31 − 1. Each point adds its neighbours' already raised priorities, so
  priorities can roughly double per point. With 26 mutually close weight-5 candidates
  they exceed the bound. A wrapped, negative priority would then lose in `SelectBest`,
  and the model does not reproduce that.
- SignalCodec.Encode requires coordinates other than `int.MinValue`, because
  `Math.Abs` throws on it.
- Memory sub-caches are fields of an immutable value. "Created once and never
  reassigned" holds by construction and is not a separate lemma.
- The constructors of `MemoryCache` and of the routing caches are the empty values
  `EmptyMemory` and `EmptyRouted`.
