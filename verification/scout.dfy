/**
 * `ScoutBehavior`: when the base behaviour has nothing to say, a scout
 * broadcasts one piece of intelligence drawn at random from memory. The
 * four generators are tried in random order until one produces a report.
 *
 * `RandomNumber.Number(n)` is host randomness: `pick(k)` is the draw made in
 * the k-th round of the generator loop and `sample(g)` the draw generator
 * `g` makes to choose among its candidates; both are reduced modulo the
 * list length, as `Number(n)` answers below `n`.
 */
module Scout {
  import opened Wrappers
  import opened Geometry
  import opened Signals
  import opened Items
  import opened CacheBase
  import opened Views
  import opened MemoryCaches

  /** Only sugar heaps larger than this are worth reporting. */
  const SugarReportAmount: int := 250
  /** An enemy ant closer than this to a fruit is a threat to it. */
  const ThreatRadius: int := 75

  datatype Generator = AntGenerator | BugGenerator | SugarGenerator | FruitGenerator

  /** The generator list in its initial order. */
  const Generators: seq<Generator> := [AntGenerator, BugGenerator, SugarGenerator, FruitGenerator]

  /** `list[Number(list.Count)]` for a non-empty list. */
  function Draw<T>(list: seq<T>, roll: nat): (r: T)
    requires list != []
    ensures r in list
  {
    list[roll % |list|]
  }

  predicate NotRaider(a: Insect) { !IsRaider(a) }
  predicate SmallSugar(f: Food) { f.amount <= SugarReportAmount }
  predicate NoCarriersNeeded(f: Food) { !f.needsCarriers }

  /** `GetRandomAntSignal`. */
  function RandomAntSignal(m: Memory, roll: nat): (r: Option<Signal>)
    ensures r.None? <==> forall a | a in m.ants :: !IsRaider(a)
    ensures r.Some? ==> exists a | a in m.ants && IsRaider(a) :: r.value == NewSignal(AntSpotted, a.pos)
  {
    var raiders := Keep(m.ants, NotRaider);
    if raiders == [] then
      assert forall a | a in m.ants :: a !in raiders;
      None
    else Some(NewSignal(AntSpotted, Draw(raiders, roll).pos))
  }

  /** `GetRandomBugSignal`. */
  function RandomBugSignal(m: Memory, roll: nat): (r: Option<Signal>)
    ensures r.None? <==> m.bugs == []
    ensures r.Some? ==> exists b | b in m.bugs :: r.value == NewSignal(BugSpotted, b.pos)
  {
    if m.bugs == [] then None else Some(NewSignal(BugSpotted, Draw(m.bugs, roll).pos))
  }

  /** `GetRandomSugarSignal`. */
  function RandomSugarSignal(m: Memory, roll: nat): (r: Option<Signal>)
    ensures r.None? <==> forall f | f in m.sugar :: f.amount <= SugarReportAmount
    ensures r.Some? ==> exists f | f in m.sugar && f.amount > SugarReportAmount :: r.value == NewSignal(SugarSpotted, f.pos)
  {
    var heaps := Keep(m.sugar, SmallSugar);
    if heaps == [] then
      assert forall f | f in m.sugar :: f !in heaps;
      None
    else Some(NewSignal(SugarSpotted, Draw(heaps, roll).pos))
  }

  /** Whether `ant` threatens `fruit`. */
  predicate Threatens(dist: Metric, ant: Insect, fruit: Food) {
    dist(ant.pos, fruit.pos) < ThreatRadius
  }

  /** The inner `foreach`: the first ant threatening `fruit`. */
  function FirstThreat(dist: Metric, ants: seq<Insect>, fruit: Food): (r: Option<nat>)
    ensures r.None? <==> forall j | 0 <= j < |ants| :: !Threatens(dist, ants[j], fruit)
    ensures r.Some? ==> r.value < |ants| && Threatens(dist, ants[r.value], fruit) &&
                        forall j | 0 <= j < r.value :: !Threatens(dist, ants[j], fruit)
    decreases |ants|
  {
    if ants == [] then None
    else if Threatens(dist, ants[0], fruit) then Some(0)
    else
      var rest := FirstThreat(dist, ants[1..], fruit);
      if rest.None? then None else Some(rest.value + 1)
  }

  /** The outer `foreach` with its early return: the protection call for the
      first fruit, in memory order, that some ant threatens, placed at the
      first such ant. */
  function ProtectionCall(dist: Metric, fruits: seq<Food>, ants: seq<Insect>): (r: Option<Signal>)
    ensures r.Some? ==> r.value.infoType == FruitNeedsProtection && r.value.hop == 0 && r.value.age == 0
    ensures fruits == [] || ants == [] ==> r.None?
    decreases |fruits|
  {
    if fruits == [] then None
    else
      var first := FirstThreat(dist, ants, fruits[0]);
      if first.Some? then Some(NewSignal(FruitNeedsProtection, ants[first.value].pos))
      else ProtectionCall(dist, fruits[1..], ants)
  }

  /** A protection call is made exactly when some ant threatens some fruit. */
  lemma {:induction false} ProtectionCallWhen(dist: Metric, fruits: seq<Food>, ants: seq<Insect>)
    ensures ProtectionCall(dist, fruits, ants).None? <==>
      forall i, j | 0 <= i < |fruits| && 0 <= j < |ants| :: !Threatens(dist, ants[j], fruits[i])
    decreases |fruits|
  {
    if fruits != [] {
      var tail := fruits[1..];
      ProtectionCallWhen(dist, tail, ants);
      assert forall i | 1 <= i < |fruits| :: fruits[i] == tail[i - 1];
      if FirstThreat(dist, ants, fruits[0]).Some? {
        var j := FirstThreat(dist, ants, fruits[0]).value;
        assert Threatens(dist, ants[j], fruits[0]);
      }
    }
  }

  /** The call names the first threatening ant of the first threatened
      fruit. */
  lemma {:induction false} ProtectionCallNames(dist: Metric, fruits: seq<Food>, ants: seq<Insect>)
    ensures var r := ProtectionCall(dist, fruits, ants);
      r.Some? ==> exists i | 0 <= i < |fruits| ::
        && FirstThreat(dist, ants, fruits[i]).Some?
        && r.value == NewSignal(FruitNeedsProtection, ants[FirstThreat(dist, ants, fruits[i]).value].pos)
        && forall i' | 0 <= i' < i :: FirstThreat(dist, ants, fruits[i']).None?
    decreases |fruits|
  {
    if fruits != [] && FirstThreat(dist, ants, fruits[0]).None? {
      var tail := fruits[1..];
      ProtectionCallNames(dist, tail, ants);
      var r := ProtectionCall(dist, tail, ants);
      if r.Some? {
        var i :| 0 <= i < |tail| && FirstThreat(dist, ants, tail[i]).Some?
          && r.value == NewSignal(FruitNeedsProtection, ants[FirstThreat(dist, ants, tail[i]).value].pos)
          && forall i' | 0 <= i' < i :: FirstThreat(dist, ants, tail[i']).None?;
        assert fruits[i + 1] == tail[i];
        assert forall i' | 1 <= i' < i + 1 :: fruits[i'] == tail[i' - 1];
      }
    }
  }

  /** `GetRandomFruitSignal`: a threatened fruit wins over one that needs
      carriers. */
  function RandomFruitSignal(m: Memory, dist: Metric, roll: nat): (r: Option<Signal>)
    ensures r.None? <==> ProtectionCall(dist, m.fruits, m.ants).None? && forall f | f in m.fruits :: !f.needsCarriers
    ensures ProtectionCall(dist, m.fruits, m.ants).Some? ==> r == ProtectionCall(dist, m.fruits, m.ants)
    ensures ProtectionCall(dist, m.fruits, m.ants).None? && r.Some? ==>
      exists f | f in m.fruits && f.needsCarriers :: r.value == NewSignal(FruitNeedsCarriers, f.pos)
  {
    var call := ProtectionCall(dist, m.fruits, m.ants);
    if call.Some? then call
    else
      var needing := Keep(m.fruits, NoCarriersNeeded);
      if needing == [] then
        assert forall f | f in m.fruits :: f !in needing;
        None
      else Some(NewSignal(FruitNeedsCarriers, Draw(needing, roll).pos))
  }

  /** One generator's answer. */
  function Generate(v: View, g: Generator, sample: Generator -> nat): Option<Signal> {
    match g
    case AntGenerator => RandomAntSignal(v.memory, sample(g))
    case BugGenerator => RandomBugSignal(v.memory, sample(g))
    case SugarGenerator => RandomSugarSignal(v.memory, sample(g))
    case FruitGenerator => RandomFruitSignal(v.memory, v.dist, sample(g))
  }

  /** `RemoveAt` keeps a list free of duplicates and drops exactly the
      removed element. */
  lemma RemoveAtDistinct<T>(list: seq<T>, i: nat)
    requires i < |list| && Distinct(list)
    ensures Distinct(list[..i] + list[i + 1..])
    ensures forall x :: x in list[..i] + list[i + 1..] <==> x in list && x != list[i]
  {
    var r := list[..i] + list[i + 1..];
    assert forall k | 0 <= k < |r| :: r[k] == if k < i then list[k] else list[k + 1];
    forall x | x in list && x != list[i] ensures x in r {
      var k :| 0 <= k < |list| && list[k] == x;
      if k < i { assert r[k] == x; } else { assert r[k - 1] == x; }
    }
  }

  /** `GetRandomInfoSignal`: draws generators without replacement until one
      answers. Also returns the generators in the order they were tried. */
  method RandomInfoSignal(v: View, pick: nat -> nat, sample: Generator -> nat)
    returns (r: Option<Signal>, tried: seq<Generator>)
    ensures |tried| <= |Generators| && Distinct(tried)
    ensures r.Some? ==> tried != [] && r == Generate(v, tried[|tried| - 1], sample)
    ensures forall k | 0 <= k < |tried| && (r.None? || k < |tried| - 1) :: Generate(v, tried[k], sample).None?
    ensures r.None? <==> forall g: Generator :: Generate(v, g, sample).None?
  {
    var remaining := Generators;
    tried := [];
    forall g: Generator ensures g in remaining {
      match g
      case AntGenerator => assert remaining[0] == g;
      case BugGenerator => assert remaining[1] == g;
      case SugarGenerator => assert remaining[2] == g;
      case FruitGenerator => assert remaining[3] == g;
    }
    while remaining != []
      invariant |remaining| + |tried| == |Generators|
      invariant Distinct(remaining) && Distinct(tried)
      invariant forall g: Generator :: g in tried <==> g !in remaining
      invariant forall k | 0 <= k < |tried| :: Generate(v, tried[k], sample).None?
      decreases |remaining|
    {
      var i := pick(|tried|) % |remaining|;
      var g := remaining[i];
      var signal := Generate(v, g, sample);
      assert g !in tried;
      assert forall k | 0 <= k < |tried| :: (tried + [g])[k] == tried[k];
      tried := tried + [g];
      if signal.Some? {
        return signal, tried;
      }
      RemoveAtDistinct(remaining, i);
      remaining := remaining[..i] + remaining[i + 1..];
    }
    r := None;
    forall g: Generator ensures Generate(v, g, sample).None? {
      assert g in tried;
    }
  }

  /** `GetNextSignal`: the base signal, else a random report. */
  method NextSignal(base: Option<Signal>, v: View, pick: nat -> nat, sample: Generator -> nat) returns (r: Option<Signal>)
    ensures base.Some? ==> r == base
    ensures base.None? ==> (r.None? <==> forall g: Generator :: Generate(v, g, sample).None?)
    ensures base.None? && r.Some? ==> exists g: Generator :: r == Generate(v, g, sample)
  {
    if base.Some? {
      return base;
    }
    var tried;
    r, tried := RandomInfoSignal(v, pick, sample);
  }

  /** `UnderAttack` for either foe: flee home without dropping anything. */
  function UnderAttack(v: View): (r: seq<Act>)
    ensures r == [HeadHome]
  {
    [HeadHome]
  }
}
