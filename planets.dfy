/** The client's celestial-body catalog, the weight calculator over it and
    the tier-access filter (frontend/src/utils/planets.js). */
module Planets {
  import opened Results
  import opened Tiers
  import Decimal

  /** A catalog record. The descriptive fields (mass, diameter, texts,
      image URLs) are carried by the source but never computed with; the
      model keeps the fields the logic reads. */
  datatype Body = Body(id: nat, name: string, gravitationalForce: real, premiumTier: Tier)

  /** A copy of a record with a `weight` field added (`{ ...planet, weight }`). */
  datatype WeighedBody = WeighedBody(body: Body, weight: real)

  /** The `planets` array, in source order; its four sections hold the
      bodies of each tier in ascending order. */
  const Catalog: seq<Body> := FreeBodies + BasicBodies + PlusBodies + ExplorerBodies

  const FreeBodies: seq<Body> := [
    Body(1, "Mercury", 0.38, Free),
    Body(2, "Venus", 0.91, Free),
    Body(3, "Earth", 1.0, Free),
    Body(4, "Mars", 0.38, Free),
    Body(5, "Jupiter", 2.34, Free),
    Body(6, "Saturn", 1.06, Free),
    Body(7, "Uranus", 0.92, Free),
    Body(8, "Neptune", 1.19, Free)
  ]

  const BasicBodies: seq<Body> := [
    Body(9, "Pluto", 0.06, Basic),
    Body(10, "Moon", 0.166, Basic),
    Body(11, "Ceres", 0.028, Basic)
  ]

  const PlusBodies: seq<Body> := [
    Body(12, "Europa", 0.134, Plus),
    Body(13, "Titan", 0.138, Plus),
    Body(14, "Io", 0.183, Plus),
    Body(15, "Ganymede", 0.146, Plus),
    Body(16, "Enceladus", 0.012, Plus)
  ]

  const ExplorerBodies: seq<Body> := [
    Body(17, "Sun", 27.9, Explorer),
    Body(18, "Eris", 0.084, Explorer),
    Body(19, "Triton", 0.079, Explorer),
    Body(20, "Makemake", 0.05, Explorer),
    Body(21, "Haumea", 0.044, Explorer),
    Body(22, "Black Hole", 2000000.0, Explorer)
  ]

  const WeightError: string := "Please enter a valid weight greater than 0"

  /** Every catalog gravity is positive. */
  lemma CatalogGravityPositive()
    ensures forall i :: 0 <= i < |Catalog| ==> Catalog[i].gravitationalForce > 0.0
  {
  }

  /** The displayed weight of `earthWeight` on a body of gravity `g`:
      `parseFloat((earthWeight * g).toFixed(1))`. */
  function WeightOn(earthWeight: real, g: real): (r: real)
    ensures earthWeight >= 0.0 && g >= 0.0 ==> r >= 0.0
    ensures (r * 10.0).Floor as real == r * 10.0
  {
    Decimal.RoundedOnGrid(earthWeight * g, 1);
    assert Decimal.Pow10(1) == 10;
    Decimal.Rounded(earthWeight * g, 1)
  }

  /** `bodies.map(planet => ({ ...planet, weight }))`. */
  function WeighAll(bodies: seq<Body>, earthWeight: real): (r: seq<WeighedBody>)
    ensures |r| == |bodies|
    ensures forall i :: 0 <= i < |bodies| ==>
      r[i].body == bodies[i] && r[i].weight == WeightOn(earthWeight, bodies[i].gravitationalForce)
  {
    seq(|bodies|, i requires 0 <= i < |bodies| =>
      WeighedBody(bodies[i], WeightOn(earthWeight, bodies[i].gravitationalForce)))
  }

  /** `calculatePlanetWeight(earthWeight)`. The argument is given by its
      numeric value, `None` standing for NaN; the thrown error is `Err`. */
  function CalculatePlanetWeight(earthWeight: Option<real>): (r: Result<seq<WeighedBody>, string>)
    ensures r.Err? <==> earthWeight.None? || earthWeight.value <= 0.0
    ensures r.Err? ==> r.error == WeightError
    ensures r.Ok? ==> |r.value| == |Catalog|
    ensures r.Ok? ==> forall i :: 0 <= i < |Catalog| ==> r.value[i].body == Catalog[i]
  {
    if earthWeight.None? || earthWeight.value <= 0.0 then Err(WeightError)
    else Ok(WeighAll(Catalog, earthWeight.value))
  }

  /** Each displayed weight is the exact product rounded to one decimal:
      within 0.05 of `earthWeight * gravitationalForce`. */
  lemma WeightIsRoundedProduct(w: real, i: nat)
    requires w > 0.0 && i < |Catalog|
    ensures CalculatePlanetWeight(Some(w)).Ok?
    ensures var e := CalculatePlanetWeight(Some(w)).value[i];
      e.weight == Decimal.Rounded(w * Catalog[i].gravitationalForce, 1)
      && -0.05 <= e.weight - w * Catalog[i].gravitationalForce <= 0.05
  {
    WeighedNear(Catalog, w, i);
  }

  lemma WeighedNear(bodies: seq<Body>, w: real, i: nat)
    requires i < |bodies|
    ensures WeighAll(bodies, w)[i].weight == Decimal.Rounded(w * bodies[i].gravitationalForce, 1)
    ensures -0.05 <= WeighAll(bodies, w)[i].weight - w * bodies[i].gravitationalForce <= 0.05
  {
    WeightOnNear(w, bodies[i].gravitationalForce);
  }

  lemma WeightOnNear(w: real, g: real)
    ensures WeightOn(w, g) == Decimal.Rounded(w * g, 1)
    ensures -0.05 <= WeightOn(w, g) - w * g <= 0.05
  {
    Decimal.RoundedNear(w * g, 1);
    assert Decimal.Pow10(1) == 10;
  }

  /** A heavier Earth weight is never shown lighter on any body. */
  lemma WeightMonotone(w1: real, w2: real, i: nat)
    requires 0.0 < w1 <= w2 && i < |Catalog|
    ensures CalculatePlanetWeight(Some(w1)).value[i].weight <= CalculatePlanetWeight(Some(w2)).value[i].weight
  {
    CatalogGravityPositive();
    WeightOnMonotone(w1, w2, Catalog[i].gravitationalForce);
  }

  lemma WeightOnMonotone(w1: real, w2: real, g: real)
    requires w1 <= w2 && g > 0.0
    ensures WeightOn(w1, g) <= WeightOn(w2, g)
  {
    Decimal.MulMonotone(w1, w2, g);
    Decimal.RoundedMonotone(w1 * g, w2 * g, 1);
  }

  /** 70 on Earth is 26.6 on Mars (0.38) and 163.8 on Jupiter (2.34). */
  lemma SeventyOnMarsAndJupiter()
    ensures CalculatePlanetWeight(Some(70.0)).Ok?
    ensures CalculatePlanetWeight(Some(70.0)).value[3] == WeighedBody(Catalog[3], 26.6)
    ensures CalculatePlanetWeight(Some(70.0)).value[4] == WeighedBody(Catalog[4], 163.8)
  {
    assert Decimal.Pow10(1) == 10;
    Decimal.RoundedExact(70.0 * 0.38, 1, 266);
    Decimal.RoundedExact(70.0 * 2.34, 1, 1638);
  }

  /** `bodies.filter(planet => planet.premiumTier` is one of `allowed`). */
  function KeepTiers(bodies: seq<Body>, allowed: set<Tier>): (r: seq<Body>)
    ensures |r| <= |bodies|
    ensures forall b :: b in r <==> b in bodies && b.premiumTier in allowed
  {
    if bodies == [] then []
    else
      var rest := KeepTiers(bodies[1..], allowed);
      if bodies[0].premiumTier in allowed then [bodies[0]] + rest else rest
  }

  /** The switch of `getAccessiblePlanets`, over a given array of bodies;
      `None` is an omitted argument. */
  function AccessibleIn(bodies: seq<Body>, subscriptionTier: Option<string>): (r: seq<Body>)
    ensures |r| <= |bodies|
    ensures forall b :: b in r <==> b in bodies && Rank(b.premiumTier) <= Rank(EffectiveTier(subscriptionTier))
  {
    var tier := if subscriptionTier.None? then FREE else subscriptionTier.value;
    if tier == EXPLORER then bodies
    else if tier == PLUS then KeepTiers(bodies, {Free, Basic, Plus})
    else if tier == BASIC then KeepTiers(bodies, {Free, Basic})
    else KeepTiers(bodies, {Free})
  }

  /** `getAccessiblePlanets(subscriptionTier)`, over the catalog. */
  function GetAccessiblePlanets(subscriptionTier: Option<string>): (r: seq<Body>)
    ensures r == UpToRank(Catalog, Rank(EffectiveTier(subscriptionTier)))
  {
    AccessibleIsUpToRank(Catalog, subscriptionTier);
    AccessibleIn(Catalog, subscriptionTier)
  }

  /** Reference definition of access: the bodies, in order, whose tier
      ranks at most `k`. */
  function UpToRank(bodies: seq<Body>, k: int): seq<Body> {
    if bodies == [] then []
    else
      var rest := UpToRank(bodies[1..], k);
      if Rank(bodies[0].premiumTier) <= k then [bodies[0]] + rest else rest
  }

  /** `xs` can be obtained from `ys` by deleting elements. */
  ghost predicate SubsequenceOf<T>(xs: seq<T>, ys: seq<T>)
    decreases |ys|
  {
    if xs == [] then true
    else if ys == [] then false
    else (xs[0] == ys[0] && SubsequenceOf(xs[1..], ys[1..])) || SubsequenceOf(xs, ys[1..])
  }

  /** The plan a subscription argument resolves to: the switch's default
      takes an omitted or unrecognised one as free. */
  function EffectiveTier(subscriptionTier: Option<string>): (t: Tier)
    ensures subscriptionTier.Some? && !Parse(subscriptionTier.value).Unknown?
      ==> t == Parse(subscriptionTier.value)
    ensures subscriptionTier.None? || Parse(subscriptionTier.value).Unknown? ==> t == Free
  {
    if subscriptionTier.None? then Free
    else match Parse(subscriptionTier.value)
      case Unknown(_) => Free
      case t => t
  }

  /** A body is in `UpToRank(bodies, k)` exactly when it is in `bodies`
      and its tier ranks at most `k`. */
  lemma {:induction false} InUpToRank(bodies: seq<Body>, k: int, b: Body)
    ensures b in UpToRank(bodies, k) <==> b in bodies && Rank(b.premiumTier) <= k
  {
    if bodies != [] {
      InUpToRank(bodies[1..], k, b);
      assert bodies == [bodies[0]] + bodies[1..];
    }
  }

  lemma {:induction false} KeepTiersIsUpToRank(bodies: seq<Body>, allowed: set<Tier>, k: int)
    requires forall t: Tier :: t in allowed <==> Rank(t) <= k
    ensures KeepTiers(bodies, allowed) == UpToRank(bodies, k)
  {
    if bodies != [] {
      KeepTiersIsUpToRank(bodies[1..], allowed, k);
    }
  }

  lemma {:induction false} UpToRankAll(bodies: seq<Body>)
    ensures UpToRank(bodies, 3) == bodies
  {
    if bodies != [] {
      UpToRankAll(bodies[1..]);
      RankIsInjectiveOnTiers(bodies[0].premiumTier, Free);
      assert [bodies[0]] + bodies[1..] == bodies;
    }
  }

  /** Access by the tier switch is access by rank: a subscription sees
      exactly the bodies whose tier ranks at or below its own, in their
      order; an omitted or unrecognised subscription sees the free ones. */
  lemma AccessibleIsUpToRank(bodies: seq<Body>, subscriptionTier: Option<string>)
    ensures AccessibleIn(bodies, subscriptionTier) == UpToRank(bodies, Rank(EffectiveTier(subscriptionTier)))
  {
    var tier := if subscriptionTier.None? then FREE else subscriptionTier.value;
    if tier == EXPLORER {
      UpToRankAll(bodies);
    } else if tier == PLUS {
      KeepTiersIsUpToRank(bodies, {Free, Basic, Plus}, 2);
    } else if tier == BASIC {
      KeepTiersIsUpToRank(bodies, {Free, Basic}, 1);
    } else {
      KeepTiersIsUpToRank(bodies, {Free}, 0);
    }
  }

  /** What a subscription sees is decided by the tier it resolves to: an
      omitted or unrecognised argument sees what free sees. */
  lemma EffectiveTierDecidesAccess(bodies: seq<Body>, subscriptionTier: Option<string>)
    ensures AccessibleIn(bodies, subscriptionTier) == AccessibleIn(bodies, Some(Name(EffectiveTier(subscriptionTier))))
  {
    var t := EffectiveTier(subscriptionTier);
    ParseName(t);
    assert EffectiveTier(Some(Name(t))) == t;
    AccessibleIsUpToRank(bodies, subscriptionTier);
    AccessibleIsUpToRank(bodies, Some(Name(t)));
  }

  /** The explorer plan sees the whole catalog, unchanged. */
  lemma ExplorerSeesAll()
    ensures GetAccessiblePlanets(Some(EXPLORER)) == Catalog
  {
  }

  lemma {:induction false} UpToRankNested(bodies: seq<Body>, j: int, k: int)
    requires j <= k
    ensures SubsequenceOf(UpToRank(bodies, j), UpToRank(bodies, k))
  {
    if bodies != [] {
      UpToRankNested(bodies[1..], j, k);
      var xs, ys := UpToRank(bodies, j), UpToRank(bodies, k);
      if Rank(bodies[0].premiumTier) <= j {
        assert xs[0] == ys[0] && xs[1..] == UpToRank(bodies[1..], j) && ys[1..] == UpToRank(bodies[1..], k);
      } else if Rank(bodies[0].premiumTier) <= k {
        assert ys[1..] == UpToRank(bodies[1..], k);
        assert xs == UpToRank(bodies[1..], j);
        SubsequenceDropFirst(xs, ys);
      } else {
        assert xs == UpToRank(bodies[1..], j) && ys == UpToRank(bodies[1..], k);
      }
    }
  }

  lemma SubsequenceDropFirst<T>(xs: seq<T>, ys: seq<T>)
    requires ys != [] && SubsequenceOf(xs, ys[1..])
    ensures SubsequenceOf(xs, ys)
  {
  }

  /** A higher plan sees everything a lower one sees, in the same order:
      free within basic within plus within explorer. */
  lemma AccessIsNested(bodies: seq<Body>, lower: Option<string>, higher: Option<string>)
    requires Rank(EffectiveTier(lower)) <= Rank(EffectiveTier(higher))
    ensures SubsequenceOf(AccessibleIn(bodies, lower), AccessibleIn(bodies, higher))
  {
    AccessibleIsUpToRank(bodies, lower);
    AccessibleIsUpToRank(bodies, higher);
    UpToRankNested(bodies, Rank(EffectiveTier(lower)), Rank(EffectiveTier(higher)));
  }

  lemma {:induction false} UpToRankAppend(xs: seq<Body>, ys: seq<Body>, k: int)
    ensures UpToRank(xs + ys, k) == UpToRank(xs, k) + UpToRank(ys, k)
  {
    if xs == [] {
      assert xs + ys == ys;
    } else {
      assert (xs + ys)[1..] == xs[1..] + ys;
      UpToRankAppend(xs[1..], ys, k);
    }
  }

  /** Every body of `bodies` has tier `t`. */
  predicate AllTagged(bodies: seq<Body>, t: Tier) {
    forall i :: 0 <= i < |bodies| ==> bodies[i].premiumTier == t
  }

  lemma {:induction false} UpToRankOfTagged(bodies: seq<Body>, t: Tier, k: int)
    requires AllTagged(bodies, t)
    ensures UpToRank(bodies, k) == if Rank(t) <= k then bodies else []
  {
    if bodies != [] {
      UpToRankOfTagged(bodies[1..], t, k);
      assert [bodies[0]] + bodies[1..] == bodies;
    }
  }

  /** The catalog's sections are grouped by tier, in ascending order. */
  lemma CatalogSections(k: int)
    ensures UpToRank(Catalog, k) ==
      (if 0 <= k then FreeBodies else []) + (if 1 <= k then BasicBodies else []) +
      (if 2 <= k then PlusBodies else []) + (if 3 <= k then ExplorerBodies else [])
  {
    assert AllTagged(FreeBodies, Free);
    assert AllTagged(BasicBodies, Basic);
    assert AllTagged(PlusBodies, Plus);
    assert AllTagged(ExplorerBodies, Explorer);
    UpToRankAppend(FreeBodies + BasicBodies + PlusBodies, ExplorerBodies, k);
    UpToRankAppend(FreeBodies + BasicBodies, PlusBodies, k);
    UpToRankAppend(FreeBodies, BasicBodies, k);
    UpToRankOfTagged(FreeBodies, Free, k);
    UpToRankOfTagged(BasicBodies, Basic, k);
    UpToRankOfTagged(PlusBodies, Plus, k);
    UpToRankOfTagged(ExplorerBodies, Explorer, k);
  }

  /** The free plan, and an omitted or unrecognised one, sees the first 8
      bodies; basic the first 11; plus the first 16; explorer all 22. */
  lemma AccessiblePrefixes(subscriptionTier: Option<string>)
    ensures |Catalog| == 22
    ensures GetAccessiblePlanets(subscriptionTier) == Catalog[..
      match EffectiveTier(subscriptionTier)
      case Free => 8
      case Basic => 11
      case Plus => 16
      case Explorer => 22]
  {
    CatalogSections(Rank(EffectiveTier(subscriptionTier)));
    assert Catalog[..8] == FreeBodies;
    assert Catalog[..11] == FreeBodies + BasicBodies;
    assert Catalog[..16] == FreeBodies + BasicBodies + PlusBodies;
    assert Catalog[..22] == Catalog;
  }
}
