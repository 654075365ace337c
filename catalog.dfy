/** The upgrade ("Boost") records, the shipped catalog, the price of the next level,
    and the two sums over owned levels that the game state caches. */
module Catalog {
  import opened Numeric

  /** An optional record field (`costMultiplier?`, `perClick?`, `description?`). */
  datatype Option<T> = None | Some(value: T)

  /** The fixed part of a Boost record: everything except its `level`, which the
      game state holds (see Game.levels) because it is the only field changed in place. */
  datatype Boost = Boost(
    id: string,
    name: string,
    description: Option<string>,
    initialCost: real,           // price of level 0 -> 1
    costMultiplier: Option<real>, // growth per level; 1.15 when absent
    perLevel: real,               // production per second granted by each level
    perClick: Option<int>)        // extra units per click granted by each level

  const DefaultMultiplier: real := 1.15

  /** `u.costMultiplier ?? 1.15` */
  function Multiplier(b: Boost): real {
    match b.costMultiplier
    case Some(m) => m
    case None => DefaultMultiplier
  }

  /** `u.perClick ?? 0` */
  function PerClick(b: Boost): int {
    match b.perClick
    case Some(k) => k
    case None => 0
  }

  /** The price of buying the next level (level -> level + 1):
      ceil(initialCost * multiplier^level). */
  function CostForLevel(b: Boost, level: nat): int {
    Ceil(b.initialCost * Pow(Multiplier(b), level))
  }

  /** A catalog whose upgrades never take production or click yield away. */
  predicate WellFormed(catalog: seq<Boost>) {
    forall i :: 0 <= i < |catalog| ==> catalog[i].perLevel >= 0.0 && PerClick(catalog[i]) >= 0
  }

  /** Sum over upgrades of level * perLevel, folded left to right from 0 as the
      initial `reduce` does. */
  function Production(catalog: seq<Boost>, levels: seq<nat>): (r: real)
    requires |levels| == |catalog|
    ensures (forall i :: 0 <= i < |catalog| ==> catalog[i].perLevel >= 0.0) ==> r >= 0.0
  {
    if |catalog| == 0 then 0.0
    else
      var n := |catalog| - 1;
      Production(catalog[..n], levels[..n]) + levels[n] as real * catalog[n].perLevel
  }

  /** Sum over upgrades of level * (perClick ?? 0): the click yield above the base 1. */
  function ClickBonus(catalog: seq<Boost>, levels: seq<nat>): (r: int)
    requires |levels| == |catalog|
    ensures (forall i :: 0 <= i < |catalog| ==> PerClick(catalog[i]) >= 0) ==> r >= 0
  {
    if |catalog| == 0 then 0
    else
      var n := |catalog| - 1;
      ClickBonus(catalog[..n], levels[..n]) + levels[n] * PerClick(catalog[n])
  }

  /** The catalog the game ships with. */
  const Upgrades: seq<Boost> := [
    Boost("oven", "Better Oven", Some("+0.5 / s"), 10.0, Some(1.15), 0.5, None),
    Boost("marketing", "Marketing Campaign", Some("+1 / s"), 25.0, Some(1.15), 1.0, None),
    Boost("delivery", "Delivery Route", Some("+2 / s"), 50.0, Some(1.15), 2.0, None),
    Boost("factory", "Pizza Factory", Some("+10 / s"), 200.0, Some(1.15), 10.0, None),
    Boost("robot", "Pizza Robot", Some("+50 / s"), 2000.0, Some(1.15), 50.0, None),
    Boost("training", "Chef Training", Some("+1 click"), 100.0, Some(1.15), 0.0, Some(1))
  ]

  // ---------------------------------------------------------------- cost curve

  /** At level 0 the price is exactly a whole-number initialCost. */
  lemma CostAtLevelZero(b: Boost, k: int)
    requires b.initialCost == k as real
    ensures CostForLevel(b, 0) == k
  {
  }

  /** An absent multiplier prices exactly like an explicit 1.15. */
  lemma AbsentMultiplierIsDefault(b: Boost, level: nat)
    requires b.costMultiplier == None
    ensures CostForLevel(b, level) == CostForLevel(b.(costMultiplier := Some(1.15)), level)
  {
  }

  /** With a multiplier of at least 1, the price never falls as the level rises. */
  lemma {:induction false} CostMonotone(b: Boost, l1: nat, l2: nat)
    requires b.initialCost >= 0.0 && Multiplier(b) >= 1.0
    requires l1 <= l2
    ensures CostForLevel(b, l1) <= CostForLevel(b, l2)
  {
    var m := Multiplier(b);
    PowMonotone(m, l1, l2);
    var p1, p2 := Pow(m, l1), Pow(m, l2);
    assert b.initialCost * p2 - b.initialCost * p1 == b.initialCost * (p2 - p1);
    MulNonNeg(b.initialCost, p2 - p1);
    CeilMonotone(b.initialCost * p1, b.initialCost * p2);
  }

  /** With a multiplier of at least 1, every price is a whole number no smaller
      than initialCost. */
  lemma CostAtLeastInitial(b: Boost, level: nat)
    requires b.initialCost >= 0.0 && Multiplier(b) >= 1.0
    ensures CostForLevel(b, level) as real >= b.initialCost
  {
    var p := Pow(Multiplier(b), level);
    assert b.initialCost * p - b.initialCost == b.initialCost * (p - 1.0);
    MulNonNeg(b.initialCost, p - 1.0);
  }

  /** The price rises strictly from each level to the next once one level's growth,
      initialCost * (multiplier - 1), is worth at least one whole unit. */
  lemma CostStrictlyIncreasing(b: Boost, level: nat)
    requires b.initialCost >= 0.0 && Multiplier(b) > 1.0
    requires b.initialCost * (Multiplier(b) - 1.0) >= 1.0
    ensures CostForLevel(b, level) < CostForLevel(b, level + 1)
  {
    var c, m := b.initialCost, Multiplier(b);
    var p := Pow(m, level);
    assert Pow(m, level + 1) == m * p;
    assert c * (m * p) - c * p == (c * (m - 1.0)) * p;
    MulAtLeastOne(c * (m - 1.0), p);
  }

  /** Without that growth condition a price can repeat: initialCost 1 with the
      default multiplier costs 2 at level 1 and again 2 at level 2 (1.15 and 1.3225,
      both rounded up). */
  lemma CostCanPlateau()
    ensures var b := Boost("", "", None, 1.0, None, 0.0, None);
      CostForLevel(b, 1) == 2 && CostForLevel(b, 2) == 2
  {
    assert Pow(1.15, 1) == 1.15;
    assert Pow(1.15, 2) == 1.3225;
  }

  // ---------------------------------------------------------------- the shipped catalog

  /** The shipped catalog never takes production or click yield away. */
  lemma UpgradesWellFormed()
    ensures WellFormed(Upgrades)
  {
  }

  /** Every shipped upgrade's price rises strictly with each level bought. */
  lemma UpgradePricesStrictlyIncrease(i: nat, level: nat)
    requires i < |Upgrades|
    ensures CostForLevel(Upgrades[i], level) < CostForLevel(Upgrades[i], level + 1)
  {
    CostStrictlyIncreasing(Upgrades[i], level);
  }

  /** The oven costs 10 at level 0 and ceil(11.5) = 12 at level 1. */
  lemma OvenFirstPrices()
    ensures CostForLevel(Upgrades[0], 0) == 10
    ensures CostForLevel(Upgrades[0], 1) == 12
  {
    assert Pow(1.15, 1) == 1.15;
  }

  // ---------------------------------------------------------------- the cached sums

  /** All-zero levels produce nothing and grant no click bonus. */
  lemma {:induction false} SumsAtZeroLevels(catalog: seq<Boost>, levels: seq<nat>)
    requires |levels| == |catalog|
    requires forall i :: 0 <= i < |levels| ==> levels[i] == 0
    ensures Production(catalog, levels) == 0.0
    ensures ClickBonus(catalog, levels) == 0
  {
    if |catalog| > 0 {
      var n := |catalog| - 1;
      SumsAtZeroLevels(catalog[..n], levels[..n]);
    }
  }

  /** Buying one level of upgrade i raises Production by exactly its perLevel. */
  lemma {:induction false} ProductionAfterLevelUp(catalog: seq<Boost>, levels: seq<nat>, i: nat)
    requires |levels| == |catalog| && i < |catalog|
    ensures Production(catalog, levels[i := levels[i] + 1])
         == Production(catalog, levels) + catalog[i].perLevel
  {
    var n := |catalog| - 1;
    var up := levels[i := levels[i] + 1];
    if i < n {
      assert up[..n] == levels[..n][i := levels[i] + 1];
      ProductionAfterLevelUp(catalog[..n], levels[..n], i);
    } else {
      assert up[..n] == levels[..n];
      assert (levels[n] + 1) as real * catalog[n].perLevel
          == levels[n] as real * catalog[n].perLevel + catalog[n].perLevel;
    }
  }

  /** Buying one level of upgrade i raises ClickBonus by exactly `perClick ?? 0`. */
  lemma {:induction false} ClickBonusAfterLevelUp(catalog: seq<Boost>, levels: seq<nat>, i: nat)
    requires |levels| == |catalog| && i < |catalog|
    ensures ClickBonus(catalog, levels[i := levels[i] + 1])
         == ClickBonus(catalog, levels) + PerClick(catalog[i])
  {
    var n := |catalog| - 1;
    var up := levels[i := levels[i] + 1];
    if i < n {
      assert up[..n] == levels[..n][i := levels[i] + 1];
      ClickBonusAfterLevelUp(catalog[..n], levels[..n], i);
    } else {
      assert up[..n] == levels[..n];
      assert (levels[n] + 1) * PerClick(catalog[n])
          == levels[n] * PerClick(catalog[n]) + PerClick(catalog[n]);
    }
  }
}
