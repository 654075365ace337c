/** The page's mutable game state: the four module-level globals and the `level`
    field of each upgrade record, changed in place by the click handler, the buy
    handlers and the animation frame. Every method is proved to follow the
    value-level functions of module Economy and to keep its invariant. */
module PizzaGame {
  import opened Catalog
  import Economy

  class Game {
    const catalog: seq<Boost>
    /** `upgrades[i].level`, kept apart from the fixed part of each record. */
    const levels: array<nat>
    var counter: int
    var perSecond: real
    var accumulator: real
    var clickValue: int

    /** The globals and levels as one value. */
    ghost function Snapshot(): Economy.GameState
      reads this, levels
    {
      Economy.GameState(counter, perSecond, accumulator, clickValue, levels[..])
    }

    ghost predicate Valid()
      reads this, levels
    {
      && levels.Length == |catalog|
      && WellFormed(catalog)
      && Economy.Inv(catalog, Snapshot())
    }

    /** Page load: every level 0, counter 0, perSecond from the `reduce` over the
        levels, accumulator 0, clickValue 1. */
    constructor (catalog: seq<Boost>)
      requires WellFormed(catalog)
      ensures Valid() && fresh(levels)
      ensures this.catalog == catalog
      ensures Snapshot() == Economy.Initial(catalog)
    {
      this.catalog := catalog;
      var zeros := new nat[|catalog|](_ => 0);
      levels := zeros;
      assert zeros[..] == seq(|catalog|, _ => 0);
      SumsAtZeroLevels(catalog, zeros[..]);
      counter := 0;
      perSecond := Production(catalog, zeros[..]);
      accumulator := 0.0;
      clickValue := 1;
    }

    /** The pizza button: the counter grows by exactly clickValue and nothing else
        changes. */
    method Click()
      requires Valid()
      modifies this
      ensures Valid()
      ensures Snapshot() == Economy.Click(old(Snapshot()))
      ensures counter == old(counter) + old(clickValue) && counter > old(counter)
      ensures perSecond == old(perSecond) && accumulator == old(accumulator)
      ensures clickValue == old(clickValue)
    {
      counter := counter + clickValue;
      Economy.ClickPreservesInv(catalog, old(Snapshot()));
    }

    /** The buy button of upgrade i, charging the price the button shows. It buys
        exactly when the button is enabled; a refused purchase changes nothing. */
    method Purchase(i: nat) returns (bought: bool)
      requires Valid() && i < levels.Length
      modifies this, levels
      ensures Valid()
      ensures Snapshot() == Economy.Purchase(catalog, old(Snapshot()), i)
      ensures bought <==> !Economy.Disabled(catalog, old(Snapshot()), i)
      ensures bought ==>
        && counter == old(counter) - CostForLevel(catalog[i], old(levels[i]))
        && levels[i] == old(levels[i]) + 1
        && perSecond == old(perSecond) + catalog[i].perLevel
        && clickValue == old(clickValue) + PerClick(catalog[i])
        && accumulator == old(accumulator)
        && forall j :: 0 <= j < levels.Length && j != i ==> levels[j] == old(levels[j])
      ensures !bought ==> unchanged(this) && unchanged(levels)
    {
      var currentCost := CostForLevel(catalog[i], levels[i]);
      bought := counter >= currentCost;
      if bought {
        counter := counter - currentCost;
        levels[i] := levels[i] + 1;
        perSecond := perSecond + catalog[i].perLevel;
        clickValue := clickValue + PerClick(catalog[i]);
      }
      Economy.PurchasePreservesInv(catalog, old(Snapshot()), i);
    }

    /** One animation frame of dt seconds: the counter gains
        floor(accumulator + perSecond * dt) whole units, the accumulator keeps the
        fraction, and counter + accumulator grows by exactly perSecond * dt. */
    method Tick(dt: real) returns (toAdd: int)
      requires Valid() && dt >= 0.0
      modifies this
      ensures Valid()
      ensures Snapshot() == Economy.Tick(old(Snapshot()), dt)
      ensures toAdd == counter - old(counter) == (old(accumulator) + perSecond * dt).Floor
      ensures toAdd >= 0
      ensures counter as real + accumulator == old(counter as real + accumulator) + perSecond * dt
      ensures perSecond == old(perSecond) && clickValue == old(clickValue)
    {
      ghost var before := Snapshot();
      Economy.TickEffect(before, dt);
      Economy.TickPreservesInv(catalog, before, dt);
      toAdd := 0;
      if perSecond > 0.0 {
        accumulator := accumulator + perSecond * dt;
        if accumulator >= 1.0 {
          toAdd := accumulator.Floor;
          counter := counter + toAdd;
          accumulator := accumulator - toAdd as real;
        }
      }
      assert Snapshot() == Economy.Tick(before, dt);
    }

    /** A run of animation frames: the same state as one frame spanning their total
        length, so frame boundaries lose or create nothing. */
    method RunFrames(dts: seq<real>) returns (gained: int)
      requires Valid()
      requires forall k :: 0 <= k < |dts| ==> dts[k] >= 0.0
      modifies this
      ensures Valid()
      ensures Snapshot() == Economy.Tick(old(Snapshot()), Economy.Sum(dts))
      ensures gained == counter - old(counter) && gained >= 0
      ensures counter as real + accumulator
           == old(counter as real + accumulator) + perSecond * Economy.Sum(dts)
      ensures perSecond == old(perSecond) && clickValue == old(clickValue)
    {
      gained := 0;
      var k := 0;
      while k < |dts|
        invariant 0 <= k <= |dts|
        invariant Valid()
        invariant Economy.TickAll(Snapshot(), dts[k..]) == Economy.TickAll(old(Snapshot()), dts)
        invariant gained == counter - old(counter) && gained >= 0
      {
        ghost var before := Snapshot();
        assert dts[k..][1..] == dts[k + 1..];
        var g := Tick(dts[k]);
        assert Snapshot() == Economy.Tick(before, dts[k]);
        gained := gained + g;
        k := k + 1;
      }
      Economy.TickAllIsOneTick(old(Snapshot()), dts);
      Economy.TickEffect(old(Snapshot()), Economy.Sum(dts));
    }
  }
}
